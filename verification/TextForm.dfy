/** A text form of tables in which different tables have different texts. The real one is JSON; any
    injective form serves the theorems. */
module TextForm {
  import opened Bytes
  import opened Tables
  import opened Recovery

  function Unary(n: nat): seq<byte> { if n == 0 then [0] else [1] + Unary(n - 1) }

  function Chars(s: string): seq<byte> { if s == [] then [0] else [1] + (Unary(s[0] as int) + Chars(s[1..])) }

  function EntryText(e: FileEntry): seq<byte> {
    Chars(e.name) + (Unary(e.size) + (Unary(e.offset) + (Unary(e.chunks) + Chars(e.checksum))))
  }

  function EntriesText(es: seq<FileEntry>): seq<byte> {
    if es == [] then [0] else [1] + (EntryText(es[0]) + EntriesText(es[1..]))
  }

  /** A table spelt out. */
  function Spelt(t: Table): seq<byte> { EntriesText(t.entries) + Unary(t.next) }

  lemma {:induction false} Associate(a: seq<byte>, b: seq<byte>, c: seq<byte>)
    ensures (a + b) + c == a + (b + c)
  {
  }

  lemma {:induction false} Cancel(h: byte, a: seq<byte>, k: byte, b: seq<byte>)
    requires [h] + a == [k] + b
    ensures h == k && a == b
  {
    assert ([h] + a)[1..] == a && ([k] + b)[1..] == b && ([h] + a)[0] == h && ([k] + b)[0] == k;
  }

  lemma {:induction false} Open(h: byte, body: seq<byte>, a: seq<byte>)
    ensures |([h] + body) + a| > 0 && (([h] + body) + a)[0] == h && (([h] + body) + a)[1..] == body + a
  {
  }

  lemma {:induction false} UnaryOpens(n: nat, a: seq<byte>)
    ensures var s := Unary(n) + a;
      |s| > 0 && s[0] == (if n == 0 then 0 else 1) && s[1..] == if n == 0 then a else Unary(n - 1) + a
  {
    if n > 0 { Open(1, Unary(n - 1), a); }
  }

  lemma {:induction false} UnaryReads(m: nat, a: seq<byte>, n: nat, b: seq<byte>)
    requires Unary(m) + a == Unary(n) + b
    ensures m == n && a == b
  {
    hide Unary;
    UnaryOpens(m, a);
    UnaryOpens(n, b);
    if m > 0 && n > 0 {
      UnaryReads(m - 1, a, n - 1, b);
    }
  }

  lemma {:induction false} CharsOpen(s: string, a: seq<byte>)
    ensures var r := Chars(s) + a;
      && |r| > 0 && r[0] == (if s == [] then 0 else 1)
      && r[1..] == if s == [] then a else Unary(s[0] as int) + (Chars(s[1..]) + a)
  {
    hide Unary;
    if s != [] {
      Open(1, Unary(s[0] as int) + Chars(s[1..]), a);
      Associate(Unary(s[0] as int), Chars(s[1..]), a);
    }
  }

  lemma {:induction false} CharsRead(s: string, a: seq<byte>, t: string, b: seq<byte>)
    requires Chars(s) + a == Chars(t) + b
    ensures s == t && a == b
  {
    hide Chars, Unary;
    CharsOpen(s, a);
    CharsOpen(t, b);
    if s != [] && t != [] {
      UnaryReads(s[0] as int, Chars(s[1..]) + a, t[0] as int, Chars(t[1..]) + b);
      CharsRead(s[1..], a, t[1..], b);
      assert s == [s[0]] + s[1..] && t == [t[0]] + t[1..];
    }
  }

  lemma {:induction false} EntryReads(e: FileEntry, a: seq<byte>, f: FileEntry, b: seq<byte>)
    requires EntryText(e) + a == EntryText(f) + b
    ensures e == f && a == b
  {
    hide Unary, Chars;
    EntryTextThen(e, a);
    EntryTextThen(f, b);
    CharsRead(e.name, Unary(e.size) + (Unary(e.offset) + (Unary(e.chunks) + (Chars(e.checksum) + a))),
              f.name, Unary(f.size) + (Unary(f.offset) + (Unary(f.chunks) + (Chars(f.checksum) + b))));
    UnaryReads(e.size, Unary(e.offset) + (Unary(e.chunks) + (Chars(e.checksum) + a)),
               f.size, Unary(f.offset) + (Unary(f.chunks) + (Chars(f.checksum) + b)));
    UnaryReads(e.offset, Unary(e.chunks) + (Chars(e.checksum) + a),
               f.offset, Unary(f.chunks) + (Chars(f.checksum) + b));
    UnaryReads(e.chunks, Chars(e.checksum) + a, f.chunks, Chars(f.checksum) + b);
    CharsRead(e.checksum, a, f.checksum, b);
  }

  lemma {:induction false} EntryTextThen(e: FileEntry, a: seq<byte>)
    ensures EntryText(e) + a
      == Chars(e.name) + (Unary(e.size) + (Unary(e.offset) + (Unary(e.chunks) + (Chars(e.checksum) + a))))
  {
    hide Unary, Chars;
    var r3 := Unary(e.chunks) + Chars(e.checksum);
    var r2 := Unary(e.offset) + r3;
    var r1 := Unary(e.size) + r2;
    Associate(Chars(e.name), r1, a);
    Associate(Unary(e.size), r2, a);
    Associate(Unary(e.offset), r3, a);
    Associate(Unary(e.chunks), Chars(e.checksum), a);
  }

  lemma {:induction false} EntriesOpen(es: seq<FileEntry>, a: seq<byte>)
    ensures var r := EntriesText(es) + a;
      && |r| > 0 && r[0] == (if es == [] then 0 else 1)
      && r[1..] == if es == [] then a else EntryText(es[0]) + (EntriesText(es[1..]) + a)
  {
    hide EntryText;
    if es != [] {
      Open(1, EntryText(es[0]) + EntriesText(es[1..]), a);
      Associate(EntryText(es[0]), EntriesText(es[1..]), a);
    }
  }

  lemma {:induction false} EntriesRead(es: seq<FileEntry>, a: seq<byte>, fs: seq<FileEntry>, b: seq<byte>)
    requires EntriesText(es) + a == EntriesText(fs) + b
    ensures es == fs && a == b
  {
    hide EntriesText, EntryText;
    EntriesOpen(es, a);
    EntriesOpen(fs, b);
    if es != [] && fs != [] {
      EntryReads(es[0], EntriesText(es[1..]) + a, fs[0], EntriesText(fs[1..]) + b);
      EntriesRead(es[1..], a, fs[1..], b);
      assert es == [es[0]] + es[1..] && fs == [fs[0]] + fs[1..];
    }
  }

  lemma {:induction false} SpeltInjective(t: Table, u: Table)
    requires Spelt(t) == Spelt(u)
    ensures t == u
  {
    hide EntriesText, Unary;
    EntriesRead(t.entries, Unary(t.next), u.entries, Unary(u.next));
    assert Unary(t.next) + [] == Unary(t.next) && Unary(u.next) + [] == Unary(u.next);
    UnaryReads(t.next, [], u.next, []);
  }
}
