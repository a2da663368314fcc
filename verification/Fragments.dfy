/** The data space: everything outside the slots, as one linear run of bytes
    (FileManager::writeFragmented and readFragmented in src/FileManager.cpp). */
module Fragments {
  import opened Bytes
  import opened Layout

  // ---- The simple form: one byte at a time, skipping before each ----

  /** The position after `n` data bytes from `off`. */
  function End(g: Geometry, off: nat, n: nat): nat
    decreases n
  {
    if n == 0 then off else End(g, g.Skip(off) + 1, n - 1)
  }

  /** The file after storing `data` from `off` on. */
  function Put(g: Geometry, disk: seq<byte>, off: nat, data: seq<byte>): seq<byte>
    decreases |data|
  {
    if data == [] then disk
    else Put(g, Splice(disk, g.Skip(off), [data[0]]), g.Skip(off) + 1, data[1..])
  }

  lemma {:induction false} Nothing(g: Geometry, disk: seq<byte>, off: nat)
    ensures Put(g, disk, off, []) == disk && End(g, off, 0) == off && Get(g, disk, off, 0) == Some([])
  {
  }

  function Prepend(a: seq<byte>, b: Option<seq<byte>>): Option<seq<byte>> {
    match b case None => None case Some(rest) => Some(a + rest)
  }

  /** The `n` data bytes from `off` on, or None when the file ends before them. */
  function Get(g: Geometry, disk: seq<byte>, off: nat, n: nat): (r: Option<seq<byte>>)
    ensures r.Some? ==> |r.value| == n
    decreases n
  {
    if n == 0 then Some([])
    else if g.Skip(off) >= |disk| then None
    else Prepend([disk[g.Skip(off)]], Get(g, disk, g.Skip(off) + 1, n - 1))
  }

  /** How many positions in [a, b) are data bytes. */
  function DataBytes(g: Geometry, a: nat, b: nat): nat
    decreases b - a
  {
    if a >= b then 0 else (if g.InSlot(a) then 0 else 1) + DataBytes(g, a + 1, b)
  }

  // ---- Counting ----

  lemma {:induction false} CountInSlots(g: Geometry, a: nat, m: nat, b: nat)
    requires a <= m
    requires forall q: nat :: a <= q < m ==> g.InSlot(q)
    ensures m <= b ==> DataBytes(g, a, b) == DataBytes(g, m, b)
    ensures b <= m ==> DataBytes(g, a, b) == 0
    decreases m - a
  {
    if a < m {
      CountInSlots(g, a + 1, m, b);
    }
  }

  lemma {:induction false} CountFromSkip(g: Geometry, a: nat, b: nat)
    requires g.Separated()
    ensures g.Skip(a) < b ==> DataBytes(g, a, b) == 1 + DataBytes(g, g.Skip(a) + 1, b)
    ensures b <= g.Skip(a) ==> DataBytes(g, a, b) == 0
  {
    SkipIsLeast(g, a);
    CountInSlots(g, a, g.Skip(a), b);
  }

  lemma {:induction false} CountSplit(g: Geometry, a: nat, m: nat, b: nat)
    requires a <= m <= b
    ensures DataBytes(g, a, b) == DataBytes(g, a, m) + DataBytes(g, m, b)
    decreases m - a
  {
    if a < m {
      CountSplit(g, a + 1, m, b);
    }
  }

  /** Allocation leaves no gap: [off, End) holds exactly `n` data bytes, the last one at its end. */
  lemma {:induction false} EndCounts(g: Geometry, off: nat, n: nat)
    requires g.Separated()
    ensures off + n <= End(g, off, n)
    ensures DataBytes(g, off, End(g, off, n)) == n
    ensures n > 0 ==> g.Skip(off) < End(g, off, n) && !g.InSlot(End(g, off, n) - 1)
    decreases n
  {
    if n > 0 {
      SkipIsLeast(g, off);
      EndCounts(g, g.Skip(off) + 1, n - 1);
      CountFromSkip(g, off, End(g, off, n));
    }
  }

  /** A write stays below `limit` exactly when the data bytes left below it suffice. */
  lemma {:induction false} FitsIffCount(g: Geometry, off: nat, n: nat, limit: nat)
    requires g.Separated() && off <= limit
    ensures End(g, off, n) <= limit <==> n <= DataBytes(g, off, limit)
    decreases n
  {
    if n > 0 {
      SkipIsLeast(g, off);
      CountFromSkip(g, off, limit);
      if g.Skip(off) < limit {
        FitsIffCount(g, g.Skip(off) + 1, n - 1, limit);
      } else {
        EndCounts(g, off, n);
      }
    }
  }

  lemma {:induction false} EndCompose(g: Geometry, off: nat, m: nat, n: nat)
    ensures End(g, off, m + n) == End(g, End(g, off, m), n)
    decreases m
  {
    if m > 0 {
      EndCompose(g, g.Skip(off) + 1, m - 1, n);
    }
  }

  /** Starting at a skipped position makes no difference to what follows. */
  lemma {:induction false} EndFromSkip(g: Geometry, off: nat, n: nat)
    requires g.Separated() && n > 0
    ensures End(g, g.Skip(off), n) == End(g, off, n)
  {
    SkipIsLeast(g, off);
    SkipIsLeast(g, g.Skip(off));
  }

  // ---- What a write changes ----

  lemma {:induction false} PutLength(g: Geometry, disk: seq<byte>, off: nat, data: seq<byte>)
    requires g.Separated()
    ensures |Put(g, disk, off, data)| == if data == [] then |disk| else Max(|disk|, End(g, off, |data|))
    decreases |data|
  {
    hide Splice;
    if data != [] {
      EndCounts(g, g.Skip(off) + 1, |data| - 1);
      PutLength(g, Splice(disk, g.Skip(off), [data[0]]), g.Skip(off) + 1, data[1..]);
    }
  }

  /** The byte at `p` of a file, which reads as zero past the end. */
  function At(disk: seq<byte>, p: nat): byte { if p < |disk| then disk[p] else 0 }

  /** Every byte after a write: a data byte in [off, End) holds the datum of its rank, every
      other byte keeps its value, and bytes past the old end read as zero. */
  lemma {:induction false} PutAt(g: Geometry, disk: seq<byte>, off: nat, data: seq<byte>, p: nat)
    requires g.Separated()
    ensures off <= p < End(g, off, |data|) && !g.InSlot(p) ==>
      DataBytes(g, off, p) < |data| && At(Put(g, disk, off, data), p) == data[DataBytes(g, off, p)]
    ensures !(off <= p < End(g, off, |data|) && !g.InSlot(p)) ==>
      At(Put(g, disk, off, data), p) == At(disk, p)
    decreases |data|
  {
    hide Splice, Geometry.InSlot, Geometry.Separated, Geometry.SkipFrom, Geometry.Skip, DataBytes;
    if data != [] {
      var cur := g.Skip(off);
      SkipIsLeast(g, off);
      EndCounts(g, cur + 1, |data| - 1);
      var d1 := Splice(disk, cur, [data[0]]);
      OneByteAt(disk, cur, data[0], p);
      PutAt(g, d1, cur + 1, data[1..], p);
      if off <= p {
        CountFromSkip(g, off, p);
      }
    }
  }

  lemma {:induction false} OneByteAt(disk: seq<byte>, cur: nat, b: byte, p: nat)
    ensures At(Splice(disk, cur, [b]), p) == if p == cur then b else At(disk, p)
  {
  }

  /** A write changes no byte of any slot and no byte outside [off, End). */
  lemma {:induction false} PutFrame(g: Geometry, disk: seq<byte>, off: nat, data: seq<byte>)
    requires g.Separated()
    ensures var after := Put(g, disk, off, data);
      && |disk| <= |after|
      && (End(g, off, |data|) <= |disk| ==> |after| == |disk|)
      && (forall p :: 0 <= p < |disk| && (g.InSlot(p) || p < off || End(g, off, |data|) <= p) ==> after[p] == disk[p])
  {
    var after := Put(g, disk, off, data);
    PutLength(g, disk, off, data);
    forall p | 0 <= p < |disk| && (g.InSlot(p) || p < off || End(g, off, |data|) <= p)
      ensures after[p] == disk[p]
    {
      PutAt(g, disk, off, data, p);
    }
  }

  /** Reading needs only the data bytes in [off, End). */
  lemma {:induction false} GetDependsOn(g: Geometry, d: seq<byte>, d': seq<byte>, off: nat, n: nat)
    requires g.Separated()
    requires forall p :: off <= p < End(g, off, n) && !g.InSlot(p) ==> p < |d| && p < |d'| && d[p] == d'[p]
    ensures Get(g, d, off, n) == Get(g, d', off, n)
    decreases n
  {
    if n > 0 {
      SkipIsLeast(g, off);
      EndCounts(g, off, n);
      GetDependsOn(g, d, d', g.Skip(off) + 1, n - 1);
    }
  }

  lemma {:induction false} GetSomeIff(g: Geometry, disk: seq<byte>, off: nat, n: nat)
    requires g.Separated()
    ensures Get(g, disk, off, n).Some? <==> n == 0 || End(g, off, n) <= |disk|
    decreases n
  {
    if n > 0 {
      SkipIsLeast(g, off);
      EndCounts(g, g.Skip(off) + 1, n - 1);
      GetSomeIff(g, disk, g.Skip(off) + 1, n - 1);
    }
  }

  /** What was written is what is read back. */
  lemma {:induction false} GetPut(g: Geometry, disk: seq<byte>, off: nat, data: seq<byte>)
    requires g.Separated()
    ensures Get(g, Put(g, disk, off, data), off, |data|) == Some(data)
    decreases |data|
  {
    hide Splice;
    if data != [] {
      var cur := g.Skip(off);
      var d1 := Splice(disk, cur, [data[0]]);
      var after := Put(g, d1, cur + 1, data[1..]);
      assert after == Put(g, disk, off, data);
      SkipIsLeast(g, off);
      GetPut(g, d1, cur + 1, data[1..]);
      PutFrame(g, d1, cur + 1, data[1..]);
      assert after[cur] == data[0];
      assert [data[0]] + data[1..] == data;
    }
  }

  lemma {:induction false} PutCompose(g: Geometry, disk: seq<byte>, off: nat, a: seq<byte>, b: seq<byte>)
    ensures Put(g, disk, off, a + b) == Put(g, Put(g, disk, off, a), End(g, off, |a|), b)
    decreases |a|
  {
    if a == [] {
      assert a + b == b;
    } else {
      assert (a + b)[1..] == a[1..] + b;
      PutCompose(g, Splice(disk, g.Skip(off), [a[0]]), g.Skip(off) + 1, a[1..], b);
    }
  }

  lemma {:induction false} GetCompose(g: Geometry, disk: seq<byte>, off: nat, m: nat, n: nat)
    ensures Get(g, disk, off, m + n) ==
      if Get(g, disk, off, m).None? then None
      else Prepend(Get(g, disk, off, m).value, Get(g, disk, End(g, off, m), n))
    decreases m
  {
    if m == 0 {
      if Get(g, disk, off, n).Some? {
        assert [] + Get(g, disk, off, n).value == Get(g, disk, off, n).value;
      }
    } else if g.Skip(off) < |disk| {
      var next := g.Skip(off) + 1;
      GetCompose(g, disk, next, m - 1, n);
      var a, b := Get(g, disk, next, m - 1), Get(g, disk, End(g, off, m), n);
      if a.Some? && b.Some? {
        assert [disk[next - 1]] + (a.value + b.value) == [disk[next - 1]] + a.value + b.value;
      }
    }
  }

  // ---- The fast form: whole segments between slots ----

  ghost predicate SegmentFree(g: Geometry, cur: nat, k: nat) {
    forall p: nat :: cur <= p < cur + k ==> !g.InSlot(p)
  }

  lemma {:induction false} SegmentAfterSkip(g: Geometry, cur: nat, k: nat)
    requires g.Separated() && !g.InSlot(cur)
    requires forall i :: 0 <= i < |g.slots| && g.slots[i] > cur ==> cur + k <= g.slots[i]
    ensures SegmentFree(g, cur, k)
  {
  }

  lemma {:induction false} SegmentTail(g: Geometry, cur: nat, k: nat)
    requires g.Separated() && k > 0 && SegmentFree(g, cur, k)
    ensures g.Skip(cur) == cur && SegmentFree(g, cur + 1, k - 1)
  {
    SkipIsLeast(g, cur);
  }

  lemma {:induction false} EndSegment(g: Geometry, cur: nat, k: nat)
    requires g.Separated() && SegmentFree(g, cur, k)
    ensures End(g, cur, k) == cur + k
    decreases k
  {
    if k > 0 {
      SegmentTail(g, cur, k);
      EndSegment(g, cur + 1, k - 1);
    }
  }

  lemma {:induction false} SpliceInTwo(disk: seq<byte>, cur: nat, data: seq<byte>)
    requires data != []
    ensures Splice(Splice(disk, cur, [data[0]]), cur + 1, data[1..]) == Splice(disk, cur, data)
  {
  }

  lemma {:induction false} PutSegment(g: Geometry, disk: seq<byte>, cur: nat, data: seq<byte>)
    requires g.Separated() && SegmentFree(g, cur, |data|)
    ensures Put(g, disk, cur, data) == Splice(disk, cur, data)
    decreases |data|
  {
    if data != [] {
      SegmentTail(g, cur, |data|);
      PutSegment(g, Splice(disk, cur, [data[0]]), cur + 1, data[1..]);
      SpliceInTwo(disk, cur, data);
    }
  }

  lemma {:induction false} GetSegment(g: Geometry, disk: seq<byte>, cur: nat, k: nat)
    requires g.Separated() && SegmentFree(g, cur, k) && cur + k <= |disk|
    ensures Get(g, disk, cur, k) == Some(disk[cur..cur + k])
    decreases k
  {
    if k > 0 {
      SegmentTail(g, cur, k);
      GetSegment(g, disk, cur + 1, k - 1);
      assert [disk[cur]] + disk[cur + 1..cur + k] == disk[cur..cur + k];
    }
  }

  lemma {:induction false} PutFromSkip(g: Geometry, disk: seq<byte>, off: nat, data: seq<byte>)
    requires g.Separated() && data != []
    ensures Put(g, disk, g.Skip(off), data) == Put(g, disk, off, data)
  {
    SkipIsLeast(g, off);
    SkipIsLeast(g, g.Skip(off));
  }

  lemma {:induction false} EndRound(g: Geometry, off: nat, k: nat, n: nat)
    requires g.Separated() && k > 0 && SegmentFree(g, g.Skip(off), k)
    ensures End(g, off, k + n) == End(g, g.Skip(off) + k, n)
  {
    EndSegment(g, g.Skip(off), k);
    EndCompose(g, g.Skip(off), k, n);
    EndFromSkip(g, off, k + n);
  }

  /** One round of the write loop: skip, then move one piece that meets no slot. */
  lemma {:induction false} Round(g: Geometry, disk: seq<byte>, off: nat, piece: seq<byte>, rest: seq<byte>)
    requires g.Separated() && piece != [] && SegmentFree(g, g.Skip(off), |piece|)
    ensures Put(g, disk, off, piece + rest)
      == Put(g, Splice(disk, g.Skip(off), piece), g.Skip(off) + |piece|, rest)
  {
    var cur, all := g.Skip(off), piece + rest;
    assert Put(g, disk, off, all) == Put(g, disk, cur, all) by { PutFromSkip(g, disk, off, all); }
    assert Put(g, disk, cur, piece) == Splice(disk, cur, piece) by { PutSegment(g, disk, cur, piece); }
    assert End(g, cur, |piece|) == cur + |piece| by { EndSegment(g, cur, |piece|); }
    PutCompose(g, disk, cur, piece, rest);
  }

  lemma {:induction false} WriteRound(g: Geometry, disk: seq<byte>, off: nat, data: seq<byte>, from: nat, to: nat)
    requires g.Separated() && from < to <= |data| && SegmentFree(g, g.Skip(off), to - from)
    ensures Put(g, disk, off, data[from..])
      == Put(g, Splice(disk, g.Skip(off), data[from..to]), g.Skip(off) + (to - from), data[to..])
    ensures End(g, off, |data| - from) == End(g, g.Skip(off) + (to - from), |data| - to)
  {
    hide Put, End, Splice;
    EndRound(g, off, to - from, |data| - to);
    assert data[from..] == data[from..to] + data[to..];
    Round(g, disk, off, data[from..to], data[to..]);
  }

  lemma {:induction false} ReadRound(g: Geometry, disk: seq<byte>, off: nat, n: nat, k: nat)
    requires g.Separated() && 0 < k <= n
    requires SegmentFree(g, g.Skip(off), k)
    ensures var cur := g.Skip(off);
      && End(g, off, n) == End(g, cur + k, n - k)
      && (cur + k > |disk| ==> Get(g, disk, off, n) == None)
      && (cur + k <= |disk| ==> Get(g, disk, off, n) == Prepend(disk[cur..cur + k], Get(g, disk, cur + k, n - k)))
  {
    var cur := g.Skip(off);
    SkipIsLeast(g, off);
    SkipIsLeast(g, cur);
    assert Get(g, disk, off, n) == Get(g, disk, cur, n);
    GetCompose(g, disk, cur, k, n - k);
    EndSegment(g, cur, k);
    EndRound(g, off, k, n - k);
    GetSomeIff(g, disk, cur, k);
    if cur + k <= |disk| {
      GetSegment(g, disk, cur, k);
    }
  }

  // ---- What the loops do, for any layout ----

  /** The file after the segment loop has stored `data` from `off` on. */
  function Segments(g: Geometry, disk: seq<byte>, off: nat, data: seq<byte>): seq<byte>
    decreases |data|
  {
    if data == [] then disk else
      var cur, k := g.Skip(off), g.Until(g.Skip(off), |data|);
      Segments(g, Splice(disk, cur, data[..k]), cur + k, data[k..])
  }

  /** The offset the loops return for `n` bytes. */
  function SegmentsEnd(g: Geometry, off: nat, n: nat): nat
    decreases n
  {
    if n == 0 then off else
      var cur, k := g.Skip(off), g.Until(g.Skip(off), n);
      SegmentsEnd(g, cur + k, n - k)
  }

  /** The bytes the segment loop collects, or None when a segment passes the end of the file. */
  function Collected(g: Geometry, disk: seq<byte>, off: nat, n: nat): (r: Option<seq<byte>>)
    ensures r.Some? ==> |r.value| == n
    decreases n
  {
    if n == 0 then Some([]) else
      var cur, k := g.Skip(off), g.Until(g.Skip(off), n);
      if cur + k > |disk| then None else Prepend(disk[cur..cur + k], Collected(g, disk, cur + k, n - k))
  }

  lemma {:induction false} UntilIsFree(g: Geometry, off: nat, n: nat)
    requires g.Separated()
    ensures SegmentFree(g, g.Skip(off), g.Until(g.Skip(off), n))
  {
    SkipIsLeast(g, off);
    UntilIsLeast(g, 0, g.Skip(off), n);
    SegmentAfterSkip(g, g.Skip(off), g.Until(g.Skip(off), n));
  }

  /** With separated slots the segment loop stores exactly what writing byte after byte stores. */
  lemma {:induction false} SegmentsArePut(g: Geometry, disk: seq<byte>, off: nat, data: seq<byte>)
    requires g.Separated()
    ensures Segments(g, disk, off, data) == Put(g, disk, off, data)
    decreases |data|
  {
    hide Put, End, Splice, Geometry.Separated, Geometry.Skip, Geometry.Until;
    if data == [] {
      Nothing(g, disk, off);
    } else {
      var cur, k := g.Skip(off), g.Until(g.Skip(off), |data|);
      UntilIsFree(g, off, |data|);
      assert data[0..] == data;
      WriteRound(g, disk, off, data, 0, k);
      assert data[0..k] == data[..k];
      SegmentsArePut(g, Splice(disk, cur, data[..k]), cur + k, data[k..]);
    }
  }

  lemma {:induction false} SegmentsEndIsEnd(g: Geometry, off: nat, n: nat)
    requires g.Separated()
    ensures SegmentsEnd(g, off, n) == End(g, off, n)
    decreases n
  {
    hide End, Geometry.Separated, Geometry.Skip, Geometry.Until;
    if n == 0 {
      Nothing(g, [], off);
    } else {
      var k := g.Until(g.Skip(off), n);
      UntilIsFree(g, off, n);
      EndRound(g, off, k, n - k);
      SegmentsEndIsEnd(g, g.Skip(off) + k, n - k);
    }
  }

  /** With separated slots the segment loop collects exactly the data bytes, and fails exactly when
      one of them is missing. */
  lemma {:induction false} CollectedIsGet(g: Geometry, disk: seq<byte>, off: nat, n: nat)
    requires g.Separated()
    ensures Collected(g, disk, off, n) == Get(g, disk, off, n)
    decreases n
  {
    hide Get, End, Geometry.Separated, Geometry.Skip, Geometry.Until;
    if n == 0 {
      Nothing(g, disk, off);
    } else {
      var k := g.Until(g.Skip(off), n);
      UntilIsFree(g, off, n);
      ReadRound(g, disk, off, n, k);
      CollectedIsGet(g, disk, g.Skip(off) + k, n - k);
    }
  }

  lemma {:induction false} SegmentsRound(g: Geometry, disk: seq<byte>, off: nat, data: seq<byte>)
    requires data != []
    ensures var cur, k := g.Skip(off), g.Until(g.Skip(off), |data|);
      && Segments(g, disk, off, data) == Segments(g, Splice(disk, cur, data[..k]), cur + k, data[k..])
      && SegmentsEnd(g, off, |data|) == SegmentsEnd(g, cur + k, |data| - k)
  {
  }

  lemma {:induction false} CollectedRound(g: Geometry, disk: seq<byte>, off: nat, n: nat)
    requires n > 0
    ensures var cur, k := g.Skip(off), g.Until(g.Skip(off), n);
      && SegmentsEnd(g, off, n) == SegmentsEnd(g, cur + k, n - k)
      && Collected(g, disk, off, n)
           == if cur + k > |disk| then None else Prepend(disk[cur..cur + k], Collected(g, disk, cur + k, n - k))
  {
  }

  lemma {:induction false} NoSegments(g: Geometry, disk: seq<byte>, off: nat)
    ensures Segments(g, disk, off, []) == disk && SegmentsEnd(g, off, 0) == off
    ensures Collected(g, disk, off, 0) == Some([])
  {
  }

  lemma {:induction false} PrependNothing(r: Option<seq<byte>>)
    ensures Prepend([], r) == r
  {
    if r.Some? { assert [] + r.value == r.value; }
  }

  lemma {:induction false} PrependTwice(a: seq<byte>, b: seq<byte>, r: Option<seq<byte>>)
    ensures Prepend(a, Prepend(b, r)) == Prepend(a + b, r)
  {
    if r.Some? { assert a + (b + r.value) == a + b + r.value; }
  }

  /** A file that is written and read at absolute positions. */
  class NativeFile {
    var content: seq<byte>

    constructor Preallocated(size: nat)
      ensures content == Zeros(size)
    {
      content := Zeros(size);
    }

    /** Opening with CreateTruncate, then preallocateSparse. */
    method Recreate(size: nat)
      modifies this
      ensures content == Zeros(size)
    {
      content := Zeros(size);
    }

    method WriteAt(off: nat, data: seq<byte>)
      modifies this
      ensures content == Splice(old(content), off, data)
    {
      content := Splice(content, off, data);
    }

    /** None is the exception thrown when the file ends too early. */
    method ReadAt(off: nat, n: nat) returns (r: Option<seq<byte>>)
      ensures n > 0 ==> (r.Some? <==> off + n <= |content|)
      ensures r.Some? && n > 0 ==> r.value == content[off..off + n]
      ensures n == 0 ==> r == Some([])
    {
      if n == 0 { return Some([]); }
      r := if off + n <= |content| then Some(content[off..off + n]) else None;
    }

    /** With separated slots the segment loop stores exactly what the byte-at-a-time form stores. */
    method WriteFragmented(g: Geometry, start: nat, data: seq<byte>) returns (offset: nat)
      modifies this
      ensures content == Segments(g, old(content), start, data) && offset == SegmentsEnd(g, start, |data|)
      ensures g.Separated() ==> content == Put(g, old(content), start, data) && offset == End(g, start, |data|)
    {
      hide Segments, SegmentsEnd, Put, End, Splice, Geometry.Separated, Geometry.Skip, Geometry.Until;
      if g.Separated() {
        SegmentsArePut(g, content, start, data);
        SegmentsEndIsEnd(g, start, |data|);
      }
      ghost var goal, stop := Segments(g, content, start, data), SegmentsEnd(g, start, |data|);
      offset := start;
      var written := 0;
      ghost var rest := data;
      while written < |data|
        invariant written <= |data| && rest == data[written..]
        invariant goal == Segments(g, content, offset, rest)
        invariant stop == SegmentsEnd(g, offset, |rest|)
      {
        SegmentsRound(g, content, offset, rest);
        var cur := SkipSlots(g, offset);
        var canWrite := BytesUntilNextSlot(g, cur, |data| - written);
        assert rest[..canWrite] == data[written..written + canWrite];
        rest := rest[canWrite..];
        WriteAt(cur, data[written..written + canWrite]);
        offset := cur + canWrite;
        written := written + canWrite;
      }
      NoSegments(g, content, offset);
    }

    /** None when some needed byte lies past the end of the file. */
    method ReadFragmented(g: Geometry, start: nat, size: nat) returns (r: Option<seq<byte>>, offset: nat)
      ensures r == Collected(g, content, start, size) && (r.Some? ==> offset == SegmentsEnd(g, start, size))
      ensures g.Separated() ==> r == Get(g, content, start, size) && (r.Some? ==> offset == End(g, start, size))
    {
      hide Collected, SegmentsEnd, Get, End, Prepend, Geometry.Separated, Geometry.Skip, Geometry.Until;
      if g.Separated() {
        CollectedIsGet(g, content, start, size);
        SegmentsEndIsEnd(g, start, size);
      }
      offset := start;
      var buf: seq<byte> := [];
      PrependNothing(Collected(g, content, start, size));
      while |buf| < size
        invariant |buf| <= size
        invariant Collected(g, content, start, size) == Prepend(buf, Collected(g, content, offset, size - |buf|))
        invariant SegmentsEnd(g, start, size) == SegmentsEnd(g, offset, size - |buf|)
        decreases size - |buf|
      {
        CollectedRound(g, content, offset, size - |buf|);
        var cur := SkipSlots(g, offset);
        var canRead := BytesUntilNextSlot(g, cur, size - |buf|);
        var piece := ReadAt(cur, canRead);
        if piece.None? {
          PrependNone(buf);
          return None, offset;
        }
        PrependTwice(buf, piece.value, Collected(g, content, cur + canRead, size - |buf| - canRead));
        buf := buf + piece.value;
        offset := cur + canRead;
      }
      NoSegments(g, content, offset);
      PrependAll(buf);
      r := Some(buf);
    }
  }

  lemma {:induction false} PrependNone(a: seq<byte>)
    ensures Prepend(a, None) == None
  {
  }

  lemma {:induction false} PrependAll(a: seq<byte>)
    ensures Prepend(a, Some([])) == Some(a)
  {
    assert a + [] == a;
  }
}
