/** The assumptions of the theorems can be met: one context (a cipher that opens only what it would have
    written itself, a code that depends on the key and on the header, a key derivation that is not
    constant, a text form of tables) in which a container is created and used. */
module Consistency {
  import opened Bytes
  import opened Layout
  import opened Fragments
  import opened Chunks
  import opened Sealing
  import opened Tables
  import opened Encrypt
  import opened Storing
  import opened HeaderCodec
  import opened Slots
  import opened Recovery
  import opened Container
  import opened Torn
  import opened TextForm

  // ---- A cipher ----

  function Repeated(b: byte, n: nat): seq<byte> { seq(n, _ => b) }

  /** What stands in front of a sealed string. */
  function Front(plain: seq<byte>): seq<byte> { Repeated(if |plain| == 1 then plain[0] else 0, OVERHEAD) }

  function Opened(s: seq<byte>): Option<seq<byte>> {
    if |s| >= OVERHEAD && s[..OVERHEAD] == Front(s[OVERHEAD..]) then Some(s[OVERHEAD..]) else None
  }

  const CRYPTO: Crypto := Crypto((nonce, plain) => Some(Front(plain) + plain), Opened, plain => "")

  lemma {:induction false} OpenedOnly(s: seq<byte>, plain: seq<byte>)
    ensures Opened(s) == Some(plain) <==> s == Front(plain) + plain
  {
    if Opened(s) == Some(plain) { assert s == s[..OVERHEAD] + s[OVERHEAD..]; }
    if s == Front(plain) + plain { assert s[..OVERHEAD] == Front(plain) && s[OVERHEAD..] == plain; }
  }

  // ---- A text form in which a few tables have texts of one byte ----

  datatype Shorts = Shorts(a: Table, b: Table, c: Table, e: Table) {
    function Code(t: Table): byte {
      if t == a then 1 else if t == b then 2 else if t == c then 3 else if t == e then 4 else 0
    }

    function Text(t: Table): seq<byte> { if Code(t) != 0 then [Code(t)] else [0] + Spelt(t) }
  }

  lemma {:induction false} TextInjective(k: Shorts, t: Table, u: Table)
    requires k.Text(t) == k.Text(u)
    ensures t == u
  {
    hide Spelt;
    assert k.Text(t)[0] == k.Text(u)[0];
    if k.Code(t) == 0 && k.Code(u) == 0 {
      Cancel(0, Spelt(t), 0, Spelt(u));
      SpeltInjective(t, u);
    }
  }

  ghost function Parsed(k: Shorts, b: seq<byte>): Option<Table> {
    if exists t :: k.Text(t) == b then Some(var t :| k.Text(t) == b; t) else None
  }

  // ---- A code and a key derivation ----

  function Derived(params: KdfParams): Key { [params.t % 256] }

  const OWN_KEY: Key := [1]

  /** Depends on the number of files and the header version, and on whether the key is the right one. */
  function CodeByte(key: Key, bytes: seq<byte>): byte {
    if |bytes| <= 0x90 then 0 else
      var count: int, version: int, foreign: int := bytes[0x88], bytes[0x90], if key == OWN_KEY then 0 else 1;
      (16 * count + version + foreign) % 256
  }

  ghost function SuiteFor(k: Shorts): Suite {
    Suite(Derived, (hash, key, bytes) => Repeated(CodeByte(key, bytes), 32), (cipher, key, sealed) => Opened(sealed),
          bytes => Parsed(k, bytes))
  }

  ghost function ContextFor(k: Shorts): Context { Context(CRYPTO, SuiteFor(k), (t: Table) => k.Text(t), Zeros(32)) }

  lemma {:induction false} ContextIdeal(k: Shorts)
    ensures ContextFor(k).Ideal()
  {
    hide Spelt, Shorts.Code;
    var x := ContextFor(k);
    forall t ensures x.Readable(t) {
      assert x.text(t) == k.Text(t) && x.s.parse(x.text(t)) == Parsed(k, k.Text(t));
      assert Parsed(k, k.Text(t)).Some?;
      var u := Parsed(k, k.Text(t)).value;
      TextInjective(k, t, u);
    }
    forall nonce, plain ensures x.c.Sound(nonce, plain) { OpenedOnly(Front(plain) + plain, plain); }
  }

  // ---- A header ----

  const FIELDS: Fields := Fields(1, 1, HEADER_SIZE, 1, 1, 0, 1, 1, 1, Zeros(32), Zeros(12), Zeros(32), Zeros(16),
                                 0x10_0000, 0, 65536, 0, 65536, 0, 0, 1, Zeros(7), Zeros(32), Zeros(320), Zeros(512))

  /** The header for a table with a text of one byte. */
  ghost function HeaderAt(k: Shorts, count: nat, version: nat): Fields {
    Coded(SuiteFor(k), FIELDS.(fileTableSize := OVERHEAD + 1, fileCount := count, headerVersion := version))
  }

  lemma {:induction false} FieldsFormed()
    ensures FIELDS.WellFormed() && FIELDS.containerSize == 0x10_0000 && FIELDS.maxTableSize == 65536
  {
    assert Fits(0x10_0000, 8);
  }

  lemma {:induction false} FieldsKeyed(k: Shorts)
    ensures Keyed(ContextFor(k), FIELDS) && Sized(FIELDS)
  {
    FieldsFormed();
    hide Fields.WellFormed;
    var wrapped := FIELDS.dekNonce + FIELDS.encryptedDek + FIELDS.dekAuthTag;
    assert wrapped == Zeros(60) && Front(Zeros(32)) == Zeros(28);
    assert Zeros(60) == Zeros(28) + Zeros(32);
    OpenedOnly(wrapped, Zeros(32));
  }

  lemma {:induction false} HeaderFormed(k: Shorts, count: nat, version: nat)
    requires count < 16 && version < 16
    ensures Keyed(ContextFor(k), HeaderAt(k, count, version)) && Sized(HeaderAt(k, count, version))
    ensures HeaderAt(k, count, version).WellFormed() && Siblings(FIELDS, HeaderAt(k, count, version))
  {
    FieldsKeyed(k);
    FieldsFormed();
    var h := HeaderAt(k, count, version);
    WordFits(OVERHEAD + 1);
    WordFits(version);
    WordFits(count);
    KeyedKept(ContextFor(k), FIELDS, OVERHEAD + 1, version, count, h.hmac);
    hide Keyed, Fits, HeaderCodec.Prefix;
    KeyedFormat(ContextFor(k), h);
  }

  function HeaderByte(p: nat, count: byte, version: byte, code: byte): byte
    requires p < HEADER_SIZE == |Serialize(FIELDS)|
  {
    if p == 0x88 then count else if p == 0x90 then version else if 0xA0 <= p < 0xC0 then code
    else if 0x80 <= p < 0x84 then Le(OVERHEAD + 1, 4)[p - 0x80] else Serialize(FIELDS)[p]
  }

  /** The bytes of a header of this container. */
  ghost predicate HeaderBytes(buf: seq<byte>, count: byte, version: byte, code: byte) {
    && |buf| == |Serialize(FIELDS)| == HEADER_SIZE
    && forall p :: 0 <= p < HEADER_SIZE ==> buf[p] == HeaderByte(p, count, version, code)
  }

  lemma {:induction false} SerializedWord(f: Fields, i: nat, v: nat, p: nat)
    requires f.WellFormed() && i < PARTS && Part(f, i) == Le(v, 4)
    requires Position(i) <= p < Position(i) + 4 == Position(i + 1)
    ensures |Serialize(f)| == HEADER_SIZE && p < HEADER_SIZE && Serialize(f)[p] == Le(v, 4)[p - Position(i)]
  {
    hide Serialize, Part, Position, Le, Fields.WellFormed;
    SliceOfSerialize(f, i);
    PositionsInside(i + 1);
    assert Slice(Serialize(f), i)[p - Position(i)] == Serialize(f)[p];
  }

  lemma {:induction false} SmallWord(v: nat, i: nat)
    requires v < 256 && i < 4
    ensures Le(v, 4)[i] == if i == 0 then v else 0
  {
    assert Le(v, 4) == [v] + Le(0, 3);
    assert Le(0, 3) == [0] + Le(0, 2) && Le(0, 2) == [0] + Le(0, 1) && Le(0, 1) == [0] + Le(0, 0);
  }

  lemma {:induction false} SerializedBytes(f: Fields, p: nat)
    requires f.WellFormed() && FIELDS.WellFormed() && Siblings(FIELDS, f) && p < HEADER_SIZE
    requires f.fileTableSize == OVERHEAD + 1 && f.fileCount < 256 && f.headerVersion < 256
    ensures |Serialize(f)| == |Serialize(FIELDS)| == HEADER_SIZE
    ensures !(0xA0 <= p < 0xC0) ==> Serialize(f)[p] == HeaderByte(p, f.fileCount, f.headerVersion, 0)
    ensures 0xA0 <= p < 0xC0 ==> Serialize(f)[p] == f.hmac[p - 0xA0]
  {
    hide Serialize, Le, Siblings, Fields.WellFormed, Position, Part;
    SerializedLength(f);
    SerializedLength(FIELDS);
    SiblingsKin(FIELDS, f);
    ChangingParts(f);
    ChangingParts(FIELDS);
    if 0x80 <= p < 0x84 {
      SerializedWord(f, 15, f.fileTableSize, p);
    } else if 0x88 <= p < 0x8C {
      SerializedWord(f, 17, f.fileCount, p);
      SerializedWord(FIELDS, 17, 0, p);
      SmallWord(f.fileCount, p - 0x88);
      SmallWord(0, p - 0x88);
    } else if 0x90 <= p < 0x94 {
      SerializedWord(f, 19, f.headerVersion, p);
      SerializedWord(FIELDS, 19, 0, p);
      SmallWord(f.headerVersion, p - 0x90);
      SmallWord(0, p - 0x90);
    } else if 0xA0 <= p < 0xC0 {
      SliceOfSerialize(f, 23);
      assert Slice(Serialize(f), 23)[p - 0xA0] == Serialize(f)[p];
    }
  }

  lemma {:induction false} ChangingParts(f: Fields)
    ensures Position(15) == 0x80 && Position(16) == 0x84 && Position(17) == 0x88 && Position(18) == 0x8C
    ensures Position(19) == 0x90 && Position(20) == 0x94 && Position(23) == 0xA0 && Position(24) == 0xC0
    ensures Part(f, 15) == Le(f.fileTableSize, 4) && Part(f, 17) == Le(f.fileCount, 4)
    ensures Part(f, 19) == Le(f.headerVersion, 4)
    ensures Part(f, 23) == f.hmac
  {
  }

  lemma {:induction false} HeaderAtBytes(k: Shorts, count: nat, version: nat)
    requires count < 16 && version < 16
    ensures HeaderBytes(Serialize(HeaderAt(k, count, version)), count, version, 16 * count + version)
  {
    hide Serialize, HeaderAt, Fields.WellFormed, Siblings, Le, HeaderCodec.Prefix;
    var h := HeaderAt(k, count, version);
    HeaderFormed(k, count, version);
    FieldsFormed();
    HeaderAtFields(k, count, version);
    SerializedLength(FIELDS);
    SerializedLength(h);
    forall p: nat | p < HEADER_SIZE ensures Serialize(h)[p] == HeaderByte(p, count, version, 16 * count + version) {
      SerializedBytes(h, p);
    }
  }

  lemma {:induction false} HeaderAtFields(k: Shorts, count: nat, version: nat)
    requires count < 16 && version < 16
    ensures var h := HeaderAt(k, count, version);
      && h.fileTableSize == OVERHEAD + 1 && h.fileCount == count && h.headerVersion == version
      && h.hmac == Repeated(16 * count + version, 32)
  {
    hide Fits, Serialize, HeaderCodec.Prefix, Le, Position, Part, Fields.WellFormed;
    var f := FIELDS.(fileTableSize := OVERHEAD + 1, fileCount := count, headerVersion := version);
    FieldsFormed();
    WordsFormed(FIELDS, OVERHEAD + 1, count, version);
    CodedBytes(f, count, version);
    assert Derived(ParamsOf(f)) == OWN_KEY;
  }

  lemma {:induction false} WordsFormed(f: Fields, size: nat, count: nat, version: nat)
    requires f.WellFormed() && size < TWO_TO_THE_32 && count < TWO_TO_THE_32 && version < TWO_TO_THE_32
    ensures f.(fileTableSize := size, fileCount := count, headerVersion := version).WellFormed()
  {
    hide Fits;
    WordFits(size);
    WordFits(version);
    WordFits(count);
  }

  lemma {:induction false} CodedBytes(f: Fields, count: nat, version: nat)
    requires f.WellFormed() && f.fileCount == count < 256 && f.headerVersion == version < 256
    ensures var bytes := HeaderCodec.Prefix(f, 23);
      |bytes| == HMAC_PROTECTED_SIZE && bytes[0x88] == count && bytes[0x90] == version
  {
    hide Fits, Serialize, HeaderCodec.Prefix, Le, Position, Part, Fields.WellFormed;
    ProtectedPart(f);
    PrefixLength(f, 23);
    ChangingParts(f);
    SerializedWord(f, 17, count, 0x88);
    SerializedWord(f, 19, version, 0x90);
    SmallWord(count, 0);
    SmallWord(version, 0);
    var bytes := HeaderCodec.Prefix(f, 23);
    assert bytes[0x88] == Serialize(f)[..HMAC_PROTECTED_SIZE][0x88];
    assert bytes[0x90] == Serialize(f)[..HMAC_PROTECTED_SIZE][0x90];
  }

  // ---- Tearing ----

  /** Mixtures of a header with this code and one with the right code never carry the former. */
  ghost predicate NoCollision(count: nat, version: nat, code: nat, count': nat, version': nat) {
    && count < 16 && version < 16 && code < 256 && count' < 16 && version' < 16
    && (code == 16 * count' + version' || (
          && (16 * count' + version == code ==> count' == count)
          && (16 * count + version' == code ==> version' == version)))
  }

  lemma {:induction false} HeaderTears(k: Shorts, f: Fields, hs: seq<byte>, hn: seq<byte>, buf: seq<byte>, count: nat,
          version: nat, code: nat, count': nat, version': nat)
    requires NoCollision(count, version, code, count', version') && Siblings(FIELDS, f)
    requires HeaderBytes(hs, count, version, code) && HeaderBytes(hn, count', version', 16 * count' + version')
    requires Mix(hs, hn, buf) && Verifies(ContextFor(k), f, buf)
    ensures SameFront(buf, hs) || SameFront(buf, hn)
  {
    hide Serialize, Le;
    assert Derived(ParamsOf(f)) == OWN_KEY;
    var value := CodeByte(OWN_KEY, buf[..HMAC_PROTECTED_SIZE]);
    assert value == 16 * buf[0x88] + buf[0x90];
    forall p: nat | 0xA0 <= p < 0xC0 ensures buf[p] == value {
      assert buf[HMAC_PROTECTED_SIZE..0xC0][p - 0xA0] == Repeated(value, 32)[p - 0xA0];
    }
    var same := if value == 16 * count' + version' then hn else hs;
    forall p: nat | p < 0xC0 ensures buf[p] == same[p] {
      assert buf[0xA0] == value;
    }
    assert buf[..0xC0] == same[..0xC0];
  }

  /** A table area with a table of one byte, or a mixture of two. */
  ghost predicate AreaBytes(area: seq<byte>, b: byte, b': byte) {
    && b > 0 && b' > 0 && |area| == 65536
    && forall p :: 0 <= p < |area| ==> if p <= OVERHEAD then area[p] == b || area[p] == b' else area[p] == 0
  }

  lemma {:induction false} AreaTears(area: seq<byte>, b: byte, b': byte, n: nat)
    requires AreaBytes(area, b, b') && n <= |area| && Opened(area[..n]).Some?
    ensures area[..n] == Repeated(b, OVERHEAD + 1) || area[..n] == Repeated(b', OVERHEAD + 1)
  {
    var plain := Opened(area[..n]).value;
    OpenedOnly(area[..n], plain);
    assert area[..n][0] == area[0] && area[..n][0] == Front(plain)[0];
    assert |plain| == 1;
    forall p: nat | p < n ensures area[..n][p] == plain[0] {
      assert area[..n][p] == if p < OVERHEAD then Front(plain)[p] else plain[p - OVERHEAD];
    }
    assert area[..n][OVERHEAD] == area[OVERHEAD];
    assert area[..n] == Repeated(plain[0], OVERHEAD + 1);
  }

  /** A version whose table has a text of one byte. */
  ghost predicate ShortVersion(k: Shorts, n: Version, count: nat, version: nat, b: byte) {
    && count < 16 && version < 16 && b > 0
    && n.header == HeaderAt(k, count, version) && n.enc == Repeated(b, OVERHEAD + 1)
  }

  lemma {:induction false} ShortArea(k: Shorts, n: Version, count: nat, version: nat, b: byte)
    requires ShortVersion(k, n, count, version, b)
    ensures AreaBytes(n.Area(), b, b)
  {
    hide HeaderAt, Siblings;
    FieldsFormed();
    HeaderFormed(k, count, version);
    SiblingsFacts(FIELDS, n.header);
  }

  lemma {:induction false} TornShort(k: Shorts, s: seq<byte>, n: Version, count: nat, version: nat, code: nat, b: byte,
          count': nat, version': nat, b': byte)
    requires NoCollision(count, version, code, count', version') && ShortVersion(k, n, count', version', b')
    requires |s| >= HEADER_SIZE && HeaderBytes(s[..HEADER_SIZE], count, version, code)
    requires AreaBytes(s[HEADER_SIZE..], b, b)
    ensures TornRejected(ContextFor(k), s, n)
  {
    hide Serialize, HeaderAt, Siblings, Version.Area, ContextFor, Verifies, HeaderBytes, SameFront, NoCollision;
    hide Context.Ideal;
    HeaderFormed(k, count', version');
    HeaderAtBytes(k, count', version');
    ShortArea(k, n, count', version', b');
    var x := ContextFor(k);
    ContextOpens(k);
    forall buf | Mix(s[..HEADER_SIZE], Serialize(n.header), buf) && Verifies(x, n.header, buf)
      ensures SameFront(buf, s[..HEADER_SIZE]) || SameFront(buf, Serialize(n.header))
    {
      HeaderTears(k, n.header, s[..HEADER_SIZE], Serialize(n.header), buf, count, version, code, count', version');
    }
    forall area, m: nat | Mix(s[HEADER_SIZE..], n.Area(), area) && m <= |area| && x.c.unseal(area[..m]).Some?
      ensures area[..m] == s[HEADER_SIZE..][..m] || area[..m] == n.enc
    {
      AreaTears(area, b, b', m);
      if area[..m] != n.enc {
        assert |area[..m]| == |Repeated(b, OVERHEAD + 1)| == m;
        assert s[HEADER_SIZE..][..m] == Repeated(b, OVERHEAD + 1);
      }
    }
  }

  lemma {:induction false} ContextOpens(k: Shorts)
    ensures forall ct :: ContextFor(k).c.unseal(ct) == Opened(ct)
  {
  }
}
