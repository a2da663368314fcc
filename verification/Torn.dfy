/** A slot whose writing was cut off: it may hold any byte-wise mixture of what it held before and of
    what was being written (writeFileTableToAllSlots and readMeta in src/FileManager.cpp). */
module Torn {
  import opened Bytes
  import opened Layout
  import opened Chunks
  import opened Tables
  import opened HeaderCodec
  import opened Slots
  import opened Recovery
  import opened Container

  /** Every byte of `d` is that of `a` or that of `b`: what may be on the device when power is lost
      between the synchronisation that made `a` durable and the one that would have made `b` so. */
  ghost predicate Mix(a: seq<byte>, b: seq<byte>, d: seq<byte>) {
    |a| == |b| == |d| && forall p :: 0 <= p < |d| ==> d[p] == a[p] || d[p] == b[p]
  }

  lemma {:induction false} MixSlice(a: seq<byte>, b: seq<byte>, d: seq<byte>, lo: nat, hi: nat)
    requires Mix(a, b, d) && lo <= hi <= |d|
    ensures Mix(a[lo..hi], b[lo..hi], d[lo..hi])
    ensures a[lo..hi] == b[lo..hi] ==> d[lo..hi] == a[lo..hi]
  {
    forall p | 0 <= p < hi - lo
      ensures d[lo..hi][p] == a[lo..hi][p] || d[lo..hi][p] == b[lo..hi][p]
    {
      assert d[lo..hi][p] == d[lo + p] && a[lo..hi][p] == a[lo + p] && b[lo..hi][p] == b[lo + p];
    }
  }

  lemma {:induction false} MixLengths(a: seq<byte>, b: seq<byte>, d: seq<byte>)
    requires Mix(a, b, d)
    ensures |a| == |b| == |d|
  {
  }

  // ---- Headers of one container ----

  /** The headers of one container before and after an update. */
  predicate Siblings(f: Fields, f': Fields) {
    f' == f.(fileTableSize := f'.fileTableSize, fileCount := f'.fileCount, headerVersion := f'.headerVersion,
             hmac := f'.hmac)
  }

  lemma {:induction false} SamePart(f: Fields, f': Fields, i: nat)
    requires Siblings(f, f') && i < PARTS && i != 15 && i != 17 && i != 19 && i != 23
    ensures Part(f, i) == Part(f', i)
  {
    hide Le;
  }

  /** The positions of the four fields that an update changes. */
  predicate Changing(p: int) {
    0x80 <= p < 0x84 || 0x88 <= p < 0x8C || 0x90 <= p < 0x94 || 0xA0 <= p < 0xC0
  }

  /** Bytes that agree with the header `f` wherever no update of its container changes anything. Every
      header the program writes to a container is of this form, and so is every mixture of them. */
  ghost predicate Kin(f: Fields, buf: seq<byte>) {
    && |buf| == |Serialize(f)| == HEADER_SIZE
    && forall p :: 0 <= p < HEADER_SIZE && !Changing(p) ==> buf[p] == Serialize(f)[p]
  }

  lemma {:induction false} KinMix(f: Fields, a: seq<byte>, b: seq<byte>, d: seq<byte>)
    requires Kin(f, a) && Kin(f, b) && Mix(a, b, d)
    ensures Kin(f, d)
  {
    hide Serialize;
  }

  lemma {:induction false} FixedPart(i: nat, p: nat)
    requires i < PARTS && i != 15 && i != 17 && i != 19 && i != 23 && Position(i) <= p < Position(i + 1)
    ensures !Changing(p) && p < HEADER_SIZE
  {
  }

  lemma {:induction false} KinSlice(f: Fields, buf: seq<byte>, i: nat)
    requires f.WellFormed() && Kin(f, buf) && i < PARTS && i != 15 && i != 17 && i != 19 && i != 23
    ensures Slice(buf, i) == Slice(Serialize(f), i)
  {
    PositionsInside(i);
    PositionsInside(i + 1);
    PartWidth(f, i);
    hide Serialize, Part, Fields.WellFormed, Position, Changing;
    forall p: nat | Position(i) <= p < Position(i + 1) ensures buf[p] == Serialize(f)[p] { FixedPart(i, p); }
  }

  /** Its header is that of the container but for the four fields. */
  lemma {:induction false} KinHeader(f: Fields, buf: seq<byte>)
    requires f.WellFormed() && Kin(f, buf)
    ensures ValidMagic(buf) && Siblings(f, AllFields(buf)) && AllFields(buf).WellFormed()
  {
    ReadIsWellFormed(buf);
    NumbersBack(f);
    BytesBack(f);
    hide Serialize, Kin, Fields.WellFormed, FromLe;
    KinSlice(f, buf, 0);
    assert buf[..4] == Serialize(f)[..4];
    hide Slice, ValidMagic;
    forall i: nat | i < PARTS && i != 15 && i != 17 && i != 19 && i != 23
      ensures Slice(buf, i) == Slice(Serialize(f), i)
    {
      KinSlice(f, buf, i);
    }
  }

  lemma {:induction false} SameSlice(f: Fields, f': Fields, i: nat, p: nat)
    requires f.WellFormed() && f'.WellFormed() && Siblings(f, f') && i < PARTS && i != 15 && i != 17 && i != 19
    requires i != 23
    requires Position(i) <= p < Position(i + 1)
    ensures |Serialize(f)| == |Serialize(f')| == HEADER_SIZE && p < HEADER_SIZE && Serialize(f)[p] == Serialize(f')[p]
  {
    SliceOfSerialize(f, i);
    SliceOfSerialize(f', i);
    SamePart(f, f', i);
    PositionsInside(i + 1);
    hide Serialize, Part, Siblings, Fields.WellFormed, Position;
    assert Slice(Serialize(f), i)[p - Position(i)] == Serialize(f)[p];
    assert Slice(Serialize(f'), i)[p - Position(i)] == Serialize(f')[p];
  }

  lemma {:induction false} FixedPosition(p: nat) returns (i: nat)
    requires p < 0x400 && !Changing(p)
    ensures i < PARTS && i != 15 && i != 17 && i != 19 && i != 23 && Position(i) <= p < Position(i + 1)
  {
    i := 0;
    while Position(i + 1) <= p
      invariant i < PARTS && Position(i) <= p
      decreases PARTS - i
    {
      i := i + 1;
    }
  }

  /** The headers of two updates of one container are kin. */
  lemma {:induction false} SiblingsKin(f: Fields, f': Fields)
    requires f.WellFormed() && f'.WellFormed() && Siblings(f, f')
    ensures Kin(f, Serialize(f'))
  {
    ProtectedPart(f);
    ProtectedPart(f');
    PaddingZero(f);
    PaddingZero(f');
    hide Serialize, HeaderCodec.Prefix, Fields.WellFormed, Siblings, Position;
    forall p: nat | p < HEADER_SIZE && !Changing(p) ensures Serialize(f')[p] == Serialize(f)[p] {
      if p < 0x400 {
        var i := FixedPosition(p);
        SameSlice(f, f', i, p);
      } else {
        assert Serialize(f)[p] == Serialize(f)[0x400..][p - 0x400];
        assert Serialize(f')[p] == Serialize(f')[0x400..][p - 0x400];
      }
    }
  }

  lemma {:induction false} PaddingZero(f: Fields)
    requires f.WellFormed()
    ensures |Serialize(f)| == HEADER_SIZE && Serialize(f)[0x400..] == Zeros(HEADER_SIZE - 0x0400)
  {
    PrefixLength(f, PARTS);
    FirstPosition();
    hide HeaderCodec.Prefix, Position;
  }

  // ---- What a slot yields ----

  /** A header and table as one update writes them to every slot. */
  datatype Version = Version(header: Fields, table: Table, enc: seq<byte>) {
    function Area(): seq<byte> { enc + Padding(enc, header.maxTableSize) }

    function Image(): seq<byte> { SlotBytes(Serialize(header), enc, header.maxTableSize) }
  }

  ghost predicate Proper(x: Context, a: Version) {
    Keyed(x, a.header) && Saved(x, a.header, a.table, a.enc) && a.table.next > 0
  }

  predicate Verifies(x: Context, f: Fields, buf: seq<byte>) {
    && |buf| == HEADER_SIZE
    && x.s.mac(f.hashAlgo, x.s.kdf(ParamsOf(f)), buf[..HMAC_PROTECTED_SIZE]) == buf[HMAC_PROTECTED_SIZE..0xC0]
  }

  lemma {:induction false} ImageParts(a: Version)
    requires a.header.WellFormed() && |a.enc| <= a.header.maxTableSize
    ensures |Serialize(a.header)| == HEADER_SIZE && |a.Area()| == a.header.maxTableSize
    ensures |a.Image()| == HEADER_SIZE + |a.Area()|
    ensures a.Image()[0..HEADER_SIZE] == Serialize(a.header) && a.Image()[HEADER_SIZE..|a.Image()|] == a.Area()
  {
    SerializedLength(a.header);
    hide Serialize;
  }

  lemma {:induction false} ProperFacts(x: Context, a: Version)
    requires Proper(x, a)
    ensures a.header.WellFormed() && |a.enc| <= a.header.maxTableSize && SupportedHash(a.header.hashAlgo)
    ensures a.header.versionMajor == VERSION_MAJOR && a.header.versionMinor == VERSION_MINOR
    ensures var f := a.header;
      x.s.unseal(f.cipher, x.s.kdf(ParamsOf(f)), f.dekNonce + f.encryptedDek + f.dekAuthTag) == Some(x.dek)
  {
    hide Fields.WellFormed, InRange;
  }

  lemma {:induction false} SiblingsFacts(f: Fields, f': Fields)
    requires Siblings(f, f')
    ensures f'.maxTableSize == f.maxTableSize && f'.cipher == f.cipher && f'.hashAlgo == f.hashAlgo
    ensures ParamsOf(f') == ParamsOf(f)
    ensures f'.containerSize == f.containerSize && f'.headerSize == f.headerSize
    ensures f'.dekNonce == f.dekNonce && f'.encryptedDek == f.encryptedDek && f'.dekAuthTag == f.dekAuthTag
  {
  }

  /** What slot `off` yields under the key of its own parameters. */
  function Yield(x: Context, d: seq<byte>, off: nat, prior: Table): Option<Meta> {
    match SlotHeader(d, off)
    case None => None
    case Some(h) => Authenticate(x.s, d, off, h, x.s.kdf(ParamsOf(h)), prior)
  }

  /** The first of the slots from `i` on that yields something. */
  function FirstYield(x: Context, d: seq<byte>, slots: seq<nat>, i: nat, prior: Table): Option<Meta>
    requires i <= |slots|
    decreases |slots| - i
  {
    if i == |slots| then None
    else if Yield(x, d, slots[i], prior).Some? then Yield(x, d, slots[i], prior)
    else FirstYield(x, d, slots, i + 1, prior)
  }

  /** A slot of the container of `f`: its header is kin, and one that verifies announces a table that
      fits into the slot. The rest of the slot is arbitrary. */
  ghost predicate KinAt(x: Context, f: Fields, d: seq<byte>, off: nat) {
    && off + HEADER_SIZE + f.maxTableSize <= |d| && Kin(f, d[off..off + HEADER_SIZE])
    && (Verifies(x, f, d[off..off + HEADER_SIZE]) ==>
          AllFields(d[off..off + HEADER_SIZE]).fileTableSize <= f.maxTableSize)
  }

  lemma {:induction false} KinSlotHeader(x: Context, f: Fields, d: seq<byte>, off: nat)
    requires Keyed(x, f) && KinAt(x, f, d, off)
    ensures var h := AllFields(d[off..off + HEADER_SIZE]);
      && SlotHeader(d, off) == Some(h) && Siblings(f, h) && h.WellFormed()
      && ParamsOf(h) == ParamsOf(f) && h.cipher == f.cipher && h.hashAlgo == f.hashAlgo
      && h.hmac == d[off..off + HEADER_SIZE][HMAC_PROTECTED_SIZE..0xC0]
      && d[off..off + HMAC_PROTECTED_SIZE] == d[off..off + HEADER_SIZE][..HMAC_PROTECTED_SIZE]
  {
    var buf := d[off..off + HEADER_SIZE];
    KeyedFormat(x, f);
    KinHeader(f, buf);
    hide Serialize, Kin, Verifies, Keyed;
    assert AllFields(buf).hmac == buf[HMAC_PROTECTED_SIZE..0xC0];
    hide AllFields, ValidMagic, Fields.WellFormed;
  }

  lemma {:induction false} KeyedFormat(x: Context, f: Fields)
    requires Keyed(x, f)
    ensures f.WellFormed() && f.versionMajor == VERSION_MAJOR && f.versionMinor == VERSION_MINOR
    ensures f.headerSize == HEADER_SIZE
    ensures SupportedCipher(f.cipher) && SupportedHash(f.hashAlgo) && InRange(ParamsOf(f))
  {
    hide Fields.WellFormed, InRange;
  }

  function KeyOf(x: Context, f: Fields): KeyState { KeyState(true, 1, ParamsOf(f), x.s.kdf(ParamsOf(f))) }

  /** In a container whose slots are kin one key serves all of them, so the scan accepts the first slot
      that yields anything, if that key can still be had. */
  lemma {:induction false} KinScan(x: Context, f: Fields, d: seq<byte>, slots: seq<nat>, i: nat, ks: KeyState,
          prior: Table)
    requires Keyed(x, f) && i <= |slots| && GoodKeys(x.s, ks)
    requires ks.count < MAX_KEK_DERIVATIONS || ks.params == ParamsOf(f)
    requires forall j :: i <= j < |slots| ==> KinAt(x, f, d, slots[j])
    ensures MetaOf(Scan(x.s, d, slots, i, ks, prior)) == FirstYield(x, d, slots, i, prior)
    decreases |slots| - i
  {
    hide Keyed, KinAt, SlotHeader, Authenticate;
    if i < |slots| {
      KinSlotHeader(x, f, d, slots[i]);
      KeyedFormat(x, f);
      hide InRange, AllFields, Siblings, Fields.WellFormed;
      OwnKeyIff(x.s, ks, SlotHeader(d, slots[i]).value);
      KinScan(x, f, d, slots, i + 1, Prepared(x.s, ks, SlotHeader(d, slots[i]).value).0, prior);
    }
  }

  function MetaOf(r: Scanned): Option<Meta> { match r.found case None => None case Some((_, m)) => Some(m) }

  // ---- A slot's yield depends on its bytes only ----

  /** What the first `k` bytes of a table area open to. */
  function OpenedTable(x: Context, ct: seq<byte>): Option<Table> {
    match x.c.unseal(ct)
    case None => None
    case Some(plain) =>
      match x.s.parse(plain)
      case None => None
      case Some(t) => Some(Table(t.entries, LoadedOffset(t.next, t.entries)))
  }

  /** A kin slot yields something exactly if its header verifies and its table opens. */
  lemma {:induction false} KinYield(x: Context, f: Fields, d: seq<byte>, off: nat, prior: Table)
    requires Keyed(x, f) && KinAt(x, f, d, off)
    ensures var buf := d[off..off + HEADER_SIZE]; var h := AllFields(buf); var n := h.fileTableSize;
      Yield(x, d, off, prior) ==
        if !Verifies(x, f, buf) then None
        else if n == 0 then Some(Meta(h, x.dek, prior))
        else if n <= OVERHEAD then None
        else match OpenedTable(x, d[off + HEADER_SIZE..off + HEADER_SIZE + n])
          case None => None
          case Some(t) => Some(Meta(h, x.dek, t))
  {
    KinSlotHeader(x, f, d, off);
    KeyedFormat(x, f);
    SiblingKeys(x, f, AllFields(d[off..off + HEADER_SIZE]));
    hide AllFields, Fields.WellFormed, Siblings, InRange, Kin, SlotHeader, Keyed;
  }

  lemma {:induction false} SiblingKeys(x: Context, f: Fields, h: Fields)
    requires Keyed(x, f) && Siblings(f, h)
    ensures x.s.unseal(h.cipher, x.s.kdf(ParamsOf(h)), h.dekNonce + h.encryptedDek + h.dekAuthTag) == Some(x.dek)
    ensures |x.dek| == DEK_SIZE && h.headerSize == HEADER_SIZE
    ensures forall y :: x.s.unseal(h.cipher, x.dek, y) == x.c.unseal(y)
  {
    hide Fields.WellFormed, InRange;
  }

  /** The yield of a kin slot as a function of its header bytes and its table area. */
  function SlotYield(x: Context, f: Fields, buf: seq<byte>, area: seq<byte>, prior: Table): Option<Meta> {
    if !Verifies(x, f, buf) then None else
      var h := AllFields(buf);
      if h.fileTableSize == 0 then Some(Meta(h, x.dek, prior))
      else if h.fileTableSize <= OVERHEAD || h.fileTableSize > |area| then None
      else match OpenedTable(x, area[..h.fileTableSize]) case None => None case Some(t) => Some(Meta(h, x.dek, t))
  }

  lemma {:induction false} YieldIsSlotYield(x: Context, f: Fields, d: seq<byte>, off: nat, prior: Table)
    requires Keyed(x, f) && KinAt(x, f, d, off)
    ensures Yield(x, d, off, prior)
      == SlotYield(x, f, d[off..off + HEADER_SIZE], d[off + HEADER_SIZE..off + HEADER_SIZE + f.maxTableSize], prior)
  {
    hide Yield, OpenedTable, Serialize, Kin, Keyed, AllFields, Verifies;
    KinYield(x, f, d, off, prior);
    var buf := d[off..off + HEADER_SIZE];
    var k := AllFields(buf).fileTableSize;
    if Verifies(x, f, buf) {
      var at := off + HEADER_SIZE;
      assert d[at..at + f.maxTableSize][..k] == d[at..at + k];
    }
  }

  // ---- Tearing ----

  ghost predicate SameFront(buf: seq<byte>, other: seq<byte>) {
    |buf| == |other| == HEADER_SIZE && buf[..0xC0] == other[..0xC0]
  }

  /** Ideal authentication under tearing, for a slot that held `s` while `n` is being written over it: of
      all byte-wise mixtures of the two headers only the whole ones verify, and what opens at the start
      of a mixture of the two table areas is the new table or stood there before. */
  ghost predicate TornRejected(x: Context, s: seq<byte>, n: Version)
    requires |s| >= HEADER_SIZE
  {
    && (forall buf :: Mix(s[..HEADER_SIZE], Serialize(n.header), buf) && Verifies(x, n.header, buf) ==>
          SameFront(buf, s[..HEADER_SIZE]) || SameFront(buf, Serialize(n.header)))
    && (forall area, k: nat ::
          Mix(s[HEADER_SIZE..], n.Area(), area) && k <= |area| && x.c.unseal(area[..k]).Some? ==>
            area[..k] == s[HEADER_SIZE..][..k] || area[..k] == n.enc)
  }

  /** Of kin headers the first 192 bytes decide. */
  lemma {:induction false} KinFront(f: Fields, buf: seq<byte>, other: seq<byte>)
    requires Kin(f, buf) && Kin(f, other) && SameFront(buf, other)
    ensures buf == other
  {
    hide Serialize;
    forall p | 0 <= p < HEADER_SIZE ensures buf[p] == other[p] {
      if p < 0xC0 { assert buf[..0xC0][p] == other[..0xC0][p]; }
    }
  }

  lemma {:induction false} SiblingVerifies(x: Context, f: Fields, f': Fields, buf: seq<byte>)
    requires Siblings(f, f')
    ensures Verifies(x, f, buf) <==> Verifies(x, f', buf)
  {
    SiblingsFacts(f, f');
    hide Siblings;
  }

  /** The slot at `off` of `d`, in the middle of being overwritten by `n`; `d0` is the file before. */
  ghost predicate Tearing(x: Context, f: Fields, d0: seq<byte>, d: seq<byte>, off: nat, n: Version) {
    && Keyed(x, f) && KinAt(x, f, d0, off) && Proper(x, n) && Siblings(f, n.header) && |d| == |d0|
    && off + |n.Image()| <= |d| && |n.Image()| == HEADER_SIZE + f.maxTableSize
    && TornRejected(x, d0[off..off + |n.Image()|], n)
    && Mix(d0[off..off + |n.Image()|], n.Image(), d[off..off + |n.Image()|])
  }

  lemma {:induction false} TearingParts(x: Context, f: Fields, d0: seq<byte>, d: seq<byte>, off: nat, n: Version)
    requires Tearing(x, f, d0, d, off, n)
    ensures Mix(d0[off..off + HEADER_SIZE], Serialize(n.header), d[off..off + HEADER_SIZE])
    ensures var l := HEADER_SIZE + f.maxTableSize;
      && off + l <= |d0| == |d| && Mix(d0[off + HEADER_SIZE..off + l], n.Area(), d[off + HEADER_SIZE..off + l])
    ensures var s := d0[off..off + |n.Image()|];
      s[..HEADER_SIZE] == d0[off..off + HEADER_SIZE] && s[HEADER_SIZE..] == d0[off + HEADER_SIZE..off + |n.Image()|]
  {
    hide TornRejected, Keyed, KinAt, Siblings;
    ProperFacts(x, n);
    ImageParts(n);
    hide Proper, Serialize, Version.Image, Version.Area, Mix;
    var l := |n.Image()|;
    var s, t := d0[off..off + l], d[off..off + l];
    MixSlice(s, n.Image(), t, 0, HEADER_SIZE);
    MixSlice(s, n.Image(), t, HEADER_SIZE, l);
    SubSlice(d0, off, l, 0, HEADER_SIZE);
    SubSlice(d, off, l, 0, HEADER_SIZE);
    SubSlice(d0, off, l, HEADER_SIZE, l);
    SubSlice(d, off, l, HEADER_SIZE, l);
    assert s[..HEADER_SIZE] == s[0..HEADER_SIZE] && s[HEADER_SIZE..] == s[HEADER_SIZE..l];
  }

  /** A torn header that verifies is the old one or the new one. */
  lemma {:induction false} TornHeader(x: Context, f: Fields, d0: seq<byte>, d: seq<byte>, off: nat, n: Version)
    requires Tearing(x, f, d0, d, off, n)
    ensures var buf := d[off..off + HEADER_SIZE];
      && off + HEADER_SIZE <= |d0| == |d| && Kin(f, buf)
      && (Verifies(x, f, buf) ==> buf == d0[off..off + HEADER_SIZE] || buf == Serialize(n.header))
  {
    TearingParts(x, f, d0, d, off, n);
    TearingFacts(x, f, d0, d, off, n);
    hide Tearing;
    ProperFacts(x, n);
    KeyedFormat(x, f);
    hide Proper, Keyed, Fields.WellFormed, Serialize;
    var buf, was := d[off..off + HEADER_SIZE], d0[off..off + HEADER_SIZE];
    assert Kin(f, was);
    hide KinAt, Version.Image, Version.Area;
    SiblingsKin(f, n.header);
    SiblingVerifies(x, f, n.header, buf);
    hide Siblings, Verifies, Mix, Kin;
    KinMix(f, was, Serialize(n.header), buf);
    if Verifies(x, f, buf) {
      if SameFront(buf, was) { KinFront(f, buf, was); } else { KinFront(f, buf, Serialize(n.header)); }
    }
  }

  lemma {:induction false} TornKinAt(x: Context, f: Fields, d0: seq<byte>, d: seq<byte>, off: nat, n: Version)
    requires Tearing(x, f, d0, d, off, n)
    ensures KinAt(x, f, d, off)
  {
    TornHeader(x, f, d0, d, off, n);
    ProperFields(x, n);
    hide Serialize, Kin, Mix, Proper, Verifies, Keyed, TornRejected, Version.Image, AllFields;
  }

  lemma {:induction false} ProperFields(x: Context, n: Version)
    requires Proper(x, n)
    ensures |Serialize(n.header)| == HEADER_SIZE && AllFields(Serialize(n.header)) == n.header
    ensures OVERHEAD < n.header.fileTableSize == |n.enc| <= n.header.maxTableSize
  {
    ProperFacts(x, n);
    RoundTrip(n.header);
    hide Serialize, AllFields, Coded, Keyed;
  }

  lemma {:induction false} ProperOpens(x: Context, n: Version)
    requires x.Ideal() && Proper(x, n)
    ensures OpenedTable(x, n.enc) == Some(n.table)
  {
    hide Keyed, Coded;
    assert x.Readable(n.table);
  }

  /** What opens at the start of a torn table area. */
  lemma {:induction false} TornArea(x: Context, n: Version, s: seq<byte>, area: seq<byte>, k: nat)
    requires x.Ideal() && Proper(x, n) && |s| >= HEADER_SIZE && TornRejected(x, s, n)
    requires Mix(s[HEADER_SIZE..], n.Area(), area) && k <= |area|
    ensures var r := OpenedTable(x, area[..k]);
      r.Some? ==> (r == Some(n.table) && k == |n.enc|) || r == OpenedTable(x, s[HEADER_SIZE..][..k])
  {
    ProperOpens(x, n);
    Unseals(x, area[..k]);
    hide Mix, Proper, Serialize, Version.Area, Context.Ideal, OpenedTable;
  }

  lemma {:induction false} Unseals(x: Context, ct: seq<byte>)
    ensures OpenedTable(x, ct).Some? ==> x.c.unseal(ct).Some?
  {
  }

  /** A torn slot yields nothing, what it yielded before, the new table, or (through the new header) what
      stood at the start of its table area before. */
  lemma {:induction false} TornYield(x: Context, f: Fields, d0: seq<byte>, d: seq<byte>, off: nat, n: Version,
          prior: Table)
    requires x.Ideal() && Tearing(x, f, d0, d, off, n)
    ensures off + HEADER_SIZE + |n.enc| <= |d0|
    ensures var r, was := Yield(x, d, off, prior), Yield(x, d0, off, prior);
      r.Some? ==>
        || r.value.table == n.table || (was.Some? && r.value.table == was.value.table)
        || OpenedTable(x, d0[off + HEADER_SIZE..off + HEADER_SIZE + |n.enc|]) == Some(r.value.table)
  {
    hide Tearing, Yield, OpenedTable, Serialize, Kin, Mix, Proper, Keyed, TornRejected, Version.Image, Version.Area;
    hide AllFields, Siblings, Context.Ideal, Verifies, SlotYield, KinAt;
    TornHeader(x, f, d0, d, off, n);
    TornKinAt(x, f, d0, d, off, n);
    TearingParts(x, f, d0, d, off, n);
    TearingFacts(x, f, d0, d, off, n);
    ProperFields(x, n);
    SiblingsFacts(f, n.header);
    YieldIsSlotYield(x, f, d, off, prior);
    YieldIsSlotYield(x, f, d0, off, prior);
    var l := |n.Image()|;
    var s, buf := d0[off..off + l], d[off..off + HEADER_SIZE];
    var area, area0 := d[off + HEADER_SIZE..off + l], d0[off + HEADER_SIZE..off + l];
    assert area0[..|n.enc|] == d0[off + HEADER_SIZE..off + HEADER_SIZE + |n.enc|];
    TornSlotYield(x, f, n, s, d0[off..off + HEADER_SIZE], area0, buf, area, prior);
  }

  lemma {:induction false} TearingFacts(x: Context, f: Fields, d0: seq<byte>, d: seq<byte>, off: nat, n: Version)
    requires Tearing(x, f, d0, d, off, n)
    ensures Keyed(x, f) && KinAt(x, f, d0, off) && Proper(x, n) && Siblings(f, n.header) && |d| == |d0|
    ensures |n.Image()| == HEADER_SIZE + f.maxTableSize && off + |n.Image()| <= |d|
    ensures TornRejected(x, d0[off..off + |n.Image()|], n)
  {
  }

  lemma {:induction false} TornSlotYield(x: Context, f: Fields, n: Version, s: seq<byte>, buf0: seq<byte>,
          area0: seq<byte>, buf: seq<byte>, area: seq<byte>, prior: Table)
    requires x.Ideal() && Proper(x, n) && |s| >= HEADER_SIZE && TornRejected(x, s, n)
    requires s[..HEADER_SIZE] == buf0 && s[HEADER_SIZE..] == area0
    requires Mix(area0, n.Area(), area) && |n.enc| <= |area|
    requires Verifies(x, f, buf) ==> buf == buf0 || buf == Serialize(n.header)
    ensures |n.enc| <= |area0|
    ensures var r, was := SlotYield(x, f, buf, area, prior), SlotYield(x, f, buf0, area0, prior);
      r.Some? ==>
        || r.value.table == n.table || (was.Some? && r.value.table == was.value.table)
        || OpenedTable(x, area0[..|n.enc|]) == Some(r.value.table)
  {
    hide OpenedTable, Serialize, Proper, TornRejected, Version.Area, AllFields, Context.Ideal, Verifies, Mix;
    ProperFields(x, n);
    MixLengths(area0, n.Area(), area);
    if Verifies(x, f, buf) && AllFields(buf).fileTableSize <= |area| {
      TornArea(x, n, s, area, AllFields(buf).fileTableSize);
    }
  }

  // ---- Slots that are left alone ----

  lemma {:induction false} SameSlot(x: Context, f: Fields, d: seq<byte>, d': seq<byte>, off: nat, prior: Table)
    requires Keyed(x, f) && KinAt(x, f, d, off) && off + HEADER_SIZE + f.maxTableSize <= |d'|
    requires d'[off..off + HEADER_SIZE + f.maxTableSize] == d[off..off + HEADER_SIZE + f.maxTableSize]
    ensures KinAt(x, f, d', off) && Yield(x, d', off, prior) == Yield(x, d, off, prior)
  {
    var l := HEADER_SIZE + f.maxTableSize;
    SubSlice(d, off, l, 0, HEADER_SIZE);
    SubSlice(d', off, l, 0, HEADER_SIZE);
    SubSlice(d, off, l, HEADER_SIZE, l);
    SubSlice(d', off, l, HEADER_SIZE, l);
    assert d'[off..off + HEADER_SIZE] == d[off..off + HEADER_SIZE];
    hide Yield, SlotYield, Kin, Keyed, AllFields, Verifies;
    assert KinAt(x, f, d', off);
    hide KinAt;
    YieldIsSlotYield(x, f, d, off, prior);
    YieldIsSlotYield(x, f, d', off, prior);
  }

  /** The header a kin slot yields belongs to the container. */
  lemma {:induction false} YieldKeyed(x: Context, f: Fields, d: seq<byte>, off: nat, prior: Table)
    requires Keyed(x, f) && KinAt(x, f, d, off) && Yield(x, d, off, prior).Some?
    ensures var m := Yield(x, d, off, prior).value; m.dek == x.dek && Siblings(f, m.header) && Keyed(x, m.header)
  {
    KinYield(x, f, d, off, prior);
    KinSlotHeader(x, f, d, off);
    hide Yield, OpenedTable, KinAt, AllFields, Verifies, SlotHeader;
    SiblingKeyed(x, f, Yield(x, d, off, prior).value.header);
  }

  lemma {:induction false} SiblingKeyed(x: Context, f: Fields, f': Fields)
    requires Keyed(x, f) && Siblings(f, f') && f'.WellFormed()
    ensures Keyed(x, f')
  {
    hide Fields.WellFormed, InRange;
  }

  lemma {:induction false} FirstYieldKeyed(x: Context, f: Fields, d: seq<byte>, slots: seq<nat>, i: nat, prior: Table)
    requires Keyed(x, f) && i <= |slots| && forall j :: i <= j < |slots| ==> KinAt(x, f, d, slots[j])
    requires FirstYield(x, d, slots, i, prior).Some?
    ensures var m := FirstYield(x, d, slots, i, prior).value;
      m.dek == x.dek && Siblings(f, m.header) && Keyed(x, m.header)
    decreases |slots| - i
  {
    hide Keyed, KinAt, Yield, Siblings;
    if Yield(x, d, slots[i], prior).Some? {
      YieldKeyed(x, f, d, slots[i], prior);
    } else {
      FirstYieldKeyed(x, f, d, slots, i + 1, prior);
    }
  }

  lemma {:induction false} KinAtSibling(x: Context, f: Fields, f': Fields, d: seq<byte>, off: nat)
    requires f.WellFormed() && f'.WellFormed() && Siblings(f, f') && KinAt(x, f, d, off)
    ensures KinAt(x, f', d, off)
  {
    SiblingsKin(f, f');
    SiblingsFacts(f, f');
    SerializedLength(f');
    SiblingVerifies(x, f, f', d[off..off + HEADER_SIZE]);
    hide Serialize, Verifies, AllFields, Siblings, Fields.WellFormed;
  }

  /** A complete image. */
  lemma {:induction false} ImageKinAt(x: Context, f: Fields, d: seq<byte>, off: nat, n: Version)
    requires f.WellFormed() && Proper(x, n) && Siblings(f, n.header) && Holds(d, off, n.Image())
    ensures KinAt(x, f, d, off)
  {
    hide Proper, Serialize, Version.Image, AllFields, Siblings, Fields.WellFormed, Kin, Verifies;
    ProperFacts(x, n);
    ProperFields(x, n);
    SiblingsKin(f, n.header);
    SiblingsFacts(f, n.header);
    ImageParts(n);
    SubSlice(d, off, |n.Image()|, 0, HEADER_SIZE);
  }
}
