/** Damage to one slot of a container that is not in use (readMeta in src/FileManager.cpp). */
module Damage {
  import opened Bytes
  import opened Layout
  import opened Fragments
  import opened Chunks
  import opened Sealing
  import opened Tables
  import opened Storing
  import opened HeaderCodec
  import opened Slots
  import opened Recovery
  import opened Container
  import opened Torn
  import opened Adding
  import opened Crash
  import opened Reopening

  /** The file differs from a healthy one inside slot `j` only. */
  ghost predicate SlotDamaged(v: Volume, j: nat, d: seq<byte>) {
    j < 4 && |d| == |v.disk| && |v.G().slots| == 4
    && forall p :: 0 <= p < |d| && !(v.G().slots[j] <= p < v.G().slots[j] + v.G().reserved) ==> d[p] == v.disk[p]
  }

  /** The header verifies under the key of the parameters it states itself. */
  predicate SelfVerifies(x: Context, buf: seq<byte>) {
    |buf| == HEADER_SIZE && (
      var h := AllFields(buf);
      x.s.mac(h.hashAlgo, x.s.kdf(ParamsOf(h)), buf[..HMAC_PROTECTED_SIZE]) == h.hmac)
  }

  /** Ideal authentication of damaged bytes where `a` was written: a header that verifies starts with the
      192 bytes that were written, and a string in the place of the table that opens is the one that was
      written. */
  ghost predicate NotForged(x: Context, a: Version, d: seq<byte>, off: nat) {
    && off + HEADER_SIZE + |a.enc| <= |d|
    && (SelfVerifies(x, d[off..off + HEADER_SIZE]) ==> SameFront(d[off..off + HEADER_SIZE], Serialize(a.header)))
    && var table := d[off + HEADER_SIZE..off + HEADER_SIZE + |a.enc|]; x.c.unseal(table).Some? ==> table == a.enc
  }

  /** Beyond the first 192 bytes there is nothing but two fields that no operation uses. */
  predicate SameButUnused(f: Fields, h: Fields) { h == f.(reserved := h.reserved, jsonMetadata := h.jsonMetadata) }

  lemma {:induction false} SameFrontSlice(buf: seq<byte>, other: seq<byte>, i: nat)
    requires SameFront(buf, other) && i < 24
    ensures Slice(buf, i) == Slice(other, i)
  {
    PositionsInFront(i);
    hide Position;
    assert buf[..0xC0][Position(i)..Position(i + 1)] == buf[Position(i)..Position(i + 1)];
    assert other[..0xC0][Position(i)..Position(i + 1)] == other[Position(i)..Position(i + 1)];
  }

  lemma {:induction false} PositionsInFront(i: nat)
    requires i < 24
    ensures Position(i) <= Position(i + 1) <= 0xC0
  {
  }

  lemma {:induction false} SameFrontFields(f: Fields, buf: seq<byte>)
    requires f.WellFormed() && SameFront(buf, Serialize(f))
    ensures ValidMagic(buf) && SameButUnused(f, AllFields(buf))
  {
    hide Serialize, Slice, Fields.WellFormed, FromLe, SameFront;
    NumbersBack(f);
    BytesBack(f);
    SameFrontLengths(buf, Serialize(f));
    forall i: nat | i < 24 ensures Slice(buf, i) == Slice(Serialize(f), i) { SameFrontSlice(buf, Serialize(f), i); }
  }

  lemma {:induction false} SameFrontLengths(buf: seq<byte>, other: seq<byte>)
    requires SameFront(buf, other)
    ensures |buf| == |other| == HEADER_SIZE && buf[..4] == other[..4]
  {
    assert buf[..0xC0][..4] == buf[..4] && other[..0xC0][..4] == other[..4];
  }

  /** Whatever the damage, the slot is rejected or yields the table that was written. */
  lemma {:induction false} DamagedYield(x: Context, a: Version, d: seq<byte>, off: nat, prior: Table)
    requires x.Ideal() && Proper(x, a) && NotForged(x, a, d, off)
    ensures var r := Yield(x, d, off, prior);
      r.Some? ==> r.value.dek == x.dek && r.value.table == a.table && SameButUnused(a.header, r.value.header)
    ensures Yield(x, d, off, prior).Some? ==> SupportedCipher(a.header.cipher) && InRange(ParamsOf(a.header))
  {
    var buf := d[off..off + HEADER_SIZE];
    KeyedFormat(x, a.header);
    hide Serialize, AllFields, Fields.WellFormed, Keyed, InRange, Context.Ideal;
    if Yield(x, d, off, prior).Some? {
      YieldVerifies(x, d, off, prior);
      assert SameFront(buf, Serialize(a.header));
      SameFrontFields(a.header, buf);
      DamagedTable(x, a, d, off, AllFields(buf), prior);
    }
  }

  lemma {:induction false} YieldVerifies(x: Context, d: seq<byte>, off: nat, prior: Table)
    requires Yield(x, d, off, prior).Some?
    ensures off + HEADER_SIZE <= |d| && SelfVerifies(x, d[off..off + HEADER_SIZE])
    ensures SlotHeader(d, off) == Some(AllFields(d[off..off + HEADER_SIZE]))
  {
    hide AllFields;
    assert d[off..off + HEADER_SIZE][..HMAC_PROTECTED_SIZE] == d[off..off + HMAC_PROTECTED_SIZE];
  }

  lemma {:induction false} DamagedTable(x: Context, a: Version, d: seq<byte>, off: nat, h: Fields, prior: Table)
    requires x.Ideal() && Proper(x, a) && NotForged(x, a, d, off) && SameButUnused(a.header, h)
    requires SlotHeader(d, off) == Some(h) && Yield(x, d, off, prior).Some?
    ensures Yield(x, d, off, prior) == Some(Meta(h, x.dek, a.table))
  {
    hide Serialize, AllFields, Fields.WellFormed, SlotHeader, Keyed, Coded, Context.Ideal, SelfVerifies, SameFront;
    hide SlotTable, Saved;
    ProperFields(x, a);
    SiblingKeys(x, a.header, a.header);
    NotForgedTable(x, a, d, off, h, prior);
  }

  lemma {:induction false} NotForgedTable(x: Context, a: Version, d: seq<byte>, off: nat, h: Fields, prior: Table)
    requires x.Ideal() && Proper(x, a) && NotForged(x, a, d, off) && SameButUnused(a.header, h)
    ensures SlotTable(x.s, d, off, h, x.dek, prior).Some? ==> SlotTable(x.s, d, off, h, x.dek, prior) == Some(a.table)
  {
    hide Serialize, AllFields, Fields.WellFormed, Proper, Context.Ideal, SelfVerifies, SameFront;
    ProperOpens(x, a);
    ProperFields(x, a);
    SiblingKeys(x, a.header, a.header) by { KeyedOf(x, a); OwnSibling(a.header); }
  }

  lemma {:induction false} KeyedOf(x: Context, a: Version)
    requires Proper(x, a)
    ensures Keyed(x, a.header)
  {
    hide Keyed;
  }

  lemma {:induction false} UndamagedHolds(v: Volume, j: nat, i: nat, d: seq<byte>, bytes: seq<byte>)
    requires SlotDamaged(v, j, d) && i < 4 && i != j && v.G().Disjoint()
    requires |bytes| == v.G().reserved && Holds(v.disk, v.G().slots[i], bytes)
    ensures Holds(d, v.G().slots[i], bytes)
  {
    hide ContainerGeometry;
    var g := v.G();
    assert forall p :: g.slots[i] <= p < g.slots[i] + g.reserved ==> d[p] == v.disk[p];
    assert d[g.slots[i]..g.slots[i] + |bytes|] == v.disk[g.slots[i]..g.slots[i] + |bytes|];
  }

  lemma {:induction false} DamagedData(v: Volume, j: nat, d: seq<byte>)
    requires SlotDamaged(v, j, d)
    ensures |d| == |v.disk| && j < 4 && forall p :: 0 <= p < |d| && !v.G().InSlot(p) ==> d[p] == v.disk[p]
  {
    hide ContainerGeometry;
  }

  /** The key state after slot 0, if that was not accepted. */
  function AfterFirst(s: Suite, d: seq<byte>, off: nat): KeyState {
    match SlotHeader(d, off) case None => NO_KEY case Some(h) => Prepared(s, NO_KEY, h).0
  }

  /** Whether slot 0 is accepted is decided under its own key. */
  lemma {:induction false} FirstSlot(x: Context, d: seq<byte>, slots: seq<nat>, prior: Table)
    requires |slots| == 4
    ensures var r, ks := Yield(x, d, slots[0], prior), AfterFirst(x.s, d, slots[0]);
      && (r.Some? && SupportedCipher(r.value.header.cipher) && InRange(ParamsOf(r.value.header)) ==>
            Scan(x.s, d, slots, 0, NO_KEY, prior).found == Some((0, r.value)))
      && (r.None? ==> Scan(x.s, d, slots, 0, NO_KEY, prior) == Scan(x.s, d, slots, 1, ks, prior))
      && GoodKeys(x.s, ks) && ks.count < MAX_KEK_DERIVATIONS
  {
    hide SlotHeader, InRange;
    YieldHeader(x, d, slots[0], prior);
    hide Authenticate;
  }

  lemma {:induction false} YieldHeader(x: Context, d: seq<byte>, off: nat, prior: Table)
    ensures var r := Yield(x, d, off, prior); r.Some? ==> SlotHeader(d, off) == Some(r.value.header)
  {
    hide SlotHeader, SlotTable;
  }

  lemma {:induction false} OpensPastDamage(x: Context, a: Version, d: seq<byte>, prior: Table)
    requires x.Ideal() && Proper(x, a) && d != [] && a.header.containerSize >= MINIMAL_CONTAINER_SIZE
    requires NotForged(x, a, d, SlotOffsets(|d|)[0]) && Holds(d, SlotOffsets(|d|)[1], a.Image())
    ensures var r := Opening(x.s, d, prior);
      r.Some? && r.value.dek == x.dek && r.value.table == a.table && SameButUnused(a.header, r.value.header)
  {
    var slots := SlotOffsets(|d|);
    var m := Meta(a.header, x.dek, a.table);
    SlotGenuine(x, a.header, a.table, a.enc, d, slots[1], prior);
    hide Proper, NotForged, Holds, SlotOffset, Yield, Scan, AfterFirst, Genuine, Context.Ideal, InRange, Version.Image;
    DamagedYield(x, a, d, slots[0], prior);
    FirstSlot(x, d, slots, prior);
    if Yield(x, d, slots[0], prior).None? {
      GenuineAccepted(x.s, d, slots, 1, AfterFirst(x.s, d, slots[0]), prior, m);
    }
  }

  /** Arbitrary damage to any one slot of a healthy container: it reopens with the same data key and the
      same table, every file is intact, and the header is the same but for two fields that no operation uses.
      Nothing is assumed about whether a damaged slot is accepted; for slot 0 only that nobody has forged
      a code or a sealed table. */
  lemma {:induction false} SlotDamageSurvived(x: Context, v: Volume, enc: seq<byte>, contents: seq<seq<byte>>, j: nat,
          d: seq<byte>, prior: Table)
    requires x.Ideal() && Healthy(x, v, enc, contents) && v.header.containerSize >= MINIMAL_CONTAINER_SIZE
    requires SlotDamaged(v, j, d)
    requires j == 0 ==> NotForged(x, Version(v.header, v.Tab(), enc), d, v.G().slots[0])
    ensures var r := Opening(x.s, d, prior);
      && r.Some? && r.value.dek == x.dek && r.value.table == v.Tab() && SameButUnused(v.header, r.value.header)
      && (j > 0 ==> r.value.header == v.header)
    ensures AllIntact(x.c, v.G(), d, v.entries, contents)
  {
    hide SlotDamaged, NotForged, Context.Ideal, Geometry.InSlot, Geometry.Separated, Proper, Healthy, Keyed, Library;
    hide Holds, SlotOffset, Opening, AllIntact, Version.Image, Serialize, Sized;
    HealthyProper(x, v, enc, contents);
    HealthyLibrary(x, v, enc, contents);
    KeyedHeaderSize(x, v.header);
    SizedFacts(v);
    var a := Version(v.header, v.Tab(), enc);
    ProperFacts(x, a);
    ImageParts(a);
    DamagedData(v, j, d);
    UndamagedHolds(v, j, if j == 0 then 1 else 0, d, a.Image());
    if j == 0 {
      OpensPastDamage(x, a, d, prior);
    } else {
      OpensComplete(x, a, d, prior);
    }
    AllIntactBelow(x.c, v.G(), v.disk, d, v.entries, contents, v.next);
  }

  // ---- Damage to a container that crashes have left ----

  /** Ideal authentication of damaged bytes in the slot at `off`, of which `l` bytes hold the table: a header
      that verifies starts with the 192 bytes that were there, and a string in the place of the table that
      opens was there. */
  ghost predicate NotForgedFrom(x: Context, d0: seq<byte>, d: seq<byte>, off: nat, l: nat) {
    var at := off + HEADER_SIZE;
    && at + l <= |d| == |d0| && (SelfVerifies(x, d[off..at]) ==> SameFront(d[off..at], d0[off..at]))
    && forall k: nat :: k <= l ==> StoodThere(x, d0, d, at, k)
  }

  ghost predicate StoodThere(x: Context, d0: seq<byte>, d: seq<byte>, at: nat, k: nat)
    requires at + k <= |d| == |d0|
  {
    x.c.unseal(d[at..at + k]).Some? ==> d[at..at + k] == d0[at..at + k]
  }

  lemma {:induction false} SameFrontBoth(buf: seq<byte>, other: seq<byte>)
    requires SameFront(buf, other)
    ensures SameButUnused(AllFields(other), AllFields(buf)) && (ValidMagic(buf) <==> ValidMagic(other))
  {
    hide Slice, FromLe, SameFront;
    SameFrontLengths(buf, other);
    forall i: nat | i < 24 ensures Slice(buf, i) == Slice(other, i) { SameFrontSlice(buf, other, i); }
  }

  /** A damaged slot yields nothing, or what it yielded before. */
  lemma {:induction false} DamagedKinYield(x: Context, f: Fields, d0: seq<byte>, d: seq<byte>, off: nat, prior: Table)
    requires Keyed(x, f) && KinAt(x, f, d0, off) && NotForgedFrom(x, d0, d, off, f.maxTableSize)
    ensures var r, was := Yield(x, d, off, prior), Yield(x, d0, off, prior);
      r.Some? ==>
        && was.Some? && r.value.dek == was.value.dek && r.value.table == was.value.table
        && SameButUnused(was.value.header, r.value.header) && Siblings(f, was.value.header)
  {
    hide AllFields, Keyed, KinAt, Yield, SlotHeader, Siblings;
    if Yield(x, d, off, prior).Some? {
      YieldVerifies(x, d, off, prior);
      KinSlotHeader(x, f, d0, off);
      SameFrontBoth(d[off..off + HEADER_SIZE], d0[off..off + HEADER_SIZE]);
      VerifiedBefore(x, f, d0, d, off);
      SameTable(x, f, d0, d, off, prior);
    }
  }

  lemma {:induction false} VerifiedBefore(x: Context, f: Fields, d0: seq<byte>, d: seq<byte>, off: nat)
    requires Keyed(x, f) && KinAt(x, f, d0, off) && off + HEADER_SIZE <= |d|
    requires var buf, was := d[off..off + HEADER_SIZE], d0[off..off + HEADER_SIZE];
      SelfVerifies(x, buf) && SameFront(buf, was) && SameButUnused(AllFields(was), AllFields(buf))
    ensures Verifies(x, f, d0[off..off + HEADER_SIZE])
    ensures AllFields(d0[off..off + HEADER_SIZE]).fileTableSize <= f.maxTableSize
  {
    hide AllFields, Keyed, SlotHeader, Siblings, Kin;
    KinSlotHeader(x, f, d0, off);
    var buf, was := d[off..off + HEADER_SIZE], d0[off..off + HEADER_SIZE];
    assert was[..HMAC_PROTECTED_SIZE] == was[..0xC0][..HMAC_PROTECTED_SIZE];
    assert buf[..HMAC_PROTECTED_SIZE] == buf[..0xC0][..HMAC_PROTECTED_SIZE];
  }

  lemma {:induction false} SameTable(x: Context, f: Fields, d0: seq<byte>, d: seq<byte>, off: nat, prior: Table)
    requires Keyed(x, f) && KinAt(x, f, d0, off) && NotForgedFrom(x, d0, d, off, f.maxTableSize)
    requires Verifies(x, f, d0[off..off + HEADER_SIZE])
    requires var buf, was := d[off..off + HEADER_SIZE], d0[off..off + HEADER_SIZE];
      && AllFields(was).fileTableSize <= f.maxTableSize && SameButUnused(AllFields(was), AllFields(buf))
      && SlotHeader(d, off) == Some(AllFields(buf)) && Siblings(f, AllFields(was))
    requires Yield(x, d, off, prior).Some?
    ensures var m := Yield(x, d, off, prior).value;
      && m == Meta(AllFields(d[off..off + HEADER_SIZE]), x.dek, m.table)
      && Yield(x, d0, off, prior) == Some(Meta(AllFields(d0[off..off + HEADER_SIZE]), x.dek, m.table))
  {
    hide AllFields, KinAt, SlotHeader, Siblings, Verifies, SelfVerifies, SameFront, Keyed;
    KinYield(x, f, d0, off, prior);
    SiblingKeys(x, f, AllFields(d0[off..off + HEADER_SIZE]));
    SiblingsFacts(f, AllFields(d0[off..off + HEADER_SIZE]));
    var h := AllFields(d[off..off + HEADER_SIZE]);
    var at, k := off + HEADER_SIZE, h.fileTableSize;
    assert StoodThere(x, d0, d, at, k);
  }

  /** The slot reads as a header with usable key parameters that are not those of the container. */
  predicate Foreign(f: Fields, d: seq<byte>, off: nat) {
    match SlotHeader(d, off)
    case None => false
    case Some(h) => SupportedCipher(h.cipher) && InRange(ParamsOf(h)) && ParamsOf(h) != ParamsOf(f)
  }

  /** Under this key no slot from `i` on checks out: the ideal message authentication code. */
  ghost predicate KeyRejected(x: Context, d: seq<byte>, slots: seq<nat>, i: nat, key: Key, prior: Table) {
    forall k :: i <= k < |slots| ==>
      match SlotHeader(d, slots[k])
      case None => true
      case Some(h) => Authenticate(x.s, d, slots[k], h, key, prior) == None
  }

  /** After two derivations the last key is the one for all slots that follow. */
  lemma {:induction false} ExhaustedScan(x: Context, d: seq<byte>, slots: seq<nat>, i: nat, ks: KeyState, prior: Table)
    requires i <= |slots| && ks.derived && ks.count == MAX_KEK_DERIVATIONS && KeyRejected(x, d, slots, i, ks.key, prior)
    ensures MetaOf(Scan(x.s, d, slots, i, ks, prior)) == None
    decreases |slots| - i
  {
    hide SlotHeader, Authenticate;
    if i < |slots| {
      ExhaustedScan(x, d, slots, i + 1, ks, prior);
    }
  }

  /** Slots in front of the damaged one use up one derivation; one with other parameters uses up the second. */
  predicate Exhausting(f: Fields, d: seq<byte>, slots: seq<nat>, j: nat)
    requires j < |slots|
  {
    j > 0 && Foreign(f, d, slots[j])
  }

  /** What a slot yields has the key parameters, the cipher and the size of the container. */
  predicate OfContainer(f: Fields, r: Option<Meta>) {
    r.Some? ==> (
      var h := r.value.header;
      ParamsOf(h) == ParamsOf(f) && h.cipher == f.cipher && h.containerSize == f.containerSize)
  }

  lemma {:induction false} DamagedSlotScan(x: Context, f: Fields, d: seq<byte>, slots: seq<nat>, j: nat, ks: KeyState,
          prior: Table)
    requires Keyed(x, f) && j < |slots| && ks == (if j == 0 then NO_KEY else KeyOf(x, f))
    requires forall k :: j < k < |slots| ==> KinAt(x, f, d, slots[k])
    requires OfContainer(f, Yield(x, d, slots[j], prior))
    requires Exhausting(f, d, slots, j) ==>
      KeyRejected(x, d, slots, j + 1, x.s.kdf(ParamsOf(SlotHeader(d, slots[j]).value)), prior)
    ensures MetaOf(Scan(x.s, d, slots, j, ks, prior))
      == if Exhausting(f, d, slots, j) then None else FirstYield(x, d, slots, j, prior)
  {
    hide SlotHeader, Authenticate, InRange, KinAt, Keyed, KeyRejected, FirstYield, Fields.WellFormed;
    KeyedFormat(x, f);
    FirstYieldStep(x, d, slots, j, prior);
    YieldHeader(x, d, slots[j], prior);
    match SlotHeader(d, slots[j])
    case None => KinScan(x, f, d, slots, j + 1, ks, prior);
    case Some(h) =>
      var (next, ready) := Prepared(x.s, ks, h);
      if Exhausting(f, d, slots, j) {
        ExhaustedScan(x, d, slots, j + 1, next, prior);
      } else {
        KinScan(x, f, d, slots, j + 1, next, prior);
      }
  }

  lemma {:induction false} DamagedScan(x: Context, f: Fields, d: seq<byte>, slots: seq<nat>, j: nat, i: nat,
          ks: KeyState, prior: Table)
    requires Keyed(x, f) && i <= j < |slots| && ks == (if i == 0 then NO_KEY else KeyOf(x, f))
    requires forall k :: i <= k < |slots| && k != j ==> KinAt(x, f, d, slots[k])
    requires OfContainer(f, Yield(x, d, slots[j], prior))
    requires Exhausting(f, d, slots, j) ==>
      KeyRejected(x, d, slots, j + 1, x.s.kdf(ParamsOf(SlotHeader(d, slots[j]).value)), prior)
    ensures MetaOf(Scan(x.s, d, slots, i, ks, prior))
      == FirstYield(x, d, if Exhausting(f, d, slots, j) then slots[..j] else slots, i, prior)
    decreases j - i
  {
    hide SlotHeader, Authenticate, InRange, KinAt, Keyed, KeyRejected, FirstYield, Fields.WellFormed, Yield;
    FirstYieldStep(x, d, slots, i, prior);
    if i == j {
      DamagedSlotScan(x, f, d, slots, j, ks, prior);
      NoSlots(x, d, slots[..j], prior);
    } else {
      KinStep(x, f, d, slots, i, ks, prior);
      FirstYieldStep(x, d, slots[..j], i, prior);
      DamagedScan(x, f, d, slots, j, i + 1, KeyOf(x, f), prior);
    }
  }

  lemma {:induction false} KinStep(x: Context, f: Fields, d: seq<byte>, slots: seq<nat>, i: nat, ks: KeyState,
          prior: Table)
    requires Keyed(x, f) && i < |slots| && KinAt(x, f, d, slots[i]) && (ks == NO_KEY || ks == KeyOf(x, f))
    ensures MetaOf(Scan(x.s, d, slots, i, ks, prior))
      == if Yield(x, d, slots[i], prior).Some? then Yield(x, d, slots[i], prior)
         else MetaOf(Scan(x.s, d, slots, i + 1, KeyOf(x, f), prior))
  {
    hide SlotHeader, Authenticate, InRange, KinAt, Keyed, Fields.WellFormed, AllFields, Siblings, SlotTable;
    KinSlotHeader(x, f, d, slots[i]);
    KeyedFormat(x, f);
  }

  lemma {:induction false} FirstIsOne(x: Context, d: seq<byte>, slots: seq<nat>, i: nat, prior: Table) returns (k: nat)
    requires i <= |slots|
    ensures FirstYield(x, d, slots, i, prior).Some? ==>
      i <= k < |slots| && FirstYield(x, d, slots, i, prior) == Yield(x, d, slots[k], prior)
    decreases |slots| - i
  {
    hide Yield;
    k := i;
    if i < |slots| && Yield(x, d, slots[i], prior).None? {
      k := FirstIsOne(x, d, slots, i + 1, prior);
    }
  }

  lemma {:induction false} UndamagedSame(v: Volume, j: nat, i: nat, d: seq<byte>)
    requires SlotDamaged(v, j, d) && i < 4 && i != j && v.G().Disjoint() && v.G().Inside(|d|)
    ensures SameBytes(v.disk, d, v.G().slots[i], v.G().reserved)
  {
    hide ContainerGeometry;
    var g := v.G();
    assert forall p :: g.slots[i] <= p < g.slots[i] + g.reserved ==> d[p] == v.disk[p];
  }

  lemma {:induction false} KinOfContainer(x: Context, f: Fields, d: seq<byte>, off: nat, prior: Table)
    requires Keyed(x, f) && KinAt(x, f, d, off)
    ensures OfContainer(f, Yield(x, d, off, prior))
  {
    hide Keyed, KinAt, Yield, Siblings;
    if Yield(x, d, off, prior).Some? {
      YieldKeyed(x, f, d, off, prior);
      SiblingsFacts(f, Yield(x, d, off, prior).value.header);
    }
  }

  lemma {:induction false} DamagedOfContainer(x: Context, f: Fields, d0: seq<byte>, d: seq<byte>, off: nat,
          prior: Table)
    requires Keyed(x, f) && KinAt(x, f, d0, off) && NotForgedFrom(x, d0, d, off, f.maxTableSize)
    ensures OfContainer(f, Yield(x, d, off, prior))
  {
    hide Keyed, KinAt, Yield, NotForgedFrom;
    DamagedKinYield(x, f, d0, d, off, prior);
  }

  /** Damage to one slot of a container as crashes leave it. Opening finds what the first slot yields that
      yields anything under the key of its own parameters, with one exception: if a slot behind the first one
      comes to state usable parameters of its own, the slots behind it are not recognised. */
  lemma {:induction false} DamagedOpening(x: Context, v: Volume, contents: seq<seq<byte>>, j: nat, d: seq<byte>,
          prior: Table)
    requires Alive(x, v, contents, prior) && SlotDamaged(v, j, d) && |v.G().slots| == 4
    requires NotForgedFrom(x, v.disk, d, v.G().slots[j], v.header.maxTableSize)
    requires Exhausting(v.header, d, v.G().slots, j) ==>
      KeyRejected(x, d, v.G().slots, j + 1, x.s.kdf(ParamsOf(SlotHeader(d, v.G().slots[j]).value)), prior)
    ensures var slots := v.G().slots;
      && Opening(x.s, d, prior)
           == FirstYield(x, d, if Exhausting(v.header, d, slots, j) then slots[..j] else slots, 0, prior)
      && (forall i :: 0 <= i < 4 && i != j ==> Yield(x, d, slots[i], prior) == Yield(x, v.disk, slots[i], prior))
    ensures AllIntact(x.c, v.G(), d, v.entries, contents)
  {
    hide Alive, SlotDamaged, Geometry.InSlot, Geometry.Separated, Keyed, Library, SlotOffset, AllIntact, NotForgedFrom;
    hide Scan, FirstYield, Yield, KinAt, Sized, Exhausting, KeyRejected, Siblings;
    AliveFacts(x, v, contents, prior);
    SizedFacts(v);
    DamagedData(v, j, d);
    var f, slots := v.header, v.G().slots;
    forall i | 0 <= i < 4
      ensures i != j ==> KinAt(x, f, d, slots[i]) && Yield(x, d, slots[i], prior) == Yield(x, v.disk, slots[i], prior)
      ensures OfContainer(f, Yield(x, d, slots[i], prior))
    {
      if i == j {
        DamagedOfContainer(x, f, v.disk, d, slots[j], prior);
      } else {
        UndamagedSame(v, j, i, d);
        SameBytesSlot(x, f, v.disk, d, slots[i], v.G().reserved, prior);
        KinOfContainer(x, f, d, slots[i], prior);
      }
    }
    DamagedScan(x, f, d, slots, j, 0, NO_KEY, prior);
    var k := FirstIsOne(x, d, if Exhausting(f, d, slots, j) then slots[..j] else slots, 0, prior);
    AllIntactBelow(x.c, v.G(), v.disk, d, v.entries, contents, v.G().Skip(v.next));
    LibraryIntact(x.c, v.G(), d, v.entries, contents, v.G().Skip(v.next));
  }

  lemma {:induction false} FirstYieldAgrees(x: Context, d: seq<byte>, d': seq<byte>, slots: seq<nat>, i: nat,
          prior: Table)
    requires i <= |slots|
    requires forall k :: i <= k < |slots| ==> Yield(x, d', slots[k], prior) == Yield(x, d, slots[k], prior)
    ensures FirstYield(x, d', slots, i, prior) == FirstYield(x, d, slots, i, prior)
    decreases |slots| - i
  {
    hide Yield;
    if i < |slots| {
      FirstYieldAgrees(x, d, d', slots, i + 1, prior);
    }
  }

  /** The slots in front of `j`, slot `j`, and those behind it. */
  lemma {:induction false} FirstYieldSplit(x: Context, d: seq<byte>, slots: seq<nat>, i: nat, j: nat, prior: Table)
    requires i <= j < |slots|
    ensures var front := FirstYield(x, d, slots[..j], i, prior);
      FirstYield(x, d, slots, i, prior) ==
        if front.Some? then front else if Yield(x, d, slots[j], prior).Some? then Yield(x, d, slots[j], prior)
        else FirstYield(x, d, slots, j + 1, prior)
    decreases j - i
  {
    hide Yield;
    if i < j {
      FirstYieldSplit(x, d, slots, i + 1, j, prior);
    }
  }

  /** Exactly when the damage to one slot of such a container leaves it with its table: a slot in front of the
      damaged one is accepted, or the damaged one still is, or the slots behind it are looked at and the
      first of them that yields anything holds that table. */
  lemma {:induction false} DamageSurvivedIff(x: Context, v: Volume, contents: seq<seq<byte>>, j: nat, d: seq<byte>,
          prior: Table)
    requires Alive(x, v, contents, prior) && SlotDamaged(v, j, d) && |v.G().slots| == 4
    requires NotForgedFrom(x, v.disk, d, v.G().slots[j], v.header.maxTableSize)
    requires Exhausting(v.header, d, v.G().slots, j) ==>
      KeyRejected(x, d, v.G().slots, j + 1, x.s.kdf(ParamsOf(SlotHeader(d, v.G().slots[j]).value)), prior)
    ensures var slots := v.G().slots;
      var r, behind := Opening(x.s, d, prior), FirstYield(x, v.disk, slots, j + 1, prior);
      r.Some? && r.value.table == v.Tab() <==>
        || FirstYield(x, v.disk, slots[..j], 0, prior).Some? || Yield(x, d, slots[j], prior).Some?
        || (!Exhausting(v.header, d, slots, j) && behind.Some? && behind.value.table == v.Tab())
    ensures AllIntact(x.c, v.G(), d, v.entries, contents)
  {
    hide Alive, SlotDamaged, Keyed, Library, SlotOffset, AllIntact, NotForgedFrom, ContainerGeometry, Opening;
    hide FirstYield, Yield, KinAt, Sized, Foreign, KeyRejected, Siblings;
    AliveFacts(x, v, contents, prior);
    DamagedData(v, j, d);
    DamagedOpening(x, v, contents, j, d, prior);
    var f, slots := v.header, v.G().slots;
    OpeningIsFirst(x, f, v.disk, prior);
    FirstYieldSplit(x, v.disk, slots, 0, j, prior);
    FirstYieldSplit(x, d, slots, 0, j, prior);
    FirstYieldAgrees(x, v.disk, d, slots[..j], 0, prior);
    FirstYieldAgrees(x, v.disk, d, slots, j + 1, prior);
    DamagedKinYield(x, f, v.disk, d, slots[j], prior);
    ForeignYields(x, f, v.disk, d, slots[j], prior);
  }

  lemma {:induction false} ForeignYields(x: Context, f: Fields, d0: seq<byte>, d: seq<byte>, off: nat, prior: Table)
    requires Keyed(x, f) && KinAt(x, f, d0, off) && NotForgedFrom(x, d0, d, off, f.maxTableSize)
    ensures Foreign(f, d, off) ==> Yield(x, d, off, prior) == None
  {
    hide Keyed, KinAt, NotForgedFrom, SlotHeader, InRange, Authenticate;
    YieldHeader(x, d, off, prior);
    DamagedOfContainer(x, f, d0, d, off, prior);
  }

  lemma {:induction false} HealthyLibrary(x: Context, v: Volume, enc: seq<byte>, contents: seq<seq<byte>>)
    requires Healthy(x, v, enc, contents)
    ensures Library(x.c, v.G(), v.disk, v.entries, contents, v.next) && Sized(v.header) && |v.disk| > 0
  {
    hide Library, Keyed, Saved, Held, ContainerGeometry;
  }

  /** A slot 0 that holds any other version ever written to this container is opened, whatever the versions
      in the other slots: the header version is not compared. */
  lemma {:induction false} StaleSlotOpens(x: Context, v: Volume, enc: seq<byte>, contents: seq<seq<byte>>, a: Version,
          prior: Table)
    returns (d: seq<byte>)
    requires x.Ideal() && Healthy(x, v, enc, contents) && v.header.containerSize >= MINIMAL_CONTAINER_SIZE
    requires Proper(x, a) && Siblings(v.header, a.header)
    ensures SlotDamaged(v, 0, d) && Opening(x.s, d, prior) == Some(Meta(a.header, x.dek, a.table))
    ensures forall i :: 1 <= i < 4 ==> Holds(d, v.G().slots[i], Version(v.header, v.Tab(), enc).Image())
    ensures AllIntact(x.c, v.G(), d, v.entries, contents)
  {
    hide Context.Ideal, Proper, Healthy, Keyed, Library, Holds, SlotOffset, Opening, AllIntact, Version.Image;
    hide Serialize, Sized, Siblings;
    HealthyProper(x, v, enc, contents);
    HealthyLibrary(x, v, enc, contents);
    KeyedHeaderSize(x, v.header);
    SizedFacts(v);
    SiblingsFacts(v.header, a.header);
    ProperFacts(x, a);
    ImageParts(a);
    var was := Version(v.header, v.Tab(), enc);
    ProperFacts(x, was);
    ImageParts(was);
    d := Splice(v.disk, v.G().slots[0], a.Image());
    assert Holds(d, v.G().slots[0], a.Image()) by { SplicedHolds(v.disk, v.G().slots[0], a.Image()); }
    OpensComplete(x, a, d, prior);
    DamagedData(v, 0, d);
    forall i | 1 <= i < 4 ensures Holds(d, v.G().slots[i], was.Image()) { UndamagedHolds(v, 0, i, d, was.Image()); }
    AllIntactBelow(x.c, v.G(), v.disk, d, v.entries, contents, v.next);
  }

  lemma {:induction false} SplicedHolds(d: seq<byte>, off: nat, bytes: seq<byte>)
    requires bytes != [] && off + |bytes| <= |d|
    ensures Holds(Splice(d, off, bytes), off, bytes)
  {
  }
}
