/** Power loss while an add is in progress: the slots are rewritten one after the other, with one
    synchronisation per slot (writeFileTableToAllSlots and readMeta in src/FileManager.cpp). */
module Crash {
  import opened Bytes
  import opened Layout
  import opened Fragments
  import opened Chunks
  import opened Sealing
  import opened Tables
  import opened Pipeline
  import opened Encrypt
  import opened Storing
  import opened HeaderCodec
  import opened Slots
  import opened Recovery
  import opened Container
  import opened Adding
  import opened Torn

  // ---- Sessions on any container, whatever earlier crashes have left in its slots ----

  ghost predicate KinSlots(x: Context, f: Fields, d: seq<byte>, slots: seq<nat>) {
    forall j :: 0 <= j < |slots| ==> KinAt(x, f, d, slots[j])
  }

  /** A session as opening leaves it: the header and table in memory are those that readMeta finds in the
      file, every listed file is intact, and every slot has a header of this container. The slots may
      differ from each other, and table areas may hold anything. */
  ghost predicate Alive(x: Context, v: Volume, contents: seq<seq<byte>>, prior: Table) {
    && Ready(x, v, contents) && KinSlots(x, v.header, v.disk, v.G().slots)
    && Opening(x.s, v.disk, prior) == Some(Meta(v.header, x.dek, v.Tab()))
  }

  /** readMeta accepts the first slot that yields anything. */
  lemma {:induction false} OpeningIsFirst(x: Context, f: Fields, d: seq<byte>, prior: Table)
    requires Keyed(x, f) && d != [] && KinSlots(x, f, d, SlotOffsets(|d|))
    ensures Opening(x.s, d, prior) ==
      if f.containerSize < MINIMAL_CONTAINER_SIZE then None else FirstYield(x, d, SlotOffsets(|d|), 0, prior)
  {
    hide Keyed, KinAt, SlotOffset, Scan, FirstYield, Siblings;
    var slots := SlotOffsets(|d|);
    KinScan(x, f, d, slots, 0, NO_KEY, prior);
    if FirstYield(x, d, slots, 0, prior).Some? {
      FirstYieldKeyed(x, f, d, slots, 0, prior);
      SiblingsFacts(f, FirstYield(x, d, slots, 0, prior).value.header);
    }
  }

  lemma {:induction false} FirstYieldStep(x: Context, d: seq<byte>, slots: seq<nat>, i: nat, prior: Table)
    requires i < |slots|
    ensures FirstYield(x, d, slots, i, prior)
      == if Yield(x, d, slots[i], prior).Some? then Yield(x, d, slots[i], prior)
         else FirstYield(x, d, slots, i + 1, prior)
  {
  }

  /** Slots that hold the same bytes yield the same. */
  lemma {:induction false} FirstYieldSame(x: Context, f: Fields, d: seq<byte>, d': seq<byte>, slots: seq<nat>, i: nat,
          prior: Table)
    requires Keyed(x, f) && i <= |slots| && |d| == |d'|
    requires forall j :: i <= j < |slots| ==> KinAt(x, f, d, slots[j])
    requires forall j :: i <= j < |slots| ==> SameBytes(d, d', slots[j], HEADER_SIZE + f.maxTableSize)
    ensures FirstYield(x, d', slots, i, prior) == FirstYield(x, d, slots, i, prior)
    decreases |slots| - i
  {
    hide Keyed, Yield, FirstYield, Kin, Verifies, AllFields;
    if i < |slots| {
      SameSlot(x, f, d, d', slots[i], prior);
      FirstYieldStep(x, d, slots, i, prior);
      FirstYieldStep(x, d', slots, i, prior);
      hide KinAt, SameBytes;
      FirstYieldSame(x, f, d, d', slots, i + 1, prior);
    } else {
      NoSlots(x, d, slots, prior);
      NoSlots(x, d', slots, prior);
    }
  }

  lemma {:induction false} NoSlots(x: Context, d: seq<byte>, slots: seq<nat>, prior: Table)
    ensures FirstYield(x, d, slots, |slots|, prior) == None
  {
  }

  ghost predicate SameBytes(d: seq<byte>, d': seq<byte>, off: nat, n: nat) {
    off + n <= |d| && off + n <= |d'| && d'[off..off + n] == d[off..off + n]
  }

  // ---- The update ----

  /** What writeFileTableToAllSlots writes after the writer has left `w`. */
  function NewVersion(x: Context, v: Volume, w: Store, nonce: seq<byte>): Version {
    var u := BeforeSave(v, w);
    Version(NextHeader(x.s, u.header, |x.text(u.Tab())| + OVERHEAD), u.Tab(), SealedTable(x, u, nonce))
  }

  /** What the device is sure to hold after `i` of the four synchronisations. The data of the new
      files is made durable together with slot 0. */
  function Durable(v: Volume, w: Store, n: Version, i: nat): seq<byte>
    requires i <= 4
  {
    if i == 0 then v.disk else Replicated(w.disk, v.G().slots, i, n.Image())
  }

  ghost predicate CrashState(v: Volume, w: Store, n: Version, i: nat, d: seq<byte>) {
    i < 4 && Mix(Durable(v, w, n, i), Durable(v, w, n, i + 1), d)
  }

  /** Slots as they were, and the new version that is about to be written over them. */
  ghost predicate Frame(g: Geometry, v: Volume, w: Store, n: Version) {
    && |g.slots| == 4 && g == v.G() && g.slots == SlotOffsets(|v.disk|) && g.Disjoint() && g.Inside(|v.disk|)
    && |n.Image()| == g.reserved == HEADER_SIZE + v.header.maxTableSize
    && |w.disk| == |v.disk| && (forall p :: 0 <= p < |v.disk| && g.InSlot(p) ==> w.disk[p] == v.disk[p])
  }

  /** Ideal authentication under tearing, for each of the four slots. */
  ghost predicate AllTornRejected(x: Context, v: Volume, n: Version) {
    forall j :: 0 <= j < |v.G().slots| ==> SlotTornRejected(x, v.disk, v.G().slots[j], n)
  }

  ghost predicate SlotTornRejected(x: Context, d: seq<byte>, off: nat, n: Version) {
    && off + |n.Image()| <= |d| && |n.Image()| >= HEADER_SIZE
    && TornRejected(x, d[off..off + |n.Image()|], n)
  }

  /** The new version `n` is being written over the slots of `v`. */
  ghost predicate Updating(x: Context, v: Volume, w: Store, n: Version, prior: Table) {
    && x.Ideal() && Keyed(x, v.header) && v.disk != [] && v.header.containerSize >= MINIMAL_CONTAINER_SIZE
    && Frame(v.G(), v, w, n) && KinSlots(x, v.header, v.disk, v.G().slots)
    && Opening(x.s, v.disk, prior) == Some(Meta(v.header, x.dek, v.Tab()))
    && Proper(x, n) && Siblings(v.header, n.header) && AllTornRejected(x, v, n)
  }

  lemma {:induction false} InsideSlot(g: Geometry, d: seq<byte>, d': seq<byte>, j: nat)
    requires j < |g.slots| && g.Inside(|d|) && |d'| == |d| && forall p :: 0 <= p < |d| && g.InSlot(p) ==> d'[p] == d[p]
    ensures SameBytes(d, d', g.slots[j], g.reserved)
  {
    assert forall p :: g.slots[j] <= p < g.slots[j] + g.reserved ==> g.InSlot(p);
  }

  lemma {:induction false} DurableSlots(g: Geometry, v: Volume, w: Store, n: Version, i: nat)
    requires Frame(g, v, w, n) && i <= 4
    ensures var d := Durable(v, w, n, i);
      && |d| == |v.disk|
      && (forall j :: 0 <= j < i ==> Holds(d, g.slots[j], n.Image()))
      && (forall j :: i <= j < 4 ==> SameBytes(v.disk, d, g.slots[j], g.reserved))
      && (forall p :: 0 <= p < |d| && !g.InSlot(p) ==> d[p] == if i == 0 then v.disk[p] else w.disk[p])
  {
    hide Version.Image, Replicated, ContainerGeometry;
    if i > 0 {
      ReplicaIdentity(g, w.disk, i, n.Image());
    }
    forall j | i <= j < 4 ensures SameBytes(v.disk, Durable(v, w, n, i), g.slots[j], g.reserved) {
      InsideSlot(g, v.disk, w.disk, j);
    }
  }

  lemma {:induction false} FrameFacts(g: Geometry, v: Volume, w: Store, n: Version)
    requires Frame(g, v, w, n)
    ensures |g.slots| == 4 && g == v.G() && g.slots == SlotOffsets(|v.disk|) && g.Disjoint() && g.Inside(|v.disk|)
    ensures |n.Image()| == g.reserved == HEADER_SIZE + v.header.maxTableSize && |w.disk| == |v.disk|
  {
  }

  lemma {:induction false} MixRegion(d1: seq<byte>, d2: seq<byte>, d: seq<byte>, off: nat, l: nat)
    requires Mix(d1, d2, d) && off + l <= |d|
    ensures |d1| == |d2| == |d| && Mix(d1[off..off + l], d2[off..off + l], d[off..off + l])
    ensures d1[off..off + l] == d2[off..off + l] ==> d[off..off + l] == d1[off..off + l]
  {
    MixSlice(d1, d2, d, off, off + l);
  }

  /** What is certain about slot `j` after a crash. */
  lemma {:induction false} CrashedSlot(g: Geometry, v: Volume, w: Store, n: Version, i: nat, d: seq<byte>, j: nat)
    requires Frame(g, v, w, n) && CrashState(v, w, n, i, d) && j < 4
    ensures |g.slots| == 4 && |d| == |v.disk| && |n.Image()| == g.reserved && g.slots[j] + g.reserved <= |d|
    ensures j < i ==> Holds(d, g.slots[j], n.Image())
    ensures j == i ==> var off := g.slots[j]; Mix(v.disk[off..off + g.reserved], n.Image(), d[off..off + g.reserved])
    ensures j > i ==> SameBytes(v.disk, d, g.slots[j], g.reserved)
  {
    hide Frame, Durable, Version.Image, Geometry.InSlot, Mix, ContainerGeometry, SlotOffsets;
    FrameFacts(g, v, w, n);
    DurableSlots(g, v, w, n, i);
    DurableSlots(g, v, w, n, i + 1);
    MixLengths(Durable(v, w, n, i), Durable(v, w, n, i + 1), d);
    MixRegion(Durable(v, w, n, i), Durable(v, w, n, i + 1), d, g.slots[j], g.reserved);
  }

  lemma {:induction false} CrashedData(g: Geometry, v: Volume, w: Store, n: Version, i: nat, d: seq<byte>)
    requires Frame(g, v, w, n) && CrashState(v, w, n, i, d)
    ensures |d| == |v.disk| == |w.disk|
    ensures forall p :: 0 <= p < |d| && !g.InSlot(p) ==> d[p] == w.disk[p] || (i == 0 && d[p] == v.disk[p])
  {
    hide Frame, Durable, Version.Image, Geometry.InSlot, ContainerGeometry, SlotOffsets, Holds, SameBytes;
    FrameFacts(g, v, w, n);
    DurableSlots(g, v, w, n, i);
    DurableSlots(g, v, w, n, i + 1);
  }

  // ---- Reopening after the crash ----

  lemma {:induction false} UpdatingFacts(x: Context, v: Volume, w: Store, n: Version, prior: Table)
    requires Updating(x, v, w, n, prior)
    ensures x.Ideal() && Keyed(x, v.header) && v.disk != [] && v.header.containerSize >= MINIMAL_CONTAINER_SIZE
    ensures Frame(v.G(), v, w, n) && KinSlots(x, v.header, v.disk, v.G().slots) && Proper(x, n)
    ensures Siblings(v.header, n.header)
    ensures Opening(x.s, v.disk, prior) == Some(Meta(v.header, x.dek, v.Tab())) && v.header.WellFormed()
    ensures n.header.WellFormed()
    ensures |v.G().slots| == 4 && v.G().slots == SlotOffsets(|v.disk|)
  {
    hide Opening, ContainerGeometry, KinAt, AllTornRejected, Serialize, Siblings;
    ProperFacts(x, n);
    KeyedHeaderSize(x, v.header);
  }

  /** Slot `i` is torn, in the sense of Tearing. */
  lemma {:induction false} CrashTears(x: Context, v: Volume, w: Store, n: Version, i: nat, d: seq<byte>, prior: Table)
    requires Updating(x, v, w, n, prior) && CrashState(v, w, n, i, d)
    ensures Tearing(x, v.header, v.disk, d, v.G().slots[i], n)
  {
    hide Opening, ContainerGeometry, CrashState, Proper, Keyed, Siblings, Mix, TornRejected, Version.Image, KinAt;
    hide Context.Ideal, Frame, SlotOffsets;
    FrameFacts(v.G(), v, w, n);
    CrashIndex(v, w, n, i, d);
    CrashedSlot(v.G(), v, w, n, i, d, i);
  }

  lemma {:induction false} CrashIndex(v: Volume, w: Store, n: Version, i: nat, d: seq<byte>)
    requires CrashState(v, w, n, i, d)
    ensures i < 4
  {
  }

  /** Every slot still has a header of the container. */
  lemma {:induction false} CrashedKin(x: Context, v: Volume, w: Store, n: Version, i: nat, d: seq<byte>, prior: Table)
    requires Updating(x, v, w, n, prior) && CrashState(v, w, n, i, d)
    ensures |d| == |v.disk| && KinSlots(x, v.header, d, v.G().slots)
  {
    hide Updating, Opening, ContainerGeometry, CrashState, Proper, Keyed, Siblings, Version.Image, KinAt, Frame;
    hide SlotOffsets, Mix, Tearing, Holds, SameBytes;
    UpdatingFacts(x, v, w, n, prior);
    FrameFacts(v.G(), v, w, n);
    CrashIndex(v, w, n, i, d);
    CrashedSlot(v.G(), v, w, n, i, d, 0);
    forall j | 0 <= j < 4 ensures |d| == |v.disk| && KinAt(x, v.header, d, v.G().slots[j]) {
      CrashedSlot(v.G(), v, w, n, i, d, j);
      if j < i {
        ImageKinAt(x, v.header, d, v.G().slots[j], n);
      } else if j == i {
        CrashTears(x, v, w, n, i, d, prior);
        TornKinAt(x, v.header, v.disk, d, v.G().slots[i], n);
      } else {
        SameBytesSlot(x, v.header, v.disk, d, v.G().slots[j], v.G().reserved, prior);
      }
    }
  }

  lemma {:induction false} SameBytesSlot(x: Context, f: Fields, d: seq<byte>, d': seq<byte>, off: nat, l: nat,
          prior: Table)
    requires Keyed(x, f) && KinAt(x, f, d, off) && l == HEADER_SIZE + f.maxTableSize && SameBytes(d, d', off, l)
    ensures KinAt(x, f, d', off) && Yield(x, d', off, prior) == Yield(x, d, off, prior)
  {
    hide Keyed, KinAt, Yield;
    SameSlot(x, f, d, d', off, prior);
  }

  /** A complete slot 0. */
  lemma {:induction false} OpensComplete(x: Context, n: Version, d: seq<byte>, prior: Table)
    requires x.Ideal() && Proper(x, n) && d != [] && n.header.containerSize >= MINIMAL_CONTAINER_SIZE
    requires Holds(d, SlotOffsets(|d|)[0], n.Image())
    ensures Opening(x.s, d, prior) == Some(Meta(n.header, x.dek, n.table))
  {
    var slots := SlotOffsets(|d|);
    SlotGenuine(x, n.header, n.table, n.enc, d, slots[0], prior);
    hide Keyed, Saved, SlotHeader, Authenticate, Holds, Context.Ideal, Genuine, SlotOffset;
    GenuineAccepted(x.s, d, slots, 0, NO_KEY, prior, Meta(n.header, x.dek, n.table));
  }

  /** Once slot 0 is complete the new table is what opening finds. */
  lemma {:induction false} OpensNew(x: Context, v: Volume, w: Store, n: Version, i: nat, d: seq<byte>, prior: Table)
    requires Updating(x, v, w, n, prior) && CrashState(v, w, n, i, d) && i > 0
    ensures Opening(x.s, d, prior) == Some(Meta(n.header, x.dek, n.table))
  {
    hide Updating, Opening, ContainerGeometry, CrashState, Proper, Keyed, Siblings, Version.Image, KinAt, Frame;
    hide SlotOffsets, Mix, Holds, SameBytes;
    UpdatingFacts(x, v, w, n, prior);
    SiblingsFacts(v.header, n.header);
    CrashIndex(v, w, n, i, d);
    CrashedSlot(v.G(), v, w, n, i, d, 0);
    OpensComplete(x, n, d, prior);
  }

  /** While slot 0 is being written, opening finds what slot 0 yields or else what the first of the other
      slots yields that yields anything. */
  lemma {:induction false} OpensInFirst(x: Context, v: Volume, w: Store, n: Version, d: seq<byte>, prior: Table)
    requires Updating(x, v, w, n, prior) && CrashState(v, w, n, 0, d)
    ensures |v.G().slots| == 4
    ensures var torn := Yield(x, d, v.G().slots[0], prior);
      Opening(x.s, d, prior) == if torn.Some? then torn else FirstYield(x, v.disk, v.G().slots, 1, prior)
  {
    hide Updating, Opening, ContainerGeometry, CrashState, Proper, Keyed, Siblings, Version.Image, KinAt, Frame;
    hide SlotOffsets, Mix, Holds, SameBytes, Yield, FirstYield;
    UpdatingFacts(x, v, w, n, prior);
    FrameFacts(v.G(), v, w, n);
    CrashedKin(x, v, w, n, 0, d, prior);
    var slots := v.G().slots;
    OpeningIsFirst(x, v.header, d, prior);
    FirstYieldStep(x, d, slots, 0, prior);
    forall j | 1 <= j < 4 ensures SameBytes(v.disk, d, slots[j], HEADER_SIZE + v.header.maxTableSize) {
      CrashedSlot(v.G(), v, w, n, 0, d, j);
    }
    FirstYieldSame(x, v.header, v.disk, d, slots, 1, prior);
  }

  /** The session's table or the new one. */
  predicate Current(v: Volume, n: Version, t: Table) { t == v.Tab() || t == n.table }

  predicate Recovers(x: Context, v: Volume, n: Version, d: seq<byte>, prior: Table) {
    var r := Opening(x.s, d, prior); r.Some? && Current(v, n, r.value.table)
  }

  /** The first of slots 1 to 3 that yields anything holds a current table. */
  predicate BackupsCurrent(x: Context, v: Volume, n: Version, prior: Table) {
    var r := FirstYield(x, v.disk, v.G().slots, 1, prior); r.Some? && Current(v, n, r.value.table)
  }

  /** At the length of the new table, slot 0's table area opens to nothing or to a current table. */
  predicate AreaCurrent(x: Context, v: Volume, n: Version) {
    var at := v.G().slots[0] + HEADER_SIZE;
    at + |n.enc| <= |v.disk| ==>
      var r := OpenedTable(x, v.disk[at..at + |n.enc|]); r.Some? ==> Current(v, n, r.value)
  }

  /** Some mixture of the old and the new slot 0 is rejected. */
  ghost predicate CanBeRejected(x: Context, v: Volume, w: Store, n: Version, prior: Table) {
    exists d :: CrashState(v, w, n, 0, d) && Yield(x, d, v.G().slots[0], prior) == None
  }

  predicate DifferTwice(a: seq<byte>, b: seq<byte>)
    requires |a| == |b|
  {
    exists p, q :: 0 <= p < q < |a| && a[p] != b[p] && a[q] != b[q]
  }

  /** With the header `buf`, one of the two whole table areas is rejected, or the two differ in two places
      where the header announces the table. */
  predicate AreaRejectable(x: Context, f: Fields, buf: seq<byte>, area: seq<byte>, area': seq<byte>, prior: Table)
    requires |buf| == HEADER_SIZE && |area| == |area'|
  {
    || SlotYield(x, f, buf, area, prior).None? || SlotYield(x, f, buf, area', prior).None?
    || (var m := AllFields(buf).fileTableSize; m <= |area| && DifferTwice(area[..m], area'[..m]))
  }

  /** Decided by the bytes of slot 0 and those about to be written over it: the protected parts of the two
      headers, codes included, differ in two places, or one of the headers can come to stand over a table
      area that is rejected. */
  predicate Rejectable(x: Context, f: Fields, buf: seq<byte>, area: seq<byte>, n: Version, prior: Table) {
    |buf| == |Serialize(n.header)| == HEADER_SIZE && |area| == |n.Area()| && (
      || DifferTwice(buf[..0xC0], Serialize(n.header)[..0xC0])
      || AreaRejectable(x, f, buf, area, n.Area(), prior)
      || AreaRejectable(x, f, Serialize(n.header), area, n.Area(), prior))
  }

  /** The same for the slot 0 of a session. */
  predicate FirstRejectable(x: Context, v: Volume, n: Version, prior: Table) {
    var at, l := v.G().slots[0] + HEADER_SIZE, v.header.maxTableSize;
    at + l <= |v.disk|
    && Rejectable(x, v.header, v.disk[v.G().slots[0]..at], v.disk[at..at + l], n, prior)
  }

  ghost predicate FirstRecovers(x: Context, v: Volume, w: Store, n: Version, prior: Table) {
    forall d :: CrashState(v, w, n, 0, d) ==> Recovers(x, v, n, d, prior)
  }

  lemma {:induction false} OldYield(x: Context, v: Volume, w: Store, n: Version, prior: Table)
    requires Updating(x, v, w, n, prior)
    ensures var was := Yield(x, v.disk, v.G().slots[0], prior); was.Some? ==> was.value.table == v.Tab()
  {
    hide Updating, Opening, ContainerGeometry, CrashState, Proper, Keyed, Siblings, Version.Image, KinAt, Frame;
    hide SlotOffsets, Yield;
    UpdatingFacts(x, v, w, n, prior);
    OpeningIsFirst(x, v.header, v.disk, prior);
    FirstYieldStep(x, v.disk, v.G().slots, 0, prior);
  }

  lemma {:induction false} HoldsByte(d: seq<byte>, off: nat, bytes: seq<byte>, p: nat)
    requires Holds(d, off, bytes) && p < |bytes|
    ensures off + p < |d| && d[off + p] == bytes[p]
  {
    assert d[off..off + |bytes|][p] == d[off + p];
  }

  /** Any bytes of the new image may have reached slot 0 alone. */
  lemma {:induction false} PartlyWritten(v: Volume, w: Store, n: Version, d: seq<byte>)
    requires Frame(v.G(), v, w, n) && |d| == |v.disk|
    requires var off := v.G().slots[0]; forall p :: 0 <= p < |d| ==>
      d[p] == v.disk[p] || (off <= p < off + |n.Image()| && d[p] == n.Image()[p - off])
    ensures CrashState(v, w, n, 0, d)
  {
    hide Frame, Durable, Version.Image, Geometry.InSlot, ContainerGeometry, SlotOffsets, SameBytes, Holds;
    var g := v.G();
    FrameFacts(g, v, w, n);
    DurableSlots(g, v, w, n, 0);
    DurableSlots(g, v, w, n, 1);
    NoneDurable(v, w, n);
    var off, d2 := g.slots[0], Durable(v, w, n, 1);
    forall p: nat | p < |n.Image()| ensures off + p < |d2| && d2[off + p] == n.Image()[p] {
      HoldsByte(d2, off, n.Image(), p);
    }
    forall p | 0 <= p < |d| ensures d[p] == v.disk[p] || d[p] == d2[p] {
      if d[p] != v.disk[p] { assert d2[off + (p - off)] == n.Image()[p - off]; }
    }
  }

  lemma {:induction false} NoneDurable(v: Volume, w: Store, n: Version)
    ensures Durable(v, w, n, 0) == v.disk
  {
  }

  /** What is written as a header verifies. */
  lemma {:induction false} ProperVerifies(x: Context, n: Version)
    requires Proper(x, n)
    ensures Verifies(x, n.header, Serialize(n.header))
  {
    ProperFacts(x, n);
    ProtectedPart(n.header);
    PrefixLength(n.header, 23);
    hide Serialize, HeaderCodec.Prefix, Fields.WellFormed, Keyed;
  }

  /** The new header over the old table area: what then opens at the new length is accepted. */
  lemma {:induction false} NewHeaderOldArea(x: Context, v: Volume, w: Store, n: Version, prior: Table)
    returns (d: seq<byte>)
    requires Updating(x, v, w, n, prior)
    ensures |v.G().slots| == 4 && v.G().slots[0] + HEADER_SIZE + |n.enc| <= |v.disk| && CrashState(v, w, n, 0, d)
    ensures var at := v.G().slots[0] + HEADER_SIZE; var r := OpenedTable(x, v.disk[at..at + |n.enc|]);
      Yield(x, d, v.G().slots[0], prior) == if r.None? then None else Some(Meta(n.header, x.dek, r.value))
  {
    hide Updating, Opening, ContainerGeometry, CrashState, Yield, FirstYield, OpenedTable, Tearing, Version.Image;
    hide Frame, Keyed, Kin, Siblings, Proper, Serialize, AllFields, KinAt;
    UpdatingFacts(x, v, w, n, prior);
    FrameFacts(v.G(), v, w, n);
    ProperFacts(x, n);
    ProperFields(x, n);
    ImageParts(n);
    SiblingsFacts(v.header, n.header);
    var off := v.G().slots[0];
    d := Splice(v.disk, off, Serialize(n.header));
    assert forall p :: 0 <= p < HEADER_SIZE ==> Serialize(n.header)[p] == n.Image()[0..HEADER_SIZE][p] == n.Image()[p];
    PartlyWritten(v, w, n, d);
    CrashedKin(x, v, w, n, 0, d, prior);
    KinYield(x, v.header, d, off, prior);
    ProperVerifies(x, n);
    SiblingVerifies(x, v.header, n.header, Serialize(n.header));
    assert d[off..off + HEADER_SIZE] == Serialize(n.header);
    var at := off + HEADER_SIZE;
    assert d[at..at + |n.enc|] == v.disk[at..at + |n.enc|];
  }

  lemma {:induction false} MixOfTwo(a: seq<byte>, b: seq<byte>, c: seq<byte>)
    requires Mix(a, b, c) && !DifferTwice(a, b)
    ensures c == a || c == b
  {
    if p :| 0 <= p < |a| && c[p] != a[p] {
      forall q | 0 <= q < |a| ensures c[q] == b[q] {
        assert p < q ==> a[q] == b[q];
        assert q < p ==> a[q] == b[q];
      }
    }
  }

  /** Where two strings differ twice there is a mixture that is neither. */
  lemma {:induction false} MixedBoth(a: seq<byte>, b: seq<byte>, m: nat) returns (c: seq<byte>)
    requires |a| == |b| && m <= |a| && DifferTwice(a[..m], b[..m])
    ensures Mix(a, b, c) && c[..m] != a[..m] && c[..m] != b[..m]
  {
    var p, q :| 0 <= p < q < m && a[..m][p] != b[..m][p] && a[..m][q] != b[..m][q];
    c := a[p := b[p]];
    assert c[..m][p] != a[..m][p] && c[..m][q] != b[..m][q];
  }

  /** If no mixture can be rejected by these bytes, every mixture yields something. */
  lemma {:induction false} MixtureYields(x: Context, f: Fields, n: Version, s: seq<byte>, buf: seq<byte>,
          area: seq<byte>, prior: Table)
    requires |s| >= HEADER_SIZE && |Serialize(n.header)| == HEADER_SIZE
    requires Mix(s[..HEADER_SIZE], Serialize(n.header), buf) && Mix(s[HEADER_SIZE..], n.Area(), area)
    requires Kin(f, s[..HEADER_SIZE]) && Kin(f, Serialize(n.header)) && Kin(f, buf)
    requires !Rejectable(x, f, s[..HEADER_SIZE], s[HEADER_SIZE..], n, prior)
    ensures SlotYield(x, f, buf, area, prior).Some?
  {
    hide Serialize, Kin, AllFields, Verifies, OpenedTable, Version.Area;
    var buf0, area0 := s[..HEADER_SIZE], s[HEADER_SIZE..];
    MixSlice(buf0, Serialize(n.header), buf, 0, 0xC0);
    assert buf0[..0xC0] == buf0[0..0xC0] && Serialize(n.header)[..0xC0] == Serialize(n.header)[0..0xC0];
    assert buf[..0xC0] == buf[0..0xC0];
    MixOfTwo(buf0[..0xC0], Serialize(n.header)[..0xC0], buf[..0xC0]);
    if SameFront(buf, buf0) { KinFront(f, buf, buf0); } else { KinFront(f, buf, Serialize(n.header)); }
    var m := AllFields(buf).fileTableSize;
    if m <= |area| {
      MixSlice(area0, n.Area(), area, 0, m);
      assert area0[..m] == area0[0..m] && n.Area()[..m] == n.Area()[0..m] && area[..m] == area[0..m];
      MixOfTwo(area0[..m], n.Area()[..m], area[..m]);
    }
  }

  /** Otherwise there is one that yields nothing. */
  lemma {:induction false} SomeMixtureRejected(x: Context, f: Fields, n: Version, s: seq<byte>, prior: Table)
    returns (buf: seq<byte>, area: seq<byte>)
    requires x.Ideal() && Proper(x, n) && Siblings(f, n.header) && |s| >= HEADER_SIZE && TornRejected(x, s, n)
    requires Rejectable(x, f, s[..HEADER_SIZE], s[HEADER_SIZE..], n, prior)
    ensures Mix(s[..HEADER_SIZE], Serialize(n.header), buf) && Mix(s[HEADER_SIZE..], n.Area(), area)
    ensures SlotYield(x, f, buf, area, prior) == None
  {
    hide Serialize, AllFields, Verifies, OpenedTable, Version.Area, Siblings, Context.Ideal, Proper;
    var buf0, area0 := s[..HEADER_SIZE], s[HEADER_SIZE..];
    buf, area := buf0, area0;
    if DifferTwice(buf0[..0xC0], Serialize(n.header)[..0xC0]) {
      buf := MixedBoth(buf0, Serialize(n.header), 0xC0);
      SiblingVerifies(x, f, n.header, buf);
    } else {
      if !AreaRejectable(x, f, buf0, area0, n.Area(), prior) { buf := Serialize(n.header); }
      var m := AllFields(buf).fileTableSize;
      if SlotYield(x, f, buf, area0, prior).Some? {
        if SlotYield(x, f, buf, n.Area(), prior).None? {
          area := n.Area();
        } else {
          area := MixedBoth(area0, n.Area(), m);
          AreaTorn(x, f, n, s, buf, area, prior);
        }
      }
    }
  }

  /** A mixture of the two table areas that is neither where the header announces the table. */
  lemma {:induction false} AreaTorn(x: Context, f: Fields, n: Version, s: seq<byte>, buf: seq<byte>, area: seq<byte>,
          prior: Table)
    requires Proper(x, n) && |s| >= HEADER_SIZE && TornRejected(x, s, n) && |buf| == HEADER_SIZE
    requires Mix(s[HEADER_SIZE..], n.Area(), area)
    requires var m := AllFields(buf).fileTableSize;
      m <= |area| && |n.Area()| == |area| && area[..m] != s[HEADER_SIZE..][..m] && area[..m] != n.Area()[..m]
    ensures SlotYield(x, f, buf, area, prior) == None
  {
    hide Serialize, AllFields, Verifies, Context.Ideal, Proper;
    ProperFields(x, n);
    var m := AllFields(buf).fileTableSize;
    Unseals(x, area[..m]);
    assert m == |n.enc| ==> n.Area()[..m] == n.enc;
    hide OpenedTable;
  }

  lemma {:induction false} MixedInto(d0: seq<byte>, off: nat, image: seq<byte>, buf: seq<byte>, area: seq<byte>)
    returns (d: seq<byte>)
    requires |buf| == HEADER_SIZE <= |image| && off + |image| <= |d0|
    requires Mix(d0[off..off + HEADER_SIZE], image[0..HEADER_SIZE], buf)
    requires Mix(d0[off + HEADER_SIZE..off + |image|], image[HEADER_SIZE..|image|], area)
    ensures |d| == |d0| && d[off..off + HEADER_SIZE] == buf && d[off + HEADER_SIZE..off + |image|] == area
    ensures forall p :: 0 <= p < |d| ==> d[p] == d0[p] || (off <= p < off + |image| && d[p] == image[p - off])
  {
    var l := |image|;
    d := d0[..off] + buf + area + d0[off + l..];
    forall p | 0 <= p < |d| ensures d[p] == d0[p] || (off <= p < off + l && d[p] == image[p - off]) {
      var q := p - off;
      if 0 <= q < HEADER_SIZE {
        assert d[p] == buf[q] && d0[off..off + HEADER_SIZE][q] == d0[p] && image[0..HEADER_SIZE][q] == image[q];
      } else if HEADER_SIZE <= q < l {
        assert d[p] == area[q - HEADER_SIZE] && d0[off + HEADER_SIZE..off + l][q - HEADER_SIZE] == d0[p];
        assert image[HEADER_SIZE..l][q - HEADER_SIZE] == image[q];
      }
    }
  }

  /** The crash state in which slot 0 holds given mixtures of the two headers and of the two table areas. */
  lemma {:induction false} TornInto(x: Context, v: Volume, w: Store, n: Version, buf: seq<byte>, area: seq<byte>,
          prior: Table)
    returns (d: seq<byte>)
    requires Updating(x, v, w, n, prior) && |v.G().slots| == 4
    requires var off, l := v.G().slots[0], |n.Image()|;
      && off + l <= |v.disk| && HEADER_SIZE <= l && |buf| == HEADER_SIZE
      && Mix(v.disk[off..off + HEADER_SIZE], Serialize(n.header), buf)
      && Mix(v.disk[off + HEADER_SIZE..off + l], n.Area(), area)
    ensures CrashState(v, w, n, 0, d) && Yield(x, d, v.G().slots[0], prior) == SlotYield(x, v.header, buf, area, prior)
  {
    hide Updating, Opening, ContainerGeometry, CrashState, Yield, SlotYield, Version.Image, Version.Area, Frame, Keyed;
    hide Kin, Siblings, Proper, Serialize, AllFields, KinAt, Context.Ideal, SlotOffsets;
    UpdatingFacts(x, v, w, n, prior);
    FrameFacts(v.G(), v, w, n);
    ProperFacts(x, n);
    ImageParts(n);
    var off, l := v.G().slots[0], |n.Image()|;
    d := MixedInto(v.disk, off, n.Image(), buf, area);
    PartlyWritten(v, w, n, d);
    CrashedKin(x, v, w, n, 0, d, prior);
    YieldIsSlotYield(x, v.header, d, off, prior);
  }

  /** Whether slot 0 can come to be rejected is decided by its bytes and the new ones. */
  lemma {:induction false} RejectedIff(x: Context, v: Volume, w: Store, n: Version, prior: Table)
    requires Updating(x, v, w, n, prior)
    ensures CanBeRejected(x, v, w, n, prior) <==> FirstRejectable(x, v, n, prior)
  {
    hide Updating, Opening, ContainerGeometry, CrashState, Yield, SlotYield, Version.Image, Version.Area, Frame, Keyed;
    hide Kin, Siblings, Proper, Serialize, AllFields, KinAt, Context.Ideal, SlotOffsets, Rejectable, TornRejected, Mix;
    hide Tearing;
    UpdatingFacts(x, v, w, n, prior);
    FrameFacts(v.G(), v, w, n);
    ProperFields(x, n);
    var off, l := v.G().slots[0], |n.Image()|;
    FirstSlotTorn(x, v, w, n, prior);
    var s := v.disk[off..off + l];
    assert s[..HEADER_SIZE] == v.disk[off..off + HEADER_SIZE] && s[HEADER_SIZE..] == v.disk[off + HEADER_SIZE..off + l];
    if FirstRejectable(x, v, n, prior) {
      var buf, area := SomeMixtureRejected(x, v.header, n, s, prior);
      MixLengths(s[..HEADER_SIZE], Serialize(n.header), buf);
      var d := TornInto(x, v, w, n, buf, area, prior);
    } else if CanBeRejected(x, v, w, n, prior) {
      var d :| CrashState(v, w, n, 0, d) && Yield(x, d, off, prior) == None;
      CrashTears(x, v, w, n, 0, d, prior);
      TearingParts(x, v.header, v.disk, d, off, n);
      TornHeader(x, v.header, v.disk, d, off, n);
      TornKinAt(x, v.header, v.disk, d, off, n);
      YieldIsSlotYield(x, v.header, d, off, prior);
      KinNow(x, v.header, v.disk, off, n);
      MixtureYields(x, v.header, n, s, d[off..off + HEADER_SIZE], d[off + HEADER_SIZE..off + l], prior);
    }
  }

  lemma {:induction false} FirstSlotTorn(x: Context, v: Volume, w: Store, n: Version, prior: Table)
    requires Updating(x, v, w, n, prior)
    ensures |v.G().slots| == 4 && SlotTornRejected(x, v.disk, v.G().slots[0], n)
    ensures KinAt(x, v.header, v.disk, v.G().slots[0])
  {
    hide Opening, ContainerGeometry, Proper, Keyed, Siblings, KinAt, SlotTornRejected, Context.Ideal;
  }

  lemma {:induction false} KinNow(x: Context, f: Fields, d: seq<byte>, off: nat, n: Version)
    requires KinAt(x, f, d, off) && f.WellFormed() && n.header.WellFormed() && Siblings(f, n.header)
    ensures off + HEADER_SIZE <= |d| && Kin(f, d[off..off + HEADER_SIZE]) && Kin(f, Serialize(n.header))
  {
    SiblingsKin(f, n.header);
    hide Kin, Serialize, Siblings, Verifies, AllFields, Fields.WellFormed;
  }

  /** The two conditions suffice. */
  lemma {:induction false} CurrentRecovers(x: Context, v: Volume, w: Store, n: Version, d: seq<byte>, prior: Table)
    requires Updating(x, v, w, n, prior) && CrashState(v, w, n, 0, d)
    requires AreaCurrent(x, v, n) && (FirstRejectable(x, v, n, prior) ==> BackupsCurrent(x, v, n, prior))
    ensures Recovers(x, v, n, d, prior)
  {
    hide FirstRejectable, Updating, Opening, ContainerGeometry, CrashState, Yield, FirstYield, OpenedTable, Tearing;
    hide Version.Image;
    UpdatingFacts(x, v, w, n, prior);
    RejectedIff(x, v, w, n, prior);
    OpensInFirst(x, v, w, n, d, prior);
    OldYield(x, v, w, n, prior);
    CrashTears(x, v, w, n, 0, d, prior);
    TornYield(x, v.header, v.disk, d, v.G().slots[0], n, prior);
  }

  /** The crash theorem for slot 0, exactly. A container that is cut off while slot 0 is being written
      reopens with the session's table or the new one, at whatever byte, if and only if the table area of
      slot 0 opens to nothing else at the new length, and (if some mixture of slot 0 and the new image is
      rejected, by the bytes of the two) the first of the other slots that yields anything holds one of the
      two. */
  lemma {:induction false} FirstRecoversIff(x: Context, v: Volume, w: Store, n: Version, prior: Table)
    requires Updating(x, v, w, n, prior)
    ensures FirstRecovers(x, v, w, n, prior)
      <==> AreaCurrent(x, v, n) && (FirstRejectable(x, v, n, prior) ==> BackupsCurrent(x, v, n, prior))
  {
    hide Updating, Opening, ContainerGeometry, CrashState, Yield, FirstYield, OpenedTable, Version.Image;
    hide FirstRejectable;
    RejectedIff(x, v, w, n, prior);
    if AreaCurrent(x, v, n) && (CanBeRejected(x, v, w, n, prior) ==> BackupsCurrent(x, v, n, prior)) {
      forall d | CrashState(v, w, n, 0, d) ensures Recovers(x, v, n, d, prior) {
        CurrentRecovers(x, v, w, n, d, prior);
      }
    }
    if FirstRecovers(x, v, w, n, prior) {
      var d := NewHeaderOldArea(x, v, w, n, prior);
      OpensInFirst(x, v, w, n, d, prior);
      assert Recovers(x, v, n, d, prior);
      if CanBeRejected(x, v, w, n, prior) {
        var d' :| CrashState(v, w, n, 0, d') && Yield(x, d', v.G().slots[0], prior) == None;
        OpensInFirst(x, v, w, n, d', prior);
        assert Recovers(x, v, n, d', prior);
      }
    }
  }

  /** Slot 0 can come to be rejected as soon as its first 192 bytes differ in two places from the new ones:
      it is if one of the two bytes is written alone. An update changes the version and the 32 bytes of the
      code. */
  lemma {:induction false} TwoDifferencesReject(x: Context, v: Volume, w: Store, n: Version, p: nat, q: nat,
          prior: Table)
    returns (d: seq<byte>)
    requires Updating(x, v, w, n, prior) && p < 0xC0 && q < 0xC0 && p != q
    requires |n.Image()| >= 0xC0 && v.G().slots[0] + 0xC0 <= |v.disk|
    requires v.disk[v.G().slots[0] + p] != n.Image()[p] && v.disk[v.G().slots[0] + q] != n.Image()[q]
    ensures d == v.disk[v.G().slots[0] + p := n.Image()[p]]
    ensures CrashState(v, w, n, 0, d) && Yield(x, d, v.G().slots[0], prior) == None && CanBeRejected(x, v, w, n, prior)
  {
    hide Updating, Opening, ContainerGeometry, CrashState, Yield, FirstYield, OpenedTable, Tearing, Version.Image;
    hide Frame, Keyed, Kin, Siblings, Proper, Serialize, AllFields, KinAt, Verifies;
    UpdatingFacts(x, v, w, n, prior);
    FrameFacts(v.G(), v, w, n);
    ProperFacts(x, n);
    ImageParts(n);
    var off := v.G().slots[0];
    d := v.disk[off + p := n.Image()[p]];
    PartlyWritten(v, w, n, d);
    CrashedKin(x, v, w, n, 0, d, prior);
    CrashTears(x, v, w, n, 0, d, prior);
    TornHeader(x, v.header, v.disk, d, off, n);
    KinYield(x, v.header, d, off, prior);
    var buf := d[off..off + HEADER_SIZE];
    assert buf[p] == n.Image()[p] && buf[q] == v.disk[off + q];
    assert v.disk[off..off + HEADER_SIZE][p] == v.disk[off + p];
    assert n.Image()[0..HEADER_SIZE][q] == n.Image()[q];
    assert Yield(x, d, off, prior) == None;
  }
}
