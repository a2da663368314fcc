/** Power loss while the first files of a new container are being stored: once the headers have been written
    and synchronised, creating is adding to an empty container (FileManager::write in
    src/FileManager.cpp). */
module Creation {
  import opened Bytes
  import opened Layout
  import opened Fragments
  import opened Chunks
  import opened Tables
  import opened Pipeline
  import opened Encrypt
  import opened Storing
  import opened Runs
  import opened Capacity
  import opened HeaderCodec
  import opened Slots
  import opened Recovery
  import opened Container
  import opened Adding
  import opened Sessions
  import opened Torn
  import opened Crash
  import opened Reopening

  /** The table in memory before anything has been read. */
  const NOTHING: Table := Table([], 0)

  /** The session in which opening would find the new container: no files, no end of data. */
  function Emptied(x: Context, f: Fields): Volume { Blank(x, f).(next := 0) }

  lemma {:induction false} BlankFacts(x: Context, f: Fields)
    requires x.Ideal() && Keyed(x, f) && Sized(f)
    ensures var v := Blank(x, f);
      && Keyed(x, v.header) && v.header.WellFormed() && Sized(v.header) && v.header.headerSize == HEADER_SIZE
      && v.header.fileTableSize == f.fileTableSize && v.header.maxTableSize == f.maxTableSize
      && v.header.containerSize == f.containerSize == |v.disk| && v.header == Coded(x.s, v.header)
      && |v.G().slots| == 4 && v.G().slots == SlotOffsets(|v.disk|) && v.G().reserved == HEADER_SIZE + f.maxTableSize
      && v.G().Separated() && v.G().Disjoint() && v.G().Inside(|v.disk|) && v.G().slots[0] == 0
  {
    hide HeaderCodec.Prefix, Serialize, SlotOffset, Fields.WellFormed, Ready, Keyed, Replicated;
    BlankReady(x, f);
    BlankKeyed(x, f);
    CodedTwice(x.s, f);
    var v := Blank(x, f);
    SizedFacts(v);
    SerializedLength(v.header);
    ReplicatedLength(v.G(), Zeros(f.containerSize), 4, Serialize(v.header));
  }

  /** Every slot holds the header. */
  lemma {:induction false} BlankSlot(x: Context, f: Fields, j: nat)
    requires x.Ideal() && Keyed(x, f) && Sized(f) && j < 4
    ensures var v := Blank(x, f);
      && |v.G().slots| == 4 && v.G().slots[j] + HEADER_SIZE + f.maxTableSize <= |v.disk|
      && |Serialize(v.header)| == HEADER_SIZE
      && v.disk[v.G().slots[j]..v.G().slots[j] + HEADER_SIZE] == Serialize(v.header)
  {
    hide Keyed, Sized, Coded, Blank, ContainerGeometry, Serialize, Geometry.Separated, Replicated, SlotOffsets;
    BlankFacts(x, f);
    var v := Blank(x, f);
    SerializedLength(v.header);
    BlankDisk(x, f);
    ReplicatedEverywhere(v.G(), Zeros(f.containerSize), Serialize(v.header), j);
  }

  lemma {:induction false} ReplicatedEverywhere(g: Geometry, disk: seq<byte>, bytes: seq<byte>, j: nat)
    requires j < |g.slots| && |bytes| <= g.reserved && g.Disjoint() && g.Inside(|disk|)
    ensures var r := Replicated(disk, g.slots, |g.slots|, bytes);
      |r| == |disk| && g.slots[j] + |bytes| <= |disk| && r[g.slots[j]..g.slots[j] + |bytes|] == bytes
  {
    hide Replicated;
    var r, off := Replicated(disk, g.slots, |g.slots|, bytes), g.slots[j];
    ReplicatedLength(g, disk, |g.slots|, bytes);
    forall p: nat | p < |bytes| ensures r[off..off + |bytes|][p] == bytes[p] {
      ReplicatedAt(g, disk, |g.slots|, bytes, off + p);
    }
  }

  lemma {:induction false} BlankDisk(x: Context, f: Fields)
    ensures var v := Blank(x, f);
      v.disk == Replicated(Zeros(f.containerSize), v.G().slots, |v.G().slots|, Serialize(v.header))
  {
  }

  lemma {:induction false} CodedVerifies(x: Context, f: Fields)
    requires f.WellFormed() && f == Coded(x.s, f)
    ensures Verifies(x, f, Serialize(f))
  {
    hide Serialize, HeaderCodec.Prefix, Fits;
    ProtectedPart(f);
    PrefixLength(f, 23);
  }

  /** A header without a table yields the table in memory. */
  lemma {:induction false} BlankYields(x: Context, f: Fields, j: nat, prior: Table)
    requires x.Ideal() && Keyed(x, f) && Sized(f) && f.fileTableSize == 0 && j < 4
    ensures var v := Blank(x, f);
      && |v.G().slots| == 4 && KinAt(x, v.header, v.disk, v.G().slots[j])
      && Yield(x, v.disk, v.G().slots[j], prior) == Some(Meta(v.header, x.dek, prior))
  {
    hide Keyed, Sized, Coded, Blank, ContainerGeometry, Serialize, Geometry.Separated, AllFields, Verifies, Yield;
    hide Fields.WellFormed;
    BlankFacts(x, f);
    BlankSlot(x, f, j);
    var v := Blank(x, f);
    var h, off := v.header, v.G().slots[j];
    KeyedFormat(x, h);
    RoundTrip(h);
    CodedVerifies(x, h);
    KinYield(x, h, v.disk, off, prior);
  }

  /** A new container is one that can be opened, with no files. */
  lemma {:induction false} EmptiedAlive(x: Context, f: Fields)
    requires x.Ideal() && Keyed(x, f) && Sized(f) && f.fileTableSize == 0 && f.containerSize >= MINIMAL_CONTAINER_SIZE
    ensures Alive(x, Emptied(x, f), [], NOTHING) && Emptied(x, f).disk == Blank(x, f).disk
  {
    hide Keyed, Sized, Coded, Blank, ContainerGeometry, Yield, FirstYield, Opening, Fields.WellFormed, KinAt;
    hide Geometry.Skip, Geometry.Separated, SlotOffsets;
    BlankFacts(x, f);
    var v := Blank(x, f);
    forall j | 0 <= j < |v.G().slots| ensures KinAt(x, v.header, v.disk, v.G().slots[j]) {
      BlankYields(x, f, j, NOTHING);
    }
    BlankYields(x, f, 0, NOTHING);
    OpeningIsFirst(x, v.header, v.disk, NOTHING);
    FirstYieldStep(x, v.disk, v.G().slots, 0, NOTHING);
    BlankNothing(x, f);
  }

  lemma {:induction false} BlankNothing(x: Context, f: Fields)
    ensures Blank(x, f).entries == [] && Emptied(x, f).Tab() == NOTHING && Emptied(x, f).G() == Blank(x, f).G()
    ensures Emptied(x, f).header == Blank(x, f).header
  {
  }

  /** Storing the first files starts at the same place as an add to the empty container. */
  lemma {:induction false} SameStart(x: Context, f: Fields)
    requires x.Ideal() && Keyed(x, f) && Sized(f)
    ensures StartOf(Emptied(x, f)) == StartOf(Blank(x, f))
  {
    hide Keyed, Sized, Coded, Blank, Emptied, ContainerGeometry, Geometry.Skip, Geometry.Separated;
    BlankFacts(x, f);
    BlankReady(x, f);
    KeyedHeaderSize(x, f);
    SkipFirst(Blank(x, f).G());
    StartDepends(Blank(x, f), 0);
    assert Emptied(x, f) == Blank(x, f).(next := 0) by { EmptiedIs(x, f); }
  }

  lemma {:induction false} EmptiedIs(x: Context, f: Fields)
    ensures Emptied(x, f) == Blank(x, f).(next := 0)
  {
  }

  lemma {:induction false} StartDepends(v: Volume, next: nat)
    requires v.G().Skip(next) == v.G().Skip(v.next)
    ensures StartOf(v.(next := next)) == StartOf(v)
  {
  }

  lemma {:induction false} SkipFirst(g: Geometry)
    requires g.Separated() && |g.slots| > 0 && g.slots[0] == 0
    ensures g.Skip(0) == g.reserved == g.Skip(g.reserved)
  {
    assert g.SkipFrom(0, 0) == g.reserved;
    forall i | 0 <= i < |g.slots| ensures !(g.slots[i] <= g.reserved < g.slots[i] + g.reserved) { }
    SkipIsLeast(g, g.reserved);
  }

  lemma {:induction false} EmptiedAccepts(x: Context, f: Fields, files: seq<InputFile>)
    requires x.Ideal() && Keyed(x, f) && Sized(f) && !CreateRefused(f, files)
    ensures !Refused(Emptied(x, f), files)
  {
    hide Keyed, Sized, Coded, Fields.WellFormed, Blank, ContainerGeometry, DataBytes, Required, Refused;
    BlankFacts(x, f);
    KeyedHeaderSize(x, f);
    SizedParts(f);
    AvailableExact(f.containerSize, f.headerSize + f.maxTableSize);
    BlankNothing(x, f);
    RefusedExactly(Emptied(x, f), files);
    BlankReady(x, f);
  }

  lemma {:induction false} SizedParts(f: Fields)
    requires Sized(f)
    ensures 4 * HEADER_SIZE * ((f.headerSize + f.maxTableSize) / HEADER_SIZE + 1) <= f.containerSize
    ensures f.containerSize <= MAX_CONTAINER_SIZE
  {
  }

  /** A successful creation is, from the moment its headers are on the device, a successful add to a
      container as opening finds it, so everything proved of adds that are cut off holds of it. */
  lemma {:induction false} CreationIsAdd(x: Context, f: Fields, files: seq<InputFile>, nonces: nat -> seq<byte>,
          nonce: seq<byte>, v: Volume)
    requires x.Ideal() && Keyed(x, f) && Sized(f) && f.fileTableSize == 0 && f.containerSize >= MINIMAL_CONTAINER_SIZE
    requires Create(x, f, files, OneThread(x, Blank(x, f), files, nonces), nonce) == Some(Going(v))
    ensures var u := Emptied(x, f);
      && Underway(x, u, [], files, nonces, nonce, NOTHING) && u.disk == Blank(x, f).disk
      && Add(x, u, files, OneThread(x, u, files, nonces), nonce) == Going(v)
  {
    hide Keyed, Sized, Blank, ContainerGeometry, Alive, CreateRefused, Encrypted, Refused, StartOf;
    EmptiedAlive(x, f);
    SameStart(x, f);
    EmptiedAccepts(x, f, files);
    BlankNothing(x, f);
    var run := OneThread(x, Blank(x, f), files, nonces);
    assert OneThread(x, Emptied(x, f), files, nonces) == run;
    FinishAnyNext(x, Blank(x, f), 0, run, nonce);
  }

  lemma {:induction false} FinishAnyNext(x: Context, v: Volume, next: nat, run: Outcome<Store>, nonce: seq<byte>)
    ensures Finish(x, v, run, nonce).Going? ==>
      run.Going? && Finish(x, v.(next := next), run, nonce) == Finish(x, v, run, nonce)
  {
    hide SaveTable;
    if run.Going? {
      assert After(v, run.w).(next := run.w.offset) == After(v.(next := next), run.w).(next := run.w.offset);
    }
  }
}
