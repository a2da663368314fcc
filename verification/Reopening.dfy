/** Sessions that are cut off and reopened: what an interrupted add leaves of the stored files, and whole
    histories of adds, some of them cut off (add, writeFileTableToAllSlots, init and readMeta in
    src/FileManager.cpp). */
module Reopening {
  import opened Bytes
  import opened Layout
  import opened Fragments
  import opened Chunks
  import opened Sealing
  import opened Tables
  import opened Pipeline
  import opened Encrypt
  import opened Storing
  import opened HeaderCodec
  import opened Slots
  import opened Recovery
  import opened Container
  import opened Adding
  import opened Torn
  import opened Crash
  import opened Sessions
  import opened Runs
  import Decrypt
  import Delivery

  /** What the writer of an add leaves. */
  function Written(x: Context, v: Volume, files: seq<InputFile>, nonces: nat -> seq<byte>): Store {
    OneThread(x, v, files, nonces).w
  }

  /** The header and table an add is about to write to the slots. */
  function Upcoming(x: Context, v: Volume, files: seq<InputFile>, nonces: nat -> seq<byte>, nonce: seq<byte>): Version {
    NewVersion(x, v, Written(x, v, files, nonces), nonce)
  }

  /** An add that succeeds if nothing cuts it off, in a session as opening leaves it. */
  ghost predicate Underway(x: Context, v: Volume, contents: seq<seq<byte>>, files: seq<InputFile>,
          nonces: nat -> seq<byte>, nonce: seq<byte>, prior: Table)
  {
    && x.Ideal() && Alive(x, v, contents, prior)
    && OneThread(x, v, files, nonces).Going?
    && Add(x, v, files, OneThread(x, v, files, nonces), nonce).Going?
  }

  lemma {:induction false} NewVersionProper(x: Context, v: Volume, w: Store, nonce: seq<byte>)
    requires x.Ideal() && Keyed(x, v.header) && 0 < w.offset && SaveTable(x, BeforeSave(v, w), nonce).Going?
    ensures var n := NewVersion(x, v, w, nonce);
      && Proper(x, n) && Siblings(v.header, n.header)
      && SaveTable(x, BeforeSave(v, w), nonce).w
           == Volume(Replicated(w.disk, v.G().slots, |v.G().slots|, n.Image()), n.header, w.entries, w.offset)
  {
    hide Keyed, Saved, Serialize, Replicated, Context.Ideal, HeaderCodec.Prefix, ContainerGeometry;
    AfterFacts(x, v, w);
    NextHeaderSaved(x, BeforeSave(v, w).header, BeforeSave(v, w).Tab(), nonce);
  }

  lemma {:induction false} AliveFacts(x: Context, v: Volume, contents: seq<seq<byte>>, prior: Table)
    requires Alive(x, v, contents, prior)
    ensures Ready(x, v, contents) && Keyed(x, v.header) && Sized(v.header) && v.header.headerSize == HEADER_SIZE
    ensures |v.disk| == v.header.containerSize && v.disk != [] && v.header.containerSize >= MINIMAL_CONTAINER_SIZE
    ensures KinSlots(x, v.header, v.disk, v.G().slots) && v.G().slots == SlotOffsets(|v.disk|) && |v.G().slots| == 4
    ensures Opening(x.s, v.disk, prior) == Some(Meta(v.header, x.dek, v.Tab()))
    ensures Library(x.c, v.G(), v.disk, v.entries, contents, v.G().Skip(v.next))
  {
    hide Keyed, Sized, Library, KinAt, Scan, SlotOffset;
    KeyedHeaderSize(x, v.header);
  }

  /** The two states of the file between which the slots are rewritten. */
  lemma {:induction false} AddWrites(x: Context, v: Volume, contents: seq<seq<byte>>, files: seq<InputFile>,
          nonces: nat -> seq<byte>, nonce: seq<byte>)
    requires x.Ideal() && Ready(x, v, contents) && OneThread(x, v, files, nonces).Going?
    requires Add(x, v, files, OneThread(x, v, files, nonces), nonce).Going?
    ensures var w, g := Written(x, v, files, nonces), v.G();
      && |w.disk| == |v.disk| && v.next <= g.Skip(v.next) <= w.offset && 0 < w.offset <= v.header.containerSize
      && (forall p :: 0 <= p < |v.disk| && (g.InSlot(p) || p < g.Skip(v.next)) ==> w.disk[p] == v.disk[p])
      && Library(x.c, g, w.disk, w.entries, contents + ContentsOf(files), w.offset)
      && w.entries == EntriesAfter(x.c, g, v.entries, g.Skip(v.next), files)
      && SaveTable(x, BeforeSave(v, w), nonce).Going?
      && Add(x, v, files, OneThread(x, v, files, nonces), nonce) == SaveTable(x, BeforeSave(v, w), nonce)
  {
    hide Keyed, Sized, Library, OneThread, EntriesAfter, OffsetAfter, Context.Ideal, SaveTable, After, StoredFirst;
    hide Geometry.Skip, ContainerGeometry;
    Accepted(x, v, contents, files);
    hide Refused;
    var k := RunOutcome(x, v, contents, files, nonces);
    assert files[..k] == files;
    StoredFirstFacts(x.c, v.G(), StartOf(v), files, contents, k, OneThread(x, v, files, nonces).w);
  }

  /** In a session whose files are `contents`, the writer of an add has left `w`, with new files `more`, and
      the version `n` is being written over the slots. */
  ghost predicate Saving(x: Context, v: Volume, contents: seq<seq<byte>>, w: Store, n: Version, more: seq<seq<byte>>,
          prior: Table)
  {
    var g := v.G();
    && Updating(x, v, w, n, prior) && Sized(v.header) && |v.disk| == v.header.containerSize == |w.disk|
    && g.Separated() && n.table == Table(w.entries, w.offset) && v.next <= g.Skip(v.next) <= w.offset <= |v.disk|
    && (forall p :: 0 <= p < |v.disk| && (g.InSlot(p) || p < g.Skip(v.next)) ==> w.disk[p] == v.disk[p])
    && Library(x.c, g, v.disk, v.entries, contents, g.Skip(v.next))
    && Library(x.c, g, w.disk, w.entries, contents + more, w.offset)
  }

  /** Every add that is under way gets there. */
  lemma {:induction false} UnderwaySaves(x: Context, v: Volume, contents: seq<seq<byte>>, files: seq<InputFile>,
          nonces: nat -> seq<byte>, nonce: seq<byte>, prior: Table)
    requires Underway(x, v, contents, files, nonces, nonce, prior)
    requires AllTornRejected(x, v, Upcoming(x, v, files, nonces, nonce))
    ensures var w, n := Written(x, v, files, nonces), Upcoming(x, v, files, nonces, nonce);
      && Saving(x, v, contents, w, n, ContentsOf(files), prior)
      && Add(x, v, files, OneThread(x, v, files, nonces), nonce).w
           == Volume(Replicated(w.disk, v.G().slots, |v.G().slots|, n.Image()), n.header, w.entries, w.offset)
  {
    hide Alive, Library, Context.Ideal, SaveTable, OneThread, ContainerGeometry, Geometry.InSlot, NextHeader, Keyed;
    hide Sized, EntriesAfter, Ready, Proper, Serialize, Opening, KinAt, AllTornRejected, Siblings, SlotBytes;
    hide Version.Image, Geometry.Separated, Add, SlotOffsets;
    AliveFacts(x, v, contents, prior);
    AddWrites(x, v, contents, files, nonces, nonce);
    var w, n := Written(x, v, files, nonces), Upcoming(x, v, files, nonces, nonce);
    NewVersionProper(x, v, w, nonce);
    SizedFacts(v);
    ProperFacts(x, n);
    ImageParts(n);
    SiblingsFacts(v.header, n.header);
    hide BeforeSave, Replicated;
  }

  // ---- Stored files after the crash ----

  lemma {:induction false} IntactBelow(c: Crypto, g: Geometry, d: seq<byte>, d': seq<byte>, e: FileEntry,
          content: seq<byte>, next: nat)
    requires g.Separated() && Intact(c, g, d, e, content) && |d| <= |d'| && ExtentEnd(g, e) <= next
    requires forall p :: 0 <= p < |d| && p < next && !g.InSlot(p) ==> d'[p] == d[p]
    ensures Intact(c, g, d', e, content)
  {
    hide Stored, End, Split, Geometry.InSlot;
    AccountingAgrees(content);
    StoredDependsOn(c, g, d, d', e.offset, Split(content));
  }

  /** Stored files depend on nothing but the data bytes below the end of data. */
  lemma {:induction false} AllIntactBelow(c: Crypto, g: Geometry, d: seq<byte>, d': seq<byte>, entries: seq<FileEntry>,
          contents: seq<seq<byte>>, next: nat)
    requires g.Separated() && Library(c, g, d, entries, contents, next) && |d| <= |d'|
    requires forall p :: 0 <= p < |d| && p < next && !g.InSlot(p) ==> d'[p] == d[p]
    ensures AllIntact(c, g, d', entries, contents) && Library(c, g, d', entries, contents, next)
  {
    hide Intact, ExtentEnd, DistinctNames, Geometry.InSlot, Geometry.Separated;
    forall i | 0 <= i < |entries| ensures Intact(c, g, d', entries[i], contents[i]) {
      IntactBelow(c, g, d, d', entries[i], contents[i], next);
    }
  }

  /** Whatever the crash has left, the old files are intact; once slot 0 is complete, so are the new ones. */
  lemma {:induction false} FilesAfterCrash(x: Context, v: Volume, contents: seq<seq<byte>>, w: Store, n: Version,
          more: seq<seq<byte>>, i: nat, d: seq<byte>, prior: Table)
    requires Saving(x, v, contents, w, n, more, prior) && CrashState(v, w, n, i, d)
    ensures |d| == |v.disk| && Library(x.c, v.G(), d, v.entries, contents, v.G().Skip(v.next))
    ensures i > 0 ==> Library(x.c, v.G(), d, w.entries, contents + more, w.offset)
  {
    hide Library, Geometry.InSlot, Geometry.Separated, ContainerGeometry, Updating, CrashState, Geometry.Skip;
    hide Version.Image, Volume.G, Sized;
    var g := v.G();
    UpdatingFacts(x, v, w, n, prior);
    CrashedData(g, v, w, n, i, d);
    AllIntactBelow(x.c, g, v.disk, d, v.entries, contents, g.Skip(v.next));
    if i > 0 {
      AllIntactBelow(x.c, g, w.disk, d, w.entries, contents + more, w.offset);
    }
  }

  lemma {:induction false} LibraryIntact(c: Crypto, g: Geometry, d: seq<byte>, entries: seq<FileEntry>,
          contents: seq<seq<byte>>, next: nat)
    requires Library(c, g, d, entries, contents, next)
    ensures AllIntact(c, g, d, entries, contents)
  {
  }

  /** What an add that is cut off while slot 0 is being written can check before it starts. */
  predicate SlotsCurrent(x: Context, v: Volume, n: Version, prior: Table) {
    AreaCurrent(x, v, n) && (FirstRejectable(x, v, n, prior) ==> BackupsCurrent(x, v, n, prior))
  }

  /** The crash theorem. At whatever byte an add is cut off, and whatever mixture of old and new bytes
      the slot in progress holds, reopening recovers exactly the old or exactly the new table, and the
      new one as soon as one slot is complete; for a cut in slot 0 this holds under the exact condition of
      FirstRecoversIff. The old files are intact in every case; all files the new table lists are intact
      once a slot is complete. */
  lemma {:induction false} CrashAtomic(x: Context, v: Volume, contents: seq<seq<byte>>, files: seq<InputFile>,
          nonces: nat -> seq<byte>, nonce: seq<byte>, i: nat, d: seq<byte>, prior: Table)
    requires Underway(x, v, contents, files, nonces, nonce, prior)
    requires AllTornRejected(x, v, Upcoming(x, v, files, nonces, nonce))
    requires CrashState(v, Written(x, v, files, nonces), Upcoming(x, v, files, nonces, nonce), i, d)
    ensures var v', r := Add(x, v, files, OneThread(x, v, files, nonces), nonce).w, Opening(x.s, d, prior);
      && (i == 0 && SlotsCurrent(x, v, Upcoming(x, v, files, nonces, nonce), prior) ==>
           r.Some? && (r.value.table == v.Tab() || r.value.table == v'.Tab()))
      && (i > 0 ==> r == Some(Meta(v'.header, x.dek, v'.Tab())))
      && AllIntact(x.c, v.G(), d, v.entries, contents)
      && (i > 0 ==> AllIntact(x.c, v.G(), d, v'.entries, contents + ContentsOf(files)))
  {
    hide Underway, Library, AllIntact, Geometry.Separated, ContainerGeometry, Updating, AllTornRejected, CrashState;
    hide Written, Upcoming, Geometry.Skip, Add, SaveTable, Version.Image, Replicated, Volume.G, Opening, AreaCurrent;
    hide BackupsCurrent, FirstRejectable, OneThread;
    var w, n := Written(x, v, files, nonces), Upcoming(x, v, files, nonces, nonce);
    UnderwaySaves(x, v, contents, files, nonces, nonce, prior);
    FilesAfterCrash(x, v, contents, w, n, ContentsOf(files), i, d, prior);
    LibraryIntact(x.c, v.G(), d, v.entries, contents, v.G().Skip(v.next));
    if i > 0 {
      LibraryIntact(x.c, v.G(), d, w.entries, contents + ContentsOf(files), w.offset);
      OpensNew(x, v, w, n, i, d, prior);
    } else if SlotsCurrent(x, v, n, prior) {
      CurrentRecovers(x, v, w, n, d, prior);
    }
  }

  // ---- The session after reopening ----

  /** init with an existing file: the header and table in memory are those that were found. */
  function Reopened(d: seq<byte>, m: Meta): Volume { Volume(d, m.header, m.table.entries, m.table.next) }

  lemma {:induction false} FoundHeader(x: Context, f: Fields, d: seq<byte>, m: Meta, prior: Table)
    requires Keyed(x, f) && d != [] && KinSlots(x, f, d, SlotOffsets(|d|)) && Opening(x.s, d, prior) == Some(m)
    ensures m.dek == x.dek && Siblings(f, m.header) && Keyed(x, m.header) && f.WellFormed() && m.header.WellFormed()
    ensures KinSlots(x, m.header, d, SlotOffsets(|d|))
  {
    hide Keyed, KinAt, SlotOffset, Opening, FirstYield, Siblings, Fields.WellFormed;
    OpeningIsFirst(x, f, d, prior);
    FirstYieldKeyed(x, f, d, SlotOffsets(|d|), 0, prior);
    KeyedHeaderSize(x, f);
    KeyedHeaderSize(x, m.header);
    forall j | 0 <= j < 4 ensures KinAt(x, m.header, d, SlotOffsets(|d|)[j]) {
      KinAtSibling(x, f, m.header, d, SlotOffsets(|d|)[j]);
    }
  }

  /** What opening finds makes a session if the listed files are intact. */
  lemma {:induction false} SessionFound(x: Context, v: Volume, d: seq<byte>, m: Meta, contents: seq<seq<byte>>,
          prior: Table)
    requires Keyed(x, v.header) && Sized(v.header) && |v.disk| == v.header.containerSize == |d| && d != []
    requires KinSlots(x, v.header, d, v.G().slots) && Opening(x.s, d, prior) == Some(m)
    requires Library(x.c, v.G(), d, m.table.entries, contents, v.G().Skip(m.table.next)) && m.table.next <= |d|
    ensures Alive(x, Reopened(d, m), contents, prior)
  {
    hide Keyed, KinAt, SlotOffset, Opening, Siblings, Fields.WellFormed, Library, Geometry.Skip;
    FoundHeader(x, v.header, d, m, prior);
    SiblingsFacts(v.header, m.header);
    assert Reopened(d, m).Tab() == m.table;
  }

  /** Reopening after a crash gives a session again: with the old table and all old files, with the new
      table and all files once slot 0 was complete, and, if the new table is found although it was not,
      exactly if the new files are intact as well. */
  lemma {:induction false} ReopenedAlive(x: Context, v: Volume, contents: seq<seq<byte>>, w: Store, n: Version,
          more: seq<seq<byte>>, i: nat, d: seq<byte>, m: Meta, prior: Table)
    requires Saving(x, v, contents, w, n, more, prior) && CrashState(v, w, n, i, d)
    requires Opening(x.s, d, prior) == Some(m)
    ensures m.table == v.Tab() ==> Alive(x, Reopened(d, m), contents, prior)
    ensures i > 0 ==> m.table == n.table && Alive(x, Reopened(d, m), contents + more, prior)
    ensures m.table == n.table ==>
      (Alive(x, Reopened(d, m), contents + more, prior)
       <==> AllIntact(x.c, v.G(), d, m.table.entries, contents + more))
  {
    hide Library, AllIntact, Geometry.Separated, ContainerGeometry, Updating, CrashState, Alive, Keyed, Sized;
    hide Geometry.Skip, Version.Image, Opening, KinSlots, SlotOffsets, Reopened, Geometry.InSlot;
    UpdatingFacts(x, v, w, n, prior);
    FilesAfterCrash(x, v, contents, w, n, more, i, d, prior);
    CrashedKin(x, v, w, n, i, d, prior);
    var g, all := v.G(), contents + more;
    if m.table == v.Tab() {
      SessionFound(x, v, d, m, contents, prior);
    }
    if i > 0 {
      OpensNew(x, v, w, n, i, d, prior);
      LibraryIntact(x.c, g, d, w.entries, all, w.offset);
    }
    if m.table == n.table {
      if AllIntact(x.c, g, d, m.table.entries, all) {
        LibraryOrdered(x.c, g, w.disk, w.entries, all, w.offset);
        SkipIsLeast(g, w.offset);
        IntactLibrary(x.c, g, d, w.entries, all, w.offset, g.Skip(w.offset));
        SessionFound(x, v, d, m, all, prior);
      }
      if Alive(x, Reopened(d, m), all, prior) {
        AliveIntact(x, v, d, m, all, prior);
      }
    }
  }

  lemma {:induction false} IntactLibrary(c: Crypto, g: Geometry, d: seq<byte>, entries: seq<FileEntry>,
          contents: seq<seq<byte>>, next: nat, later: nat)
    requires AllIntact(c, g, d, entries, contents) && Ordered(g, entries, next) && next <= later
    ensures Library(c, g, d, entries, contents, later)
  {
    hide AllIntact;
    LibraryFrom(c, g, d, entries, contents, next, later);
  }

  lemma {:induction false} AliveIntact(x: Context, v: Volume, d: seq<byte>, m: Meta, contents: seq<seq<byte>>,
          prior: Table)
    requires Keyed(x, v.header) && d != [] && KinSlots(x, v.header, d, SlotOffsets(|d|))
    requires Opening(x.s, d, prior) == Some(m)
    requires Alive(x, Reopened(d, m), contents, prior)
    ensures AllIntact(x.c, v.G(), d, m.table.entries, contents)
  {
    hide Keyed, KinSlots, Opening, Siblings, AllIntact, Sized, Geometry.Skip, SlotOffset, Ordered;
    FoundHeader(x, v.header, d, m, prior);
    SiblingsFacts(v.header, m.header);
  }

  // ---- Data that was not yet durable ----

  /** Reads that agree have read the same bytes. */
  lemma {:induction false} GetReveals(g: Geometry, d: seq<byte>, d': seq<byte>, off: nat, n: nat, p: nat)
    requires g.Separated() && Get(g, d, off, n).Some? && Get(g, d', off, n) == Get(g, d, off, n)
    requires off <= p < End(g, off, n) && !g.InSlot(p)
    ensures p < |d| && p < |d'| && d[p] == d'[p]
    decreases n
  {
    if n > 0 {
      var cur := g.Skip(off);
      SkipIsLeast(g, off);
      var r, r' := Get(g, d, cur + 1, n - 1), Get(g, d', cur + 1, n - 1);
      assert Get(g, d, off, n).value[0] == d[cur] && Get(g, d', off, n).value[0] == d'[cur];
      assert Get(g, d, off, n).value[1..] == r.value && Get(g, d', off, n).value[1..] == r'.value;
      if p != cur {
        GetReveals(g, d, d', cur + 1, n - 1, p);
      }
    }
  }

  /** Where `d1` holds a sealed block, `d` does not hold another string that opens to the same block. */
  ghost predicate NoSubstitute(c: Crypto, g: Geometry, d1: seq<byte>, d: seq<byte>) {
    forall off: nat, n: nat ::
      (&& Get(g, d1, off, n).Some? && Get(g, d, off, n).Some? && c.unseal(Get(g, d1, off, n).value).Some?
       && c.unseal(Get(g, d, off, n).value) == c.unseal(Get(g, d1, off, n).value)) ==>
        Get(g, d, off, n) == Get(g, d1, off, n)
  }

  lemma {:induction false} StoredReveals(c: Crypto, g: Geometry, d1: seq<byte>, d: seq<byte>, off: nat,
          blocks: seq<seq<byte>>, p: nat)
    requires g.Separated() && NoSubstitute(c, g, d1, d) && Stored(c, g, d1, off, blocks) && Stored(c, g, d, off, blocks)
    requires off <= p < End(g, off, SealedSize(blocks)) && !g.InSlot(p)
    ensures p < |d1| && p < |d| && d[p] == d1[p]
    decreases |blocks|
  {
    hide Get, End, Stored;
    if blocks == [] {
      Nothing(g, d, off);
    } else {
      var n := |blocks[0]| + OVERHEAD;
      StoredStep(c, g, d1, off, blocks);
      StoredStep(c, g, d, off, blocks);
      EndCompose(g, off, n, SealedSize(blocks[1..]));
      if p < End(g, off, n) {
        GetReveals(g, d, d1, off, n, p);
      } else {
        StoredReveals(c, g, d1, d, End(g, off, n), blocks[1..], p);
      }
    }
  }

  /** The data bytes of an entry's extent are the same in both files. */
  ghost predicate Persisted(g: Geometry, d1: seq<byte>, d: seq<byte>, e: FileEntry) {
    forall p :: 0 <= p < |d1| && p < |d| && e.offset <= p < ExtentEnd(g, e) && !g.InSlot(p) ==> d[p] == d1[p]
  }

  lemma {:induction false} EntryIntactIff(c: Crypto, g: Geometry, d1: seq<byte>, d: seq<byte>, e: FileEntry,
          content: seq<byte>)
    requires g.Separated() && |d1| == |d| && Intact(c, g, d1, e, content) && NoSubstitute(c, g, d1, d)
    ensures Intact(c, g, d, e, content) <==> Persisted(g, d1, d, e)
  {
    hide Stored, End, Split, NoSubstitute;
    AccountingAgrees(content);
    if Persisted(g, d1, d, e) {
      StoredDependsOn(c, g, d1, d, e.offset, Split(content));
    }
    if Intact(c, g, d, e, content) {
      forall p | 0 <= p < |d1| && p < |d| && e.offset <= p < ExtentEnd(g, e) && !g.InSlot(p)
        ensures d[p] == d1[p]
      {
        StoredReveals(c, g, d1, d, e.offset, Split(content), p);
      }
    }
  }

  /** The files of a table are intact in a file exactly if all their data bytes are there. */
  lemma {:induction false} IntactIffPersisted(c: Crypto, g: Geometry, d1: seq<byte>, d: seq<byte>,
          entries: seq<FileEntry>, contents: seq<seq<byte>>)
    requires g.Separated() && |d1| == |d| && AllIntact(c, g, d1, entries, contents) && NoSubstitute(c, g, d1, d)
    ensures AllIntact(c, g, d, entries, contents)
      <==> forall i :: 0 <= i < |entries| ==> Persisted(g, d1, d, entries[i])
  {
    hide Intact, NoSubstitute, Persisted, Geometry.Separated;
    forall i | 0 <= i < |entries|
      ensures Intact(c, g, d, entries[i], contents[i]) <==> Persisted(g, d1, d, entries[i])
    {
      EntryIntactIff(c, g, d1, d, entries[i], contents[i]);
    }
  }

  /** When reopening finds the new table although slot 0 had not been synchronised, the session is usable
      exactly if all data bytes of the listed files had reached the device. */
  lemma {:induction false} NewTableUsableIff(x: Context, v: Volume, contents: seq<seq<byte>>, w: Store, n: Version,
          more: seq<seq<byte>>, d: seq<byte>, m: Meta, prior: Table)
    requires Saving(x, v, contents, w, n, more, prior) && CrashState(v, w, n, 0, d)
    requires Opening(x.s, d, prior) == Some(m) && m.table == n.table && NoSubstitute(x.c, v.G(), w.disk, d)
    ensures Alive(x, Reopened(d, m), contents + more, prior)
      <==> forall j :: 0 <= j < |m.table.entries| ==> Persisted(v.G(), w.disk, d, m.table.entries[j])
  {
    hide Library, AllIntact, Geometry.Separated, ContainerGeometry, Updating, CrashState, Alive, Geometry.Skip, Opening;
    hide Reopened, Persisted, NoSubstitute, Geometry.InSlot, Sized;
    ReopenedAlive(x, v, contents, w, n, more, 0, d, m, prior);
    FilesAfterCrash(x, v, contents, w, n, more, 0, d, prior);
    LibraryIntact(x.c, v.G(), w.disk, w.entries, contents + more, w.offset);
    IntactIffPersisted(x.c, v.G(), w.disk, d, w.entries, contents + more);
  }

  /** The crash state in which slot 0 is complete and one data byte of a new file is still the old one. */
  function LostByte(v: Volume, w: Store, n: Version, p: nat): seq<byte>
    requires p < |v.disk| && p < |Durable(v, w, n, 1)|
  {
    Durable(v, w, n, 1)[p := v.disk[p]]
  }

  lemma {:induction false} LostByteState(g: Geometry, v: Volume, w: Store, n: Version, p: nat)
    requires Frame(g, v, w, n) && p < |v.disk| && !g.InSlot(p)
    ensures |g.slots| == 4 && |Durable(v, w, n, 1)| == |v.disk| == |w.disk|
    ensures CrashState(v, w, n, 0, LostByte(v, w, n, p))
    ensures Holds(LostByte(v, w, n, p), g.slots[0], n.Image()) && LostByte(v, w, n, p)[p] == v.disk[p]
  {
    DurableSlots(g, v, w, n, 1);
    FrameFacts(g, v, w, n);
    NoneDurable(v, w, n);
    hide Version.Image, Replicated, ContainerGeometry, SlotOffsets, Durable;
    var d1, d, off := Durable(v, w, n, 1), LostByte(v, w, n, p), g.slots[0];
    assert forall q :: off <= q < off + g.reserved ==> g.InSlot(q);
    assert d[off..off + g.reserved] == d1[off..off + g.reserved];
  }

  /** No synchronisation separates the data from slot 0, so power loss can leave a complete slot 0 whose
      new file has lost a byte: reopening finds the new table, and that file does not read back. */
  lemma {:induction false} PowerLossExample(x: Context, v: Volume, contents: seq<seq<byte>>, w: Store, n: Version,
          more: seq<seq<byte>>, j: nat, p: nat, prior: Table)
    returns (d: seq<byte>)
    requires Saving(x, v, contents, w, n, more, prior)
    requires j < |w.entries| && p < |v.disk| && p < |w.disk| && !v.G().InSlot(p) && w.disk[p] != v.disk[p]
    requires w.entries[j].offset <= p < ExtentEnd(v.G(), w.entries[j])
    requires forall d' :: NoSubstitute(x.c, v.G(), w.disk, d')
    ensures CrashState(v, w, n, 0, d) && Opening(x.s, d, prior) == Some(Meta(n.header, x.dek, n.table))
    ensures !AllIntact(x.c, v.G(), d, w.entries, contents + more)
  {
    hide Library, AllIntact, Geometry.Separated, ContainerGeometry, Updating, CrashState, Volume.G, Sized;
    hide Geometry.Skip, Version.Image, Replicated, Opening, NoSubstitute, LostByte, ExtentEnd, Geometry.InSlot, Holds;
    hide Frame, Siblings, Proper, SlotOffsets, Keyed;
    var g := v.G();
    UpdatingFacts(x, v, w, n, prior);
    SiblingsFacts(v.header, n.header);
    LostByteState(g, v, w, n, p);
    d := LostByte(v, w, n, p);
    CrashedData(g, v, w, n, 0, d);
    OpensComplete(x, n, d, prior);
    NotIntact(x.c, g, w.disk, d, w.entries, contents + more, w.offset, j, p);
  }

  lemma {:induction false} NotIntact(c: Crypto, g: Geometry, d1: seq<byte>, d: seq<byte>, entries: seq<FileEntry>,
          contents: seq<seq<byte>>, next: nat, j: nat, p: nat)
    requires g.Separated() && |d1| == |d| && Library(c, g, d1, entries, contents, next) && NoSubstitute(c, g, d1, d)
    requires j < |entries| && p < |d| && !g.InSlot(p) && entries[j].offset <= p < ExtentEnd(g, entries[j])
    requires d[p] != d1[p]
    ensures !AllIntact(c, g, d, entries, contents)
  {
    hide AllIntact, NoSubstitute, Ordered, Geometry.Separated, Geometry.InSlot, ExtentEnd;
    assert !Persisted(g, d1, d, entries[j]);
    IntactIffPersisted(c, g, d1, d, entries, contents);
  }

  // ---- Containers whose slots all agree ----

  lemma {:induction false} HealthyProper(x: Context, v: Volume, enc: seq<byte>, contents: seq<seq<byte>>)
    requires Healthy(x, v, enc, contents)
    ensures Proper(x, Version(v.header, v.Tab(), enc)) && |v.disk| == v.header.containerSize && v.header.WellFormed()
    ensures Held(v.disk, v.G().slots, Version(v.header, v.Tab(), enc).Image()) && v.G().slots == SlotOffsets(|v.disk|)
    ensures Keyed(x, v.header) && v.header.maxTableSize >= |enc|
  {
    hide Keyed, Coded, Library, Sized, SlotBytes, SlotOffset;
    KeyedHeaderSize(x, v.header);
  }

  /** What every completed add leaves is a session as opening would find it. */
  lemma {:induction false} HealthyAlive(x: Context, v: Volume, enc: seq<byte>, contents: seq<seq<byte>>, prior: Table)
    requires x.Ideal() && Healthy(x, v, enc, contents) && v.header.containerSize >= MINIMAL_CONTAINER_SIZE
    ensures Alive(x, v, contents, prior)
  {
    hide Healthy, Ready, Proper, KinAt, Opening, Siblings, Holds, Version.Image, SlotOffset, Keyed, Fields.WellFormed;
    HealthyProper(x, v, enc, contents);
    HealthyReady(x, v, enc, contents);
    Reopens(x, v, enc, contents, prior);
    var a := Version(v.header, v.Tab(), enc);
    OwnSibling(v.header);
    forall j | 0 <= j < |v.G().slots| ensures KinAt(x, v.header, v.disk, v.G().slots[j]) {
      ImageKinAt(x, v.header, v.disk, v.G().slots[j], a);
    }
  }

  lemma {:induction false} OwnSibling(f: Fields)
    ensures Siblings(f, f)
  {
  }

  /** Of the strings at the start of a written table area only whole tables open. */
  ghost predicate OnlyWholeOpens(x: Context, a: Version, n: Version) {
    forall k: nat :: k <= |a.Area()| && x.c.unseal(a.Area()[..k]).Some? ==>
      a.Area()[..k] == a.enc || a.Area()[..k] == n.enc
  }

  lemma {:induction false} ImageYields(x: Context, a: Version, d: seq<byte>, off: nat, prior: Table)
    requires x.Ideal() && Proper(x, a) && Holds(d, off, a.Image())
    ensures Yield(x, d, off, prior) == Some(Meta(a.header, x.dek, a.table))
  {
    SlotGenuine(x, a.header, a.table, a.enc, d, off, prior);
    hide Keyed, Saved, SlotHeader, Authenticate, Holds, Context.Ideal;
  }

  /** A container whose slots all hold the same table meets the condition of the crash theorem. */
  lemma {:induction false} HealthyCurrent(x: Context, v: Volume, enc: seq<byte>, contents: seq<seq<byte>>, n: Version,
          prior: Table)
    requires x.Ideal() && Healthy(x, v, enc, contents) && Proper(x, n) && Siblings(v.header, n.header)
    requires OnlyWholeOpens(x, Version(v.header, v.Tab(), enc), n)
    ensures SlotsCurrent(x, v, n, prior)
  {
    hide Healthy, Proper, Yield, SlotOffset, Keyed, Fields.WellFormed, OpenedTable, Serialize, FirstRejectable;
    hide OnlyWholeOpens, FirstYield, Context.Ideal, Siblings;
    HealthyProper(x, v, enc, contents);
    SiblingsFacts(v.header, n.header);
    ProperFields(x, n);
    var a := Version(v.header, v.Tab(), enc);
    ImageYields(x, a, v.disk, v.G().slots[1], prior);
    FirstYieldStep(x, v.disk, v.G().slots, 1, prior);
    AreaOpens(x, a, n, v.disk, v.G().slots[0]);
  }

  lemma {:induction false} AreaOpens(x: Context, a: Version, n: Version, d: seq<byte>, off: nat)
    requires x.Ideal() && Proper(x, a) && Proper(x, n) && OnlyWholeOpens(x, a, n) && Holds(d, off, a.Image())
    requires |n.enc| <= a.header.maxTableSize
    ensures var at := off + HEADER_SIZE;
      at + |n.enc| <= |d| ==>
        var r := OpenedTable(x, d[at..at + |n.enc|]); r.Some? ==> r.value == a.table || r.value == n.table
  {
    hide Proper, Keyed, OpenedTable, Version.Image, Version.Area, Serialize, Context.Ideal;
    ProperFacts(x, a);
    ImageParts(a);
    ProperOpens(x, a);
    ProperOpens(x, n);
    var at, k, l := off + HEADER_SIZE, |n.enc|, |a.Image()|;
    SubSlice(d, off, l, HEADER_SIZE, HEADER_SIZE + k);
    assert a.Image()[HEADER_SIZE..l][..k] == a.Image()[HEADER_SIZE..HEADER_SIZE + k];
    Unseals(x, d[at..at + k]);
  }

  // ---- Adds that fail ----

  /** A file with the same slot bytes opens to the same. */
  lemma {:induction false} SameSlotsOpening(x: Context, v: Volume, d: seq<byte>, prior: Table)
    requires Keyed(x, v.header) && Sized(v.header) && v.disk != [] && |v.disk| == v.header.containerSize == |d|
    requires KinSlots(x, v.header, v.disk, v.G().slots)
    requires forall p :: 0 <= p < |d| && v.G().InSlot(p) ==> d[p] == v.disk[p]
    ensures KinSlots(x, v.header, d, v.G().slots) && Opening(x.s, d, prior) == Opening(x.s, v.disk, prior)
  {
    hide Keyed, KinAt, Geometry.InSlot, Opening, FirstYield, SameBytes, Sized;
    KeyedHeaderSize(x, v.header);
    SizedFacts(v);
    var g := v.G();
    forall j | 0 <= j < 4 ensures SameBytes(v.disk, d, g.slots[j], g.reserved) && KinAt(x, v.header, d, g.slots[j]) {
      InsideSlot(g, v.disk, d, j);
      SameBytesSlot(x, v.header, v.disk, d, g.slots[j], g.reserved, prior);
    }
    OpeningIsFirst(x, v.header, v.disk, prior);
    OpeningIsFirst(x, v.header, d, prior);
    FirstYieldSame(x, v.header, v.disk, d, g.slots, 0, prior);
  }

  /** An add that fails, for whatever reason, in any session: the container reopens with the header and the
      table it had, and every stored file is intact. */
  lemma {:induction false} FailedAddKeepsAlive(x: Context, v: Volume, contents: seq<seq<byte>>, files: seq<InputFile>,
          nonces: nat -> seq<byte>, nonce: seq<byte>, prior: Table)
    requires x.Ideal() && Alive(x, v, contents, prior)
    requires Add(x, v, files, OneThread(x, v, files, nonces), nonce).Thrown?
    ensures var d := Add(x, v, files, OneThread(x, v, files, nonces), nonce).w.disk;
      Alive(x, v.(disk := d), contents, prior) && Reopened(d, Opening(x.s, d, prior).value) == v.(disk := d)
  {
    hide Keyed, Sized, Library, Context.Ideal, Add, OneThread, ContainerGeometry, Geometry.InSlot, Refused, KinSlots;
    hide EntriesAfter, OffsetAfter, Opening, Geometry.Skip;
    var k := FailedAddHarmless(x, v, contents, files, nonces, nonce);
    var d := Add(x, v, files, OneThread(x, v, files, nonces), nonce).w.disk;
    KeyedHeaderSize(x, v.header);
    SizedFacts(v);
    SameSlotsOpening(x, v, d, prior);
  }

  // ---- Whole histories ----

  /** One add: completed; failed, after which the container is closed and opened again; or cut off so that
      `d` is left in the file and opened again. */
  datatype Turn =
    | Completed(files: seq<InputFile>, nonces: nat -> seq<byte>, nonce: seq<byte>)
    | Failed(files: seq<InputFile>, nonces: nat -> seq<byte>, nonce: seq<byte>)
    | CutOff(files: seq<InputFile>, nonces: nat -> seq<byte>, nonce: seq<byte>, i: nat, d: seq<byte>)
  {
    function Outcome(x: Context, v: Volume): Pipeline.Outcome<Volume> {
      Add(x, v, files, OneThread(x, v, files, nonces), nonce)
    }
  }

  function Found(x: Context, d: seq<byte>, prior: Table): Option<Volume> {
    match Opening(x.s, d, prior) case None => None case Some(m) => Some(Reopened(d, m))
  }

  /** The session after a turn, or None if reopening fails. */
  function AfterTurn(x: Context, v: Volume, t: Turn, prior: Table): Option<Volume> {
    match t
    case Completed(_, _, _) => Some(t.Outcome(x, v).w)
    case Failed(_, _, _) => Found(x, t.Outcome(x, v).w.disk, prior)
    case CutOff(_, _, _, _, d) => Found(x, d, prior)
  }

  /** Whether the add has taken effect. */
  predicate TookEffect(x: Context, v: Volume, t: Turn, prior: Table) {
    match t
    case Completed(_, _, _) => true
    case Failed(_, _, _) => false
    case CutOff(files, nonces, nonce, i, d) =>
      match Opening(x.s, d, prior)
      case None => false
      case Some(m) => m.table == Upcoming(x, v, files, nonces, nonce).table
  }

  /** The add throws, or it does not; if it is cut off, the conditions of the crash theorem hold, and, should
      slot 0 turn out complete although it had not been synchronised, the data has reached the device as
      well. */
  ghost predicate Permitted(x: Context, v: Volume, t: Turn, prior: Table) {
    if t.Failed? then t.Outcome(x, v).Thrown? else
      && t.Outcome(x, v).Going? && OneThread(x, v, t.files, t.nonces).Going?
      && (t.CutOff? ==>
            var w, n := Written(x, v, t.files, t.nonces), Upcoming(x, v, t.files, t.nonces, t.nonce);
            && AllTornRejected(x, v, n) && CrashState(v, w, n, t.i, t.d) && (t.i == 0 ==> SlotsCurrent(x, v, n, prior))
            && (t.i == 0 && TookEffect(x, v, t, prior) ==>
                  forall j :: 0 <= j < |w.entries| ==> Persisted(v.G(), w.disk, t.d, w.entries[j])))
  }

  ghost predicate AllPermitted(x: Context, v: Volume, turns: seq<Turn>, prior: Table)
    decreases |turns|
  {
    turns == [] || (
      && Permitted(x, v, turns[0], prior)
      && match AfterTurn(x, v, turns[0], prior) case None => true case Some(u) => AllPermitted(x, u, turns[1..], prior))
  }

  function AfterTurns(x: Context, v: Volume, turns: seq<Turn>, prior: Table): Option<Volume>
    decreases |turns|
  {
    if turns == [] then Some(v) else
      match AfterTurn(x, v, turns[0], prior) case None => None case Some(u) => AfterTurns(x, u, turns[1..], prior)
  }

  /** The contents a turn adds. */
  function Gained(x: Context, v: Volume, t: Turn, prior: Table): seq<seq<byte>> {
    if TookEffect(x, v, t, prior) then ContentsOf(t.files) else []
  }

  /** The contents of the files whose adds have taken effect, in order. */
  function Effective(x: Context, v: Volume, turns: seq<Turn>, prior: Table): seq<seq<byte>>
    decreases |turns|
  {
    if turns == [] then [] else
      Gained(x, v, turns[0], prior)
      + match AfterTurn(x, v, turns[0], prior) case None => [] case Some(u) => Effective(x, u, turns[1..], prior)
  }

  lemma {:induction false} PersistedIntact(c: Crypto, g: Geometry, d1: seq<byte>, d: seq<byte>, entries: seq<FileEntry>,
          contents: seq<seq<byte>>)
    requires g.Separated() && |d1| == |d| && AllIntact(c, g, d1, entries, contents)
    requires forall j :: 0 <= j < |entries| ==> Persisted(g, d1, d, entries[j])
    ensures AllIntact(c, g, d, entries, contents)
  {
    hide Stored, End, Split;
    forall i | 0 <= i < |entries| ensures Intact(c, g, d, entries[i], contents[i]) {
      AccountingAgrees(contents[i]);
      assert Persisted(g, d1, d, entries[i]);
      StoredDependsOn(c, g, d1, d, entries[i].offset, Split(contents[i]));
    }
  }

  /** What is listed after a turn: the same entries, or those of the new files behind them. */
  ghost predicate ListedAfter(x: Context, v: Volume, t: Turn, u: Volume) {
    u.entries == v.entries || u.entries == EntriesAfter(x.c, v.G(), v.entries, v.G().Skip(v.next), t.files)
  }

  lemma {:induction false} CompletedAlive(x: Context, v: Volume, contents: seq<seq<byte>>, t: Turn, prior: Table)
    requires t.Completed? && x.Ideal() && Alive(x, v, contents, prior) && Permitted(x, v, t, prior)
    ensures var u := t.Outcome(x, v).w; Alive(x, u, contents + ContentsOf(t.files), prior) && ListedAfter(x, v, t, u)
  {
    hide Alive, Healthy, OneThread, Ready, Finish, ContainerGeometry, DataBytes, EntriesAfter, OffsetAfter, Keyed;
    hide Context.Ideal, SaveTable, Library, Opening, Sized, KinSlots, Refused, Geometry.InSlot, Geometry.Skip;
    AliveFacts(x, v, contents, prior);
    AddWrites(x, v, contents, t.files, t.nonces, t.nonce);
    Accepted(x, v, contents, t.files);
    var enc := AddKeepsHealthy(x, v, contents, t.files, t.nonces, t.nonce);
    SavedSize(x, BeforeSave(v, Written(x, v, t.files, t.nonces)), t.nonce);
    HealthyAlive(x, t.Outcome(x, v).w, enc, contents + ContentsOf(t.files), prior);
  }

  lemma {:induction false} SavedSize(x: Context, u: Volume, nonce: seq<byte>)
    ensures SaveTable(x, u, nonce).w.header.containerSize == u.header.containerSize
  {
  }

  lemma {:induction false} CutOffAlive(x: Context, v: Volume, contents: seq<seq<byte>>, t: Turn, prior: Table)
    requires t.CutOff? && x.Ideal() && Alive(x, v, contents, prior) && Permitted(x, v, t, prior)
    ensures AfterTurn(x, v, t, prior).Some?
    ensures Alive(x, AfterTurn(x, v, t, prior).value, contents + Gained(x, v, t, prior), prior)
    ensures ListedAfter(x, v, t, AfterTurn(x, v, t, prior).value)
  {
    hide AllIntact, Geometry.Separated, ContainerGeometry, AllTornRejected, CrashState, Alive, SlotsCurrent, Persisted;
    hide Written, Upcoming, Add, OneThread, Opening, Library, Updating, Context.Ideal, Geometry.InSlot, Sized;
    hide EntriesAfter, Geometry.Skip;
    var w, n := Written(x, v, t.files, t.nonces), Upcoming(x, v, t.files, t.nonces, t.nonce);
    UnderwaySaves(x, v, contents, t.files, t.nonces, t.nonce, prior);
    CrashAtomic(x, v, contents, t.files, t.nonces, t.nonce, t.i, t.d, prior);
    var m := Opening(x.s, t.d, prior).value;
    var more := ContentsOf(t.files);
    assert contents + [] == contents;
    ReopenedAlive(x, v, contents, w, n, more, t.i, t.d, m, prior);
    if t.i == 0 && m.table == n.table {
      FilesAfterCrash(x, v, contents, w, n, more, t.i, t.d, prior);
      LibraryIntact(x.c, v.G(), w.disk, w.entries, contents + more, w.offset);
      PersistedIntact(x.c, v.G(), w.disk, t.d, w.entries, contents + more);
    }
    WrittenEntries(x, v, contents, t.files, t.nonces, t.nonce, prior);
  }

  lemma {:induction false} WrittenEntries(x: Context, v: Volume, contents: seq<seq<byte>>, files: seq<InputFile>,
          nonces: nat -> seq<byte>, nonce: seq<byte>, prior: Table)
    requires Underway(x, v, contents, files, nonces, nonce, prior)
    ensures Written(x, v, files, nonces).entries == EntriesAfter(x.c, v.G(), v.entries, v.G().Skip(v.next), files)
  {
    hide Alive, Library, Context.Ideal, OneThread, Add, ContainerGeometry, EntriesAfter, Geometry.Skip, Geometry.InSlot;
    hide SaveTable, Ready, Opening;
    AliveFacts(x, v, contents, prior);
    AddWrites(x, v, contents, files, nonces, nonce);
  }

  /** Every history of adds, each completed, failed, or cut off at any byte under the conditions of the crash
      theorem: every reopening succeeds, and at the end the files of all adds that have taken effect are
      listed and intact. Completed adds always take effect, failed ones never do. */
  lemma {:induction false} EveryHistory(x: Context, v: Volume, contents: seq<seq<byte>>, turns: seq<Turn>, prior: Table)
    requires x.Ideal() && Alive(x, v, contents, prior) && AllPermitted(x, v, turns, prior)
    ensures AfterTurns(x, v, turns, prior).Some?
    ensures Alive(x, AfterTurns(x, v, turns, prior).value, contents + Effective(x, v, turns, prior), prior)
    decreases |turns|
  {
    hide Alive, Permitted, AfterTurn, Gained, Context.Ideal, ListedAfter;
    if turns == [] {
      assert contents + [] == contents;
    } else {
      var t := turns[0];
      OneTurn(x, v, contents, t, prior);
      var u, more := AfterTurn(x, v, t, prior).value, Gained(x, v, t, prior);
      EveryHistory(x, u, contents + more, turns[1..], prior);
      ConcatAssociates(contents, more, Effective(x, u, turns[1..], prior));
    }
  }

  lemma {:induction false} ConcatAssociates<X>(a: seq<X>, b: seq<X>, c: seq<X>)
    ensures a + b + c == a + (b + c)
  {
  }

  /** All names in the table stay such that extraction accepts them. */
  lemma {:induction false} NamesStaySafe(x: Context, v: Volume, contents: seq<seq<byte>>, turns: seq<Turn>,
          u: Volume, prior: Table)
    requires x.Ideal() && Alive(x, v, contents, prior) && AllPermitted(x, v, turns, prior)
    requires AfterTurns(x, v, turns, prior) == Some(u)
    requires SafeNames(v.entries) && forall i :: 0 <= i < |turns| ==> FilePaths(turns[i].files)
    ensures SafeNames(u.entries)
    decreases |turns|
  {
    hide Alive, Permitted, AfterTurn, Gained, Context.Ideal, SafeNames, FilePaths, ListedAfter;
    if turns != [] {
      var t := turns[0];
      OneTurn(x, v, contents, t, prior);
      var w := AfterTurn(x, v, t, prior).value;
      SafeNamesListed(x, v, t, w);
      NamesStaySafe(x, w, contents + Gained(x, v, t, prior), turns[1..], u, prior);
    }
  }

  lemma {:induction false} SafeNamesListed(x: Context, v: Volume, t: Turn, u: Volume)
    requires SafeNames(v.entries) && FilePaths(t.files) && ListedAfter(x, v, t, u)
    ensures SafeNames(u.entries)
  {
    hide SafeNames, FilePaths, EntriesAfter, ContainerGeometry, Geometry.Skip;
    SafeNamesKept(x.c, v.G(), v.entries, v.G().Skip(v.next), t.files);
  }

  lemma {:induction false} OneTurn(x: Context, v: Volume, contents: seq<seq<byte>>, t: Turn, prior: Table)
    requires x.Ideal() && Alive(x, v, contents, prior) && Permitted(x, v, t, prior)
    ensures AfterTurn(x, v, t, prior).Some?
    ensures Alive(x, AfterTurn(x, v, t, prior).value, contents + Gained(x, v, t, prior), prior)
    ensures ListedAfter(x, v, t, AfterTurn(x, v, t, prior).value)
  {
    hide Alive, Context.Ideal, Add, OneThread, AllTornRejected, CrashState, SlotsCurrent, Persisted, Opening, Written;
    hide Upcoming, EntriesAfter;
    match t
    case Completed(_, _, _) => CompletedAlive(x, v, contents, t, prior);
    case CutOff(_, _, _, _, _) => CutOffAlive(x, v, contents, t, prior);
    case Failed(files, nonces, nonce) =>
      assert contents + [] == contents;
      FailedAddKeepsAlive(x, v, contents, files, nonces, nonce, prior);
      AliveOpens(x, t.Outcome(x, v).w.disk, v, contents, prior);
  }

  lemma {:induction false} AliveOpens(x: Context, d: seq<byte>, v: Volume, contents: seq<seq<byte>>, prior: Table)
    requires Alive(x, v.(disk := d), contents, prior)
    ensures Found(x, d, prior) == Some(v.(disk := d))
  {
    hide Ready, KinSlots, Opening;
  }

  /** Whatever has happened to a container in such a history, all its files come back in every way of running
      the decrypting threads, and no checksum fails. */
  lemma {:induction false} HistoryExtracts(x: Context, v: Volume, contents: seq<seq<byte>>, turns: seq<Turn>, u: Volume,
          prior: Table, outputs: map<string, seq<byte>>, workers: nat, schedule: seq<Action>,
          t: State<Decrypt.Task, Chunk, Decrypt.Output>)
    requires x.Ideal() && Alive(x, v, contents, prior) && AllPermitted(x, v, turns, prior)
    requires AfterTurns(x, v, turns, prior) == Some(u)
    requires SafeNames(v.entries) && forall i :: 0 <= i < |turns| ==> FilePaths(turns[i].files)
    requires workers > 0 && Maximal(ExtractConfig(x.c, u.G(), u.disk, u.entries, outputs, workers), schedule, t)
    ensures var all := contents + Effective(x, v, turns, prior);
      && t.Done() && t.writer.Finished? && t.w.failures == []
      && |u.entries| == |all| && DistinctNames(u.entries)
      && (forall i :: 0 <= i < |all| ==>
            u.entries[i].name in t.w.files && t.w.files[u.entries[i].name] == all[i])
  {
    hide Alive, Context.Ideal, AllPermitted, AfterTurns, Effective, SafeNames, FilePaths, Maximal, AllIntact;
    hide ContainerGeometry, Delivery.UsableNames, State.Done, Decrypt.SafeName, ExtractConfig, Consistent;
    EveryHistory(x, v, contents, turns, prior);
    NamesStaySafe(x, v, contents, turns, u, prior);
    var all := contents + Effective(x, v, turns, prior);
    AliveExtracts(x, u, all, prior);
    DistinctConsistent(u.entries, all);
    EveryExtractRun(x.c, u.G(), u.disk, u.entries, all, outputs, workers, schedule, t);
  }

  lemma {:induction false} AliveExtracts(x: Context, v: Volume, contents: seq<seq<byte>>, prior: Table)
    requires Alive(x, v, contents, prior) && SafeNames(v.entries)
    ensures AllIntact(x.c, v.G(), v.disk, v.entries, contents)
    ensures Delivery.UsableNames(v.entries) && DistinctNames(v.entries)
    ensures |v.entries| == |contents|
  {
    hide Keyed, Sized, Intact, ContainerGeometry, Decrypt.SafeName, KinSlots, Opening, ExtentEnd;
  }

  // ---- When the conditions fail ----

  lemma {:induction false} FirstSlotComplete(x: Context, v: Volume, w: Store, n: Version, prior: Table)
    requires Updating(x, v, w, n, prior)
    ensures var d1 := Durable(v, w, n, 1);
      && CrashState(v, w, n, 0, d1) && CrashState(v, w, n, 1, d1)
      && |v.G().slots| == 4 && FirstYield(x, d1, v.G().slots, 1, prior) == FirstYield(x, v.disk, v.G().slots, 1, prior)
  {
    hide Updating, Durable, ContainerGeometry, SlotOffsets, Version.Image, KinAt, Frame, FirstYield, Keyed, Proper;
    hide Siblings, Opening;
    UpdatingFacts(x, v, w, n, prior);
    FrameFacts(v.G(), v, w, n);
    DurableSlots(v.G(), v, w, n, 0);
    DurableSlots(v.G(), v, w, n, 1);
    DurableSlots(v.G(), v, w, n, 2);
    FirstYieldSame(x, v.header, v.disk, Durable(v, w, n, 1), v.G().slots, 1, prior);
  }

  /** An add is cut off as soon as slot 0 is complete; the container reopens with its table. A second add is
      cut off in slot 0, which comes to be rejected. The container then reopens with the table of before the
      first add: neither the session's nor the new one, and the files of the first add are not listed. */
  lemma {:induction false} RollbackExample(x: Context, v: Volume, contents: seq<seq<byte>>, w: Store, n: Version,
          more: seq<seq<byte>>, w': Store, n': Version, more': seq<seq<byte>>, d: seq<byte>, prior: Table)
    returns (u: Volume)
    requires Saving(x, v, contents, w, n, more, prior) && more != [] && |v.G().slots| == 4
    requires var r := FirstYield(x, v.disk, v.G().slots, 1, prior); r.Some? && r.value.table == v.Tab()
    requires var u := Reopened(Durable(v, w, n, 1), Meta(n.header, x.dek, n.table));
      && Saving(x, u, contents + more, w', n', more', prior) && CrashState(u, w', n', 0, d)
      && |u.G().slots| == 4 && Yield(x, d, u.G().slots[0], prior) == None
    ensures u == Reopened(Durable(v, w, n, 1), Meta(n.header, x.dek, n.table)) && u.Tab() == n.table
    ensures CrashState(v, w, n, 0, u.disk) && Opening(x.s, u.disk, prior) == Some(Meta(n.header, x.dek, u.Tab()))
    ensures var r := Opening(x.s, d, prior);
      && r == FirstYield(x, v.disk, v.G().slots, 1, prior) && r.Some? && r.value.table == v.Tab()
      && v.Tab() != u.Tab() && v.Tab() != n'.table && Alive(x, Reopened(d, r.value), contents, prior)
  {
    hide Library, AllIntact, Geometry.Separated, ContainerGeometry, Updating, CrashState, Alive, Keyed, Sized;
    hide Geometry.Skip, Version.Image, Opening, KinSlots, SlotOffsets, Durable, Siblings, Yield, FirstYield;
    hide Geometry.InSlot;
    u := Reopened(Durable(v, w, n, 1), Meta(n.header, x.dek, n.table));
    FirstSlotComplete(x, v, w, n, prior);
    OpensNew(x, v, w, n, 1, u.disk, prior);
    OpensInFirst(x, u, w', n', d, prior);
    UpdatingFacts(x, v, w, n, prior);
    SiblingsFacts(v.header, n.header);
    SameLengths(x, v, w, contents, more);
    SameLengths(x, u, w', contents + more, more');
    RolledBack(x, v, contents, w, n, more, u, w', n', more', d, Opening(x.s, d, prior).value, prior);
  }

  lemma {:induction false} SameLengths(x: Context, v: Volume, w: Store, contents: seq<seq<byte>>, more: seq<seq<byte>>)
    requires Library(x.c, v.G(), v.disk, v.entries, contents, v.G().Skip(v.next))
    requires Library(x.c, v.G(), w.disk, w.entries, contents + more, w.offset)
    ensures |v.entries| == |contents| && |w.entries| == |contents| + |more|
  {
  }

  /** The files of before the first add are intact after all. */
  lemma {:induction false} RolledBack(x: Context, v: Volume, contents: seq<seq<byte>>, w: Store, n: Version,
          more: seq<seq<byte>>, u: Volume, w': Store, n': Version, more': seq<seq<byte>>, d: seq<byte>, m: Meta,
          prior: Table)
    requires Saving(x, v, contents, w, n, more, prior) && CrashState(v, w, n, 1, u.disk)
    requires u == Reopened(u.disk, Meta(n.header, x.dek, n.table))
    requires Saving(x, u, contents + more, w', n', more', prior) && CrashState(u, w', n', 0, d)
    requires Opening(x.s, d, prior) == Some(m) && m.table == v.Tab()
    ensures Alive(x, Reopened(d, m), contents, prior)
  {
    hide Library, AllIntact, Geometry.Separated, ContainerGeometry, Updating, CrashState, Alive, Keyed, Sized;
    hide Geometry.Skip, Version.Image, Opening, KinSlots, SlotOffsets, Siblings, Geometry.InSlot;
    UpdatingFacts(x, v, w, n, prior);
    UpdatingFacts(x, u, w', n', prior);
    SiblingsFacts(v.header, n.header);
    FilesAfterCrash(x, v, contents, w, n, more, 1, u.disk, prior);
    CrashedKin(x, u, w', n', 0, d, prior);
    CrashedData(u.G(), u, w', n', 0, d);
    AllIntactBelow(x.c, v.G(), u.disk, d, v.entries, contents, v.G().Skip(v.next));
    SessionFound(x, u, d, m, contents, prior);
  }
}
