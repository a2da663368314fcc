/** When the operations of FileManager succeed, exactly (add, write and writeFileTableToAllSlots in
    src/FileManager.cpp), and what a table without an end of data opens to (src/FileTable.cpp). */
module Outcomes {
  import opened Bytes
  import opened Layout
  import opened Fragments
  import opened Chunks
  import opened Sealing
  import opened Tables
  import opened Pipeline
  import opened Encrypt
  import opened Storing
  import opened Runs
  import opened Capacity
  import opened HeaderCodec
  import opened Slots
  import opened Recovery
  import opened Container
  import opened Adding
  import opened Sessions
  import opened Torn
  import opened Crash
  import opened Reopening

  // ---- Saving ----

  /** The sealed text of the table fits into `room` bytes. */
  ghost predicate TableFits(x: Context, t: Table, room: nat, nonce: seq<byte>) {
    |x.text(t)| + 28 <= room && x.c.seal(nonce, x.text(t)).Some?
  }

  lemma {:induction false} SavesIff(x: Context, v: Volume, nonce: seq<byte>)
    ensures SaveTable(x, v, nonce).Going? <==> TableFits(x, v.Tab(), v.header.maxTableSize, nonce)
  {
    hide Replicated, Serialize, NextHeader, ContainerGeometry, SlotBytes;
  }

  /** A failed save has changed nothing but the size in the header in memory. */
  lemma {:induction false} FailedSaveLeaves(x: Context, v: Volume, nonce: seq<byte>)
    requires !TableFits(x, v.Tab(), v.header.maxTableSize, nonce)
    ensures var size := (|x.text(v.Tab())| + 28) % 0x1_0000_0000;
      SaveTable(x, v, nonce) == Thrown(v.(header := v.header.(fileTableSize := size)))
  {
    hide Replicated, Serialize, NextHeader, ContainerGeometry, SlotBytes;
  }

  /** The end of an add or a creation succeeds if the run and the save do. */
  lemma {:induction false} FinishesIff(x: Context, v: Volume, run: Outcome<Store>, nonce: seq<byte>)
    ensures Finish(x, v, run, nonce).Going?
      <==> run.Going? && TableFits(x, Table(run.w.entries, run.w.offset), v.header.maxTableSize, nonce)
  {
    hide SaveTable, TableFits;
    if run.Going? {
      SavesIff(x, After(v, run.w).(next := run.w.offset), nonce);
    }
  }

  // ---- add ----

  /** The table that lists the old files followed by the new ones. */
  function TableAfter(x: Context, v: Volume, files: seq<InputFile>): Table {
    Table(EntriesAfter(x.c, v.G(), v.entries, v.G().Skip(v.next), files),
          OffsetAfter(v.G(), v.G().Skip(v.next), files))
  }

  lemma {:induction false} RunTable(x: Context, v: Volume, files: seq<InputFile>, nonces: nat -> seq<byte>)
    requires x.Ideal() && v.G().Separated() && OneThread(x, v, files, nonces).Going?
    ensures var w := OneThread(x, v, files, nonces).w;
      && Table(w.entries, w.offset) == TableAfter(x, v, files) && w.fileCount == v.header.fileCount + |files|
      && Kept(v.G(), v.disk, w.disk, v.G().Skip(v.next), w.offset)
  {
    hide EntriesAfter, OffsetAfter, ContainerGeometry, Crypto.Ideal, Fold, ResultsFrom, Plan, Geometry.Separated;
    PlanEntries(x.c, v.G(), nonces, StartOf(v), files, 0, 0);
  }

  /** An add succeeds exactly if the container is not full, every file can be found and opened, the files take
      no more than the data bytes that are left, and every block and the table can be sealed and the table
      fits into its area. */
  lemma {:induction false} AddSucceedsIff(x: Context, v: Volume, files: seq<InputFile>, nonces: nat -> seq<byte>,
          nonce: seq<byte>)
    requires x.Ideal() && v.header.headerSize == HEADER_SIZE && Sized(v.header)
    ensures Add(x, v, files, OneThread(x, v, files, nonces), nonce).Going? <==>
      && v.next < v.header.containerSize
      && (forall i :: 0 <= i < |files| ==> files[i].present && files[i].readable)
      && Required(files) <= DataBytes(v.G(), v.next, v.header.containerSize)
      && AllSeal(x.c, nonces, files, 0)
      && TableFits(x, TableAfter(x, v, files), v.header.maxTableSize, nonce)
  {
    hide Sized, Context.Ideal, ContainerGeometry, Finish, AllSeal, TableFits, TableAfter, Refused, Required, DataBytes;
    hide Encrypted, Geometry.Separated;
    SizedFacts(v);
    RefusedExactly(v, files);
    var run := OneThread(x, v, files, nonces);
    RunGoesIff(x.c, nonces, v.G(), files, StartOf(v));
    FinishesIff(x, v, run, nonce);
    if run.Going? {
      RunTable(x, v, files, nonces);
    }
  }

  /** What a successful add leaves in memory: the table with the new entries, and the old header with one count
      for each new file, the size of the sealed table, the next version and a new code over its 160 bytes. */
  lemma {:induction false} AddLeaves(x: Context, v: Volume, files: seq<InputFile>, nonces: nat -> seq<byte>,
          nonce: seq<byte>)
    requires x.Ideal() && Keyed(x, v.header) && Sized(v.header)
    requires Finish(x, v, OneThread(x, v, files, nonces), nonce).Going?
    ensures var v', t := Finish(x, v, OneThread(x, v, files, nonces), nonce).w, TableAfter(x, v, files);
      var f, h := v.header, v'.header;
      && v'.entries == t.entries && v'.next == t.next
      && h == f.(fileCount := (f.fileCount + |files|) % 0x1_0000_0000, fileTableSize := |x.text(t)| + 28,
                 headerVersion := (f.headerVersion + 1) % 0x1_0000_0000, hmac := h.hmac)
      && h.hmac == x.s.mac(h.hashAlgo, x.s.kdf(KdfParams(h.salt, h.mKib, h.t, h.p)), Serialize(h)[..160])
  {
    hide Keyed, Sized, ContainerGeometry, SaveTable, TableAfter, TableFits, OneThread, Serialize, Fields.WellFormed;
    hide Context.Ideal, Geometry.Separated, HeaderCodec.Prefix;
    KeyedHeaderSize(x, v.header);
    SizedFacts(v);
    FinishesIff(x, v, OneThread(x, v, files, nonces), nonce);
    RunTable(x, v, files, nonces);
    var u := BeforeSave(v, OneThread(x, v, files, nonces).w);
    AfterFacts(x, v, OneThread(x, v, files, nonces).w);
    SaveLeaves(x, u, nonce);
  }

  lemma {:induction false} SaveLeaves(x: Context, v: Volume, nonce: seq<byte>)
    requires x.Ideal() && Keyed(x, v.header) && SaveTable(x, v, nonce).Going?
    ensures var v' := SaveTable(x, v, nonce).w; var f, h := v.header, v'.header;
      && v'.entries == v.entries && v'.next == v.next
      && h == f.(fileTableSize := |x.text(v.Tab())| + 28, headerVersion := (f.headerVersion + 1) % 0x1_0000_0000,
                 hmac := h.hmac)
      && h.hmac == x.s.mac(h.hashAlgo, x.s.kdf(KdfParams(h.salt, h.mKib, h.t, h.p)), Serialize(h)[..160])
  {
    hide Keyed, ContainerGeometry, Replicated, Serialize, SlotBytes, HeaderCodec.Prefix, Fits;
    KeyedHeaderSize(x, v.header);
    WordFits(v.header.maxTableSize);
    NextHeaderSaved(x, v.header, v.Tab(), nonce);
    var h := SaveTable(x, v, nonce).w.header;
    KeyedHeaderSize(x, h);
    ProtectedPart(h);
  }

  // ---- write ----

  /** A creation succeeds exactly if there is something to store, the size lies between four reserved areas
      and 2^41, every file can be found and opened, the files take no more than what the four areas leave, and
      blocks and table can be sealed and the table fits. The size need not separate the slots. */
  lemma {:induction false} CreateSucceedsIff(x: Context, f: Fields, files: seq<InputFile>, nonces: nat -> seq<byte>,
          nonce: seq<byte>)
    requires Keyed(x, f)
    ensures var run := OneThread(x, Blank(x, f), files, nonces);
      var r, reserved := Create(x, f, files, run, nonce), 4096 + f.maxTableSize;
      r.Some? && r.value.Going? <==>
        && files != [] && 4 * reserved <= f.containerSize <= 0x200_0000_0000
        && (forall i :: 0 <= i < |files| ==> files[i].present && files[i].readable)
        && Required(files) <= f.containerSize - 4 * reserved
        && AllSeal(x.c, nonces, files, 0)
        && TableFits(x, Table(run.w.entries, run.w.offset), f.maxTableSize, nonce)
  {
    hide Keyed, ContainerGeometry, Finish, AllSeal, TableFits, Required, Encrypted, Replicated, Serialize;
    hide HeaderCodec.Prefix;
    KeyedHeaderSize(x, f);
    var run := OneThread(x, Blank(x, f), files, nonces);
    RunGoesIff(x.c, nonces, Blank(x, f).G(), files, StartOf(Blank(x, f)));
    FinishesIff(x, Blank(x, f), run, nonce);
  }

  /** With separated slots the table is determined, and the room is the data bytes behind the first slot. */
  lemma {:induction false} CreatedTable(x: Context, f: Fields, files: seq<InputFile>, nonces: nat -> seq<byte>)
    requires x.Ideal() && Keyed(x, f) && Sized(f)
    ensures var v, run := Blank(x, f), OneThread(x, Blank(x, f), files, nonces); var reserved := 4096 + f.maxTableSize;
      && f.containerSize - 4 * reserved == DataBytes(v.G(), reserved, f.containerSize)
      && (run.Going? ==> Table(run.w.entries, run.w.offset) == TableAfter(x, v, files))
  {
    hide Keyed, Sized, Context.Ideal, ContainerGeometry, TableAfter, DataBytes, Encrypted, Ready, Blank, OneThread;
    hide Geometry.Separated;
    KeyedHeaderSize(x, f);
    BlankReady(x, f);
    CreatedRoom(f);
    var v := Blank(x, f);
    ReadyGeometry(x, v);
    if OneThread(x, v, files, nonces).Going? {
      RunTable(x, v, files, nonces);
    }
  }

  /** Behind the files of a new container there are zeros up to its end, apart from the slots. */
  lemma {:induction false} CreatedFree(x: Context, f: Fields, files: seq<InputFile>, nonces: nat -> seq<byte>,
          nonce: seq<byte>)
    requires x.Ideal() && Keyed(x, f) && Sized(f)
    requires var r := Create(x, f, files, OneThread(x, Blank(x, f), files, nonces), nonce); r.Some? && r.value.Going?
    ensures var v := Create(x, f, files, OneThread(x, Blank(x, f), files, nonces), nonce).value.w;
      |v.disk| == f.containerSize && forall p :: v.next <= p < |v.disk| && !v.G().InSlot(p) ==> v.disk[p] == 0
  {
    hide Keyed, Sized, Context.Ideal, ContainerGeometry, DataBytes, OneThread, Ready, Library, SaveTable, Healthy;
    hide Geometry.Separated, Geometry.InSlot, TableAfter, Serialize, HeaderCodec.Prefix, Replicated, Coded, Blank;
    hide TableFits, AllSeal, Required, StoredFirst;
    var v, run := Blank(x, f), OneThread(x, Blank(x, f), files, nonces);
    KeyedHeaderSize(x, f);
    BlankReady(x, f);
    ReadyGeometry(x, v);
    var enc := CreateHealthy(x, f, files, nonces, nonce);
    RunTable(x, v, files, nonces);
    CreateSucceedsIff(x, f, files, nonces, nonce);
    CreatedRoom(f);
    BlankZeros(x, f);
    var k := RunOutcome(x, v, [], files, nonces);
    SavedElsewhere(x, v, run.w, nonce);
  }

  lemma {:induction false} BlankZeros(x: Context, f: Fields)
    requires x.Ideal() && Keyed(x, f) && Sized(f)
    ensures var v := Blank(x, f);
      |v.disk| == f.containerSize && forall p :: 0 <= p < |v.disk| && !v.G().InSlot(p) ==> v.disk[p] == 0
  {
    hide Keyed, HeaderCodec.Prefix, Serialize, SlotOffset, Fields.WellFormed, Replicated;
    BlankKeyed(x, f);
    KeyedHeaderSize(x, f);
    var v := Blank(x, f);
    SizedFacts(v);
    SerializedLength(v.header);
    hide Sized, ContainerGeometry, Coded;
    forall p | 0 <= p < f.containerSize ensures |v.disk| == f.containerSize && (!v.G().InSlot(p) ==> v.disk[p] == 0) {
      ReplicatedAt(v.G(), Zeros(f.containerSize), 4, Serialize(v.header), p);
    }
    ReplicatedLength(v.G(), Zeros(f.containerSize), 4, Serialize(v.header));
  }

  lemma {:induction false} SavedElsewhere(x: Context, v: Volume, w: Store, nonce: seq<byte>)
    requires x.Ideal() && Keyed(x, v.header) && Sized(v.header) && |w.disk| == v.header.containerSize
    requires Finish(x, v, Going(w), nonce).Going?
    ensures var v' := Finish(x, v, Going(w), nonce).w;
      && v'.next == w.offset && v'.G() == v.G() && |v'.disk| == |w.disk|
      && forall p :: 0 <= p < |w.disk| && !v.G().InSlot(p) ==> v'.disk[p] == w.disk[p]
  {
    hide Keyed, Sized, Context.Ideal, SaveTable, ContainerGeometry, Geometry.InSlot, SlotBytes, Replicated, Serialize;
    hide Saved, Held;
    AfterFacts(x, v, w);
    var enc := Saves(x, BeforeSave(v, w), nonce);
  }

  lemma {:induction false} CreatedRoom(f: Fields)
    requires Sized(f) && f.headerSize == HEADER_SIZE
    ensures 4 * (4096 + f.maxTableSize) <= f.containerSize
    ensures f.containerSize - 4 * (4096 + f.maxTableSize)
      == DataBytes(ContainerGeometry(f.containerSize, f.headerSize + f.maxTableSize), 4096 + f.maxTableSize,
                   f.containerSize)
  {
    hide DataBytes, ContainerGeometry;
    AvailableExact(f.containerSize, f.headerSize + f.maxTableSize);
    CreationImplied(f.containerSize, f.headerSize + f.maxTableSize);
  }

  lemma {:induction false} ReadyGeometry(x: Context, v: Volume)
    requires Ready(x, v, [])
    ensures v.G().Separated() && Keyed(x, v.header) && Sized(v.header)
  {
    hide Keyed, Sized, Library, ContainerGeometry, Geometry.Separated;
    KeyedHeaderSize(x, v.header);
    SizedFacts(v);
  }

  // ---- A table without an end of data ----

  /** The writer of an add would start behind the extent of `e` if `last` were the entry that reaches farthest,
      counting 65564 bytes for each of its blocks. */
  predicate StartsBehind(g: Geometry, e: FileEntry, last: FileEntry) {
    ExtentEnd(g, e) <= g.Skip(last.offset + last.chunks * 65564)
  }

  /** The extent of `e` ends where the writer of the next add starts, or before. */
  ghost predicate EndsInFront(g: Geometry, entries: seq<FileEntry>, e: FileEntry) {
    exists j :: 0 <= j < |entries| && StartsBehind(g, e, entries[j])
  }

  lemma {:induction false} SkipMonotone(g: Geometry, a: nat, b: nat)
    requires g.Separated() && a <= b
    ensures g.Skip(a) <= g.Skip(b)
  {
    SkipIsLeast(g, a);
    SkipIsLeast(g, b);
  }

  lemma {:induction false} EndsBehindIff(g: Geometry, entries: seq<FileEntry>, next: nat, e: FileEntry)
    requires g.Separated() && GreatestEnd(entries, next)
    ensures ExtentEnd(g, e) <= g.Skip(next) <==> EndsInFront(g, entries, e)
  {
    hide ExtentEnd, Geometry.Skip;
    var k :| 0 <= k < |entries| && entries[k].offset + entries[k].chunks * 65564 == next;
    if ExtentEnd(g, e) <= g.Skip(next) {
      assert StartsBehind(g, e, entries[k]);
    }
    if j :| 0 <= j < |entries| && StartsBehind(g, e, entries[j]) {
      SkipMonotone(g, entries[j].offset + entries[j].chunks * 65564, next);
    }
  }

  /** Names and extents of a table in order. */
  ghost predicate InOrder(g: Geometry, entries: seq<FileEntry>) {
    && DistinctNames(entries) && (forall i :: 0 <= i < |entries| ==> '/' !in entries[i].name)
    && (forall i, j :: 0 <= i < j < |entries| ==> ExtentEnd(g, entries[i]) <= entries[j].offset)
  }

  lemma {:induction false} OrderedIff(g: Geometry, entries: seq<FileEntry>, next: nat)
    requires g.Separated() && GreatestEnd(entries, next)
    ensures Ordered(g, entries, g.Skip(next)) <==>
      && InOrder(g, entries)
      && (forall i :: 0 <= i < |entries| ==> EndsInFront(g, entries, entries[i]))
  {
    hide ExtentEnd, Geometry.Skip, DistinctNames, EndsInFront, Geometry.Separated, GreatestEnd;
    forall i | 0 <= i < |entries|
      ensures ExtentEnd(g, entries[i]) <= g.Skip(next) <==> EndsInFront(g, entries, entries[i])
    {
      EndsBehindIff(g, entries, next, entries[i]);
    }
  }

  lemma {:induction false} WithinIff(entries: seq<FileEntry>, next: nat, size: nat)
    requires GreatestEnd(entries, next)
    ensures next <= size <==> forall i :: 0 <= i < |entries| ==> entries[i].offset + entries[i].chunks * 65564 <= size
  {
  }

  /** What a session whose end of data has been recomputed can go on with: exactly if names and extents are in
      order, no entry would end outside the container with full blocks, and every extent ends where the writer
      of the next add starts, or before. */
  lemma {:induction false} RecomputedReadyIff(x: Context, v: Volume, contents: seq<seq<byte>>)
    requires Keyed(x, v.header) && Sized(v.header) && |v.disk| == v.header.containerSize
    requires GreatestEnd(v.entries, v.next) && AllIntact(x.c, v.G(), v.disk, v.entries, contents)
    ensures var g, es := v.G(), v.entries;
      Ready(x, v, contents) <==>
        && InOrder(g, es) && (forall i :: 0 <= i < |es| ==> es[i].offset + es[i].chunks * 65564 <= |v.disk|)
        && (forall i :: 0 <= i < |es| ==> EndsInFront(g, es, es[i]))
  {
    hide Keyed, Sized, AllIntact, ContainerGeometry, Geometry.Skip, EndsInFront, Geometry.Separated, Ordered, InOrder;
    hide GreatestEnd;
    KeyedHeaderSize(x, v.header);
    SizedFacts(v);
    OrderedIff(v.G(), v.entries, v.next);
    WithinIff(v.entries, v.next, |v.disk|);
  }

  /** Opening recomputes a missing end of data: if slot 0 verifies and its table opens to a text with entries and
      without an end, the session has these entries, and the greatest of their ends with full blocks. */
  lemma {:induction false} OpensWithoutEnd(x: Context, f: Fields, d: seq<byte>, entries: seq<FileEntry>, prior: Table)
    returns (m: Meta)
    requires Keyed(x, f) && f.containerSize >= 278528 && d != [] && KinSlots(x, f, d, SlotOffsets(|d|))
    requires var at := SlotOffsets(|d|)[0] + HEADER_SIZE; var buf := d[SlotOffsets(|d|)[0]..at];
      var n := AllFields(buf).fileTableSize;
      && Verifies(x, f, buf) && n > 28 && at + n <= |d| && x.c.unseal(d[at..at + n]).Some?
      && x.s.parse(x.c.unseal(d[at..at + n]).value) == Some(Table(entries, 0)) && entries != []
    ensures Opening(x.s, d, prior) == Some(m) && m.dek == x.dek && Siblings(f, m.header)
    ensures m.table.entries == entries && GreatestEnd(entries, m.table.next)
  {
    hide Keyed, KinAt, SlotOffset, Opening, FirstYield, Yield, Siblings, AllFields, Verifies, GreatestEnd, LoadedOffset;
    var slots := SlotOffsets(|d|);
    LoadedEnd(0, entries);
    OpeningIsFirst(x, f, d, prior);
    FirstYieldStep(x, d, slots, 0, prior);
    assert KinAt(x, f, d, slots[0]);
    KinYield(x, f, d, slots[0], prior);
    YieldKeyed(x, f, d, slots[0], prior);
    m := Opening(x.s, d, prior).value;
  }
}
