/** Adding files to a container, any number of times, whether or not an add succeeds
    (FileManager::write and add in src/FileManager.cpp). */
module Adding {
  import opened Bytes
  import opened Layout
  import opened Fragments
  import opened Chunks
  import opened Sealing
  import opened Tables
  import opened Pipeline
  import opened Encrypt
  import opened Storing
  import opened Runs
  import opened Capacity
  import opened HeaderCodec
  import opened Slots
  import opened Recovery
  import opened Container

  // ---- Where the writer starts, and that it stays inside ----

  lemma {:induction false} LibraryFrom(c: Crypto, g: Geometry, disk: seq<byte>, entries: seq<FileEntry>,
          contents: seq<seq<byte>>, next: nat, later: nat)
    requires Library(c, g, disk, entries, contents, next) && next <= later
    ensures Library(c, g, disk, entries, contents, later)
  {
    hide AllIntact, DistinctNames, ExtentEnd;
  }

  /** The free space the check computes is what the writer finds after moving past a slot. */
  lemma {:induction false} FitsWhenAccepted(g: Geometry, next: nat, files: seq<InputFile>, size: nat)
    requires g.Separated() && g.Inside(size) && next <= size
    ensures next <= g.Skip(next) <= size
    ensures OffsetAfter(g, g.Skip(next), files) <= size <==> Required(files) <= DataBytes(g, next, size)
  {
    SkipIsLeast(g, next);
    SkipStaysInside(g, next, size);
    CountInSlots(g, next, g.Skip(next), size);
    FitsIffRequired(g, g.Skip(next), files, size);
  }

  /** A session that may add: every file its table lists is intact and ends before the position
      where the writer starts. The slots are not looked at. */
  ghost predicate Ready(x: Context, v: Volume, contents: seq<seq<byte>>) {
    && Keyed(x, v.header) && Sized(v.header) && |v.disk| == v.header.containerSize
    && Library(x.c, v.G(), v.disk, v.entries, contents, v.G().Skip(v.next)) && v.next <= v.header.containerSize
  }

  lemma {:induction false} HealthyReady(x: Context, v: Volume, enc: seq<byte>, contents: seq<seq<byte>>)
    requires Healthy(x, v, enc, contents)
    ensures Ready(x, v, contents)
  {
    hide Library, Saved, SlotBytes, Fields.WellFormed, ContainerGeometry, Held;
    SizedFacts(v);
    SkipIsLeast(v.G(), v.next);
    LibraryFrom(x.c, v.G(), v.disk, v.entries, contents, v.next, v.G().Skip(v.next));
  }

  lemma {:induction false} SkipPositive(g: Geometry, pos: nat)
    requires g.Separated() && |g.slots| > 0 && g.slots[0] == 0
    ensures g.Skip(pos) > 0
  {
    SkipIsLeast(g, pos);
    if pos == 0 { assert g.slots[0] <= pos < g.slots[0] + g.reserved; }
  }

  lemma {:induction false} RunOutcome(x: Context, v: Volume, contents: seq<seq<byte>>, files: seq<InputFile>,
          nonces: nat -> seq<byte>)
    returns (k: nat)
    requires x.Ideal() && Ready(x, v, contents) && Required(files) <= DataBytes(v.G(), v.next, v.header.containerSize)
    ensures var o := OneThread(x, v, files, nonces); var g := v.G();
      && k <= |files| && (o.Going? <==> k == |files|)
      && StoredFirst(x.c, g, StartOf(v), files, contents, k, o.w)
      && (o.Going? ==> o.w.offset == OffsetAfter(g, g.Skip(v.next), files))
      && v.next <= g.Skip(v.next) <= o.w.offset <= v.header.containerSize && 0 < o.w.offset
      && |o.w.disk| == |v.disk|
  {
    hide Keyed, Sized, Library, Fold, Plan, ResultsFrom, Processor, ContainerGeometry, Crypto.Ideal, AllIntact, Ordered;
    assert v.header.headerSize == HEADER_SIZE by { KeyedHeaderSize(x, v.header); }
    SizedFacts(v);
    var g := v.G();
    FitsWhenAccepted(g, v.next, files, v.header.containerSize);
    SkipPositive(g, v.next);
    k := StorePlan(x.c, g, nonces, StartOf(v), files, 0, 0, contents);
  }

  lemma {:induction false} KeyedHeaderSize(x: Context, f: Fields)
    requires Keyed(x, f)
    ensures f.headerSize == HEADER_SIZE && f.WellFormed()
  {
  }

  lemma {:induction false} Accepted(x: Context, v: Volume, contents: seq<seq<byte>>, files: seq<InputFile>)
    requires Ready(x, v, contents) && !Refused(v, files)
    ensures Required(files) <= DataBytes(v.G(), v.next, v.header.containerSize)
  {
    hide Keyed, Sized, Library, Refused, ContainerGeometry, DataBytes, Geometry.Skip;
    KeyedHeaderSize(x, v.header);
    RefusedExactly(v, files);
  }

  // ---- A successful add ----

  lemma {:induction false} IntactOffSlots(c: Crypto, g: Geometry, d: seq<byte>, d': seq<byte>, e: FileEntry,
          content: seq<byte>)
    requires g.Separated() && Intact(c, g, d, e, content) && |d| <= |d'|
    requires forall p :: 0 <= p < |d| && !g.InSlot(p) ==> d'[p] == d[p]
    ensures Intact(c, g, d', e, content)
  {
    hide Stored, End, Split;
    StoredDependsOn(c, g, d, d', e.offset, Split(content));
  }

  /** Stored files do not depend on the slots. */
  lemma {:induction false} LibraryOffSlots(c: Crypto, g: Geometry, d: seq<byte>, d': seq<byte>, entries: seq<FileEntry>,
          contents: seq<seq<byte>>, next: nat)
    requires g.Separated() && Library(c, g, d, entries, contents, next) && |d| <= |d'|
    requires forall p :: 0 <= p < |d| && !g.InSlot(p) ==> d'[p] == d[p]
    ensures Library(c, g, d', entries, contents, next)
  {
    hide Intact, Ordered;
    forall i | 0 <= i < |entries| ensures Intact(c, g, d', entries[i], contents[i]) {
      IntactOffSlots(c, g, d, d', entries[i], contents[i]);
    }
  }

  /** The session just before the table is saved. */
  function BeforeSave(v: Volume, w: Store): Volume { After(v, w).(next := w.offset) }

  lemma {:induction false} AfterFacts(x: Context, v: Volume, w: Store)
    requires Keyed(x, v.header)
    ensures Keyed(x, After(v, w).header) && After(v, w).G() == v.G() && (Sized(v.header) ==> Sized(After(v, w).header))
    ensures After(v, w).header.containerSize == v.header.containerSize
    ensures After(v, w).header.maxTableSize == v.header.maxTableSize
  {
    KeyedHeaderSize(x, v.header);
    WordFits(v.header.fileTableSize);
    WordFits(v.header.headerVersion);
    var f := v.header;
    KeyedKept(x, f, f.fileTableSize, f.headerVersion, w.fileCount % TWO_TO_THE_32, f.hmac);
    hide Keyed, Fits;
  }

  lemma {:induction false} StoredFirstFacts(c: Crypto, g: Geometry, w: Store, files: seq<InputFile>,
          contents: seq<seq<byte>>, k: nat, v: Store)
    requires k <= |files| && StoredFirst(c, g, w, files, contents, k, v)
    ensures v.entries == EntriesAfter(c, g, w.entries, w.offset, files[..k]) && v.fileCount == w.fileCount + k
    ensures Library(c, g, v.disk, v.entries, contents + ContentsOf(files[..k]), v.offset)
    ensures w.offset <= v.offset && |w.disk| <= |v.disk|
    ensures forall p :: 0 <= p < |w.disk| && (g.InSlot(p) || p < w.offset) ==> v.disk[p] == w.disk[p]
  {
  }

  /** Saving a table that lists intact files makes the container healthy. */
  lemma {:induction false} SavedHealthy(x: Context, u: Volume, contents: seq<seq<byte>>, nonce: seq<byte>)
    returns (enc: seq<byte>)
    requires x.Ideal() && Keyed(x, u.header) && Sized(u.header) && |u.disk| == u.header.containerSize
    requires Library(x.c, u.G(), u.disk, u.entries, contents, u.next) && 0 < u.next <= u.header.containerSize
    requires SaveTable(x, u, nonce).Going?
    ensures var v' := SaveTable(x, u, nonce).w;
      && Healthy(x, v', enc, contents) && v'.G() == u.G() && v'.Tab() == u.Tab()
      && |v'.disk| == |u.disk| && (forall p :: 0 <= p < |u.disk| && !u.G().InSlot(p) ==> v'.disk[p] == u.disk[p])
  {
    hide Keyed, Sized, Library, Context.Ideal, SaveTable, Saved, SlotBytes, Replicated, Serialize, Held;
    hide ContainerGeometry, Geometry.InSlot;
    KeyedHeaderSize(x, u.header);
    SizedFacts(u);
    enc := Saves(x, u, nonce);
    LibraryOffSlots(x.c, u.G(), u.disk, SaveTable(x, u, nonce).w.disk, u.entries, contents, u.next);
  }

  ghost predicate DataKept(g: Geometry, d: seq<byte>, d': seq<byte>, lo: nat) {
    |d| == |d'| && forall p :: 0 <= p < |d| && p < lo && !g.InSlot(p) ==> d'[p] == d[p]
  }

  /** A successful add, from any session whose listed files are intact: the container is healthy
      again, lists the old files followed by the new ones, and has changed no data byte below the
      old end of data. */
  lemma {:induction false} AddKeepsHealthy(x: Context, v: Volume, contents: seq<seq<byte>>, files: seq<InputFile>,
          nonces: nat -> seq<byte>, nonce: seq<byte>)
    returns (enc: seq<byte>)
    requires x.Ideal() && Ready(x, v, contents) && Required(files) <= DataBytes(v.G(), v.next, v.header.containerSize)
    requires Finish(x, v, OneThread(x, v, files, nonces), nonce).Going?
    ensures var v', g := Finish(x, v, OneThread(x, v, files, nonces), nonce).w, v.G();
      && Healthy(x, v', enc, contents + ContentsOf(files)) && v'.G() == g
      && v'.entries == EntriesAfter(x.c, g, v.entries, g.Skip(v.next), files)
      && v'.next == OffsetAfter(g, g.Skip(v.next), files)
      && DataKept(g, v.disk, v'.disk, v.next)
  {
    hide Keyed, Sized, Library, Encrypted, EntriesAfter, OffsetAfter, Context.Ideal, SaveTable, After, StoredFirst;
    hide Healthy, Geometry.Skip, Geometry.InSlot, ContainerGeometry, DataKept;
    KeyedHeaderSize(x, v.header);
    SizedFacts(v);
    var k := RunOutcome(x, v, contents, files, nonces);
    var w := OneThread(x, v, files, nonces).w;
    assert files[..k] == files;
    StoredFirstFacts(x.c, v.G(), StartOf(v), files, contents, k, w);
    AfterFacts(x, v, w);
    BeforeSaveFacts(v, w);
    enc := SavedHealthy(x, BeforeSave(v, w), contents + ContentsOf(files), nonce);
    DataKeptThroughSave(v.G(), v.disk, w.disk, SaveTable(x, BeforeSave(v, w), nonce).w.disk, v.next);
  }

  lemma {:induction false} DataKeptThroughSave(g: Geometry, d: seq<byte>, d': seq<byte>, d'': seq<byte>, lo: nat)
    requires |d| == |d'| == |d''| && forall p :: 0 <= p < |d| && p < lo ==> d'[p] == d[p]
    requires forall p :: 0 <= p < |d| && !g.InSlot(p) ==> d''[p] == d'[p]
    ensures DataKept(g, d, d'', lo)
  {
  }

  lemma {:induction false} BeforeSaveFacts(v: Volume, w: Store)
    ensures var u := BeforeSave(v, w);
      && u.disk == w.disk && u.entries == w.entries && u.next == w.offset
      && u.header == After(v, w).header && u.G() == After(v, w).G()
  {
  }

  // ---- A failed add ----

  lemma {:induction false} FailedSave(x: Context, v: Volume, nonce: seq<byte>)
    requires SaveTable(x, v, nonce).Thrown? && Keyed(x, v.header)
    ensures var u := SaveTable(x, v, nonce).w;
      && u.disk == v.disk && u.entries == v.entries && u.next == v.next && u.G() == v.G()
      && Keyed(x, u.header) && (Sized(v.header) ==> Sized(u.header)) && u.header.containerSize == v.header.containerSize
  {
    KeyedHeaderSize(x, v.header);
    var f := v.header;
    WordFits(f.fileCount);
    WordFits(f.headerVersion);
    KeyedKept(x, f, (|x.text(v.Tab())| + OVERHEAD) % TWO_TO_THE_32, f.headerVersion, f.fileCount, f.hmac);
    hide Keyed, Fits;
  }

  /** Every failure of an add (no room, an unreadable input, an encryption error, a table that is
      too large) leaves every slot byte, every data byte below the end of data and the length of
      the file as they were; the table in memory lists the old files and a prefix of the new ones. */
  lemma {:induction false} FailedAddHarmless(x: Context, v: Volume, contents: seq<seq<byte>>, files: seq<InputFile>,
          nonces: nat -> seq<byte>, nonce: seq<byte>)
    returns (k: nat)
    requires x.Ideal() && Ready(x, v, contents)
    requires Add(x, v, files, OneThread(x, v, files, nonces), nonce).Thrown?
    ensures var v', g := Add(x, v, files, OneThread(x, v, files, nonces), nonce).w, v.G();
      && k <= |files| && v'.entries == EntriesAfter(x.c, g, v.entries, g.Skip(v.next), files[..k])
      && v'.G() == g && |v'.disk| == |v.disk|
      && (forall p :: 0 <= p < |v.disk| && (g.InSlot(p) || p < v.next) ==> v'.disk[p] == v.disk[p])
      && Library(x.c, g, v'.disk, v.entries, contents, g.Skip(v.next))
      && v'.next == (if !Refused(v, files) && k == |files| then OffsetAfter(g, g.Skip(v.next), files) else v.next)
      && (Refused(v, files) ==> k == 0)
      && (!Refused(v, files) ==> (k == |files| <==> OneThread(x, v, files, nonces).Going?))
  {
    hide Keyed, Sized, Library, Encrypted, EntriesAfter, OffsetAfter, Context.Ideal, SaveTable, After, StoredFirst;
    hide Geometry.Skip;
    KeyedHeaderSize(x, v.header);
    SizedFacts(v);
    if Refused(v, files) {
      k := 0;
      NoEntries(x.c, v.G(), v.entries, v.G().Skip(v.next), files);
    } else {
      Accepted(x, v, contents, files);
      hide Refused;
      k := RunOutcome(x, v, contents, files, nonces);
      var w := OneThread(x, v, files, nonces).w;
      StoredFirstFacts(x.c, v.G(), StartOf(v), files, contents, k, w);
      AfterFacts(x, v, w);
      BeforeSaveFacts(v, w);
      AfterCopies(v, w);
      if k == |files| {
        FailedSave(x, BeforeSave(v, w), nonce);
      }
      LibraryBelow(x.c, v.G(), v.disk, w.disk, v.entries, contents, v.G().Skip(v.next));
    }
  }

  lemma {:induction false} AfterCopies(v: Volume, w: Store)
    ensures After(v, w).disk == w.disk && After(v, w).entries == w.entries && After(v, w).next == v.next
  {
  }

  lemma {:induction false} NoEntries(c: Crypto, g: Geometry, entries: seq<FileEntry>, off: nat, files: seq<InputFile>)
    ensures EntriesAfter(c, g, entries, off, files[..0]) == entries
  {
  }

  lemma {:induction false} LibraryBelow(c: Crypto, g: Geometry, d: seq<byte>, d': seq<byte>, entries: seq<FileEntry>,
          contents: seq<seq<byte>>, next: nat)
    requires g.Separated() && Library(c, g, d, entries, contents, next) && |d| == |d'|
    requires forall p :: 0 <= p < |d| && (g.InSlot(p) || p < next) ==> d'[p] == d[p]
    ensures Library(c, g, d', entries, contents, next)
  {
    hide Intact, ExtentEnd, DistinctNames;
    AllIntactKept(c, g, d, d', entries, contents, next, |d|);
  }

  lemma {:induction false} HoldsKept(d: seq<byte>, d': seq<byte>, g: Geometry, i: nat, bytes: seq<byte>)
    requires i < |g.slots| && |bytes| == g.reserved && Holds(d, g.slots[i], bytes) && |d| == |d'|
    requires forall p :: 0 <= p < |d| && g.InSlot(p) ==> d'[p] == d[p]
    ensures Holds(d', g.slots[i], bytes)
  {
    assert forall p :: g.slots[i] <= p < g.slots[i] + g.reserved ==> g.InSlot(p);
    assert d'[g.slots[i]..g.slots[i] + |bytes|] == d[g.slots[i]..g.slots[i] + |bytes|];
  }

  /** After a failed add the file on disk is the healthy container it was, so reopening it finds the
      old table and all old files. */
  lemma {:induction false} FailedAddKeepsContainer(x: Context, v: Volume, enc: seq<byte>, contents: seq<seq<byte>>,
          files: seq<InputFile>, nonces: nat -> seq<byte>, nonce: seq<byte>)
    requires x.Ideal() && Healthy(x, v, enc, contents)
    requires Add(x, v, files, OneThread(x, v, files, nonces), nonce).Thrown?
    ensures Healthy(x, v.(disk := Add(x, v, files, OneThread(x, v, files, nonces), nonce).w.disk), enc, contents)
  {
    hide Keyed, Saved, Library, Context.Ideal, Add, OneThread, ContainerGeometry, Geometry.InSlot, Serialize, Refused;
    hide EntriesAfter, OffsetAfter;
    HealthyReady(x, v, enc, contents);
    var k := FailedAddHarmless(x, v, contents, files, nonces, nonce);
    var d, g := Add(x, v, files, OneThread(x, v, files, nonces), nonce).w.disk, v.G();
    KeyedHeaderSize(x, v.header);
    SizedFacts(v);
    SerializedLength(v.header);
    SavedFits(x, v.header, v.Tab(), enc);
    SlotBytesLength(v.header, enc);
    var bytes := SlotBytes(Serialize(v.header), enc, v.header.maxTableSize);
    hide SlotBytes, Holds, Sized;
    forall i | 0 <= i < 4 ensures Holds(d, g.slots[i], bytes) { HoldsKept(v.disk, d, g, i, bytes); }
    LibraryBelow(x.c, g, v.disk, d, v.entries, contents, v.next);
  }

  lemma {:induction false} SavedFits(x: Context, f: Fields, t: Table, enc: seq<byte>)
    requires Saved(x, f, t, enc)
    ensures OVERHEAD < |enc| <= f.maxTableSize && f.fileTableSize == |enc|
  {
  }
}
