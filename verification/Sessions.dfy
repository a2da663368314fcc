/** Whole histories of a container: creation, any number of adds under any thread schedules, adds
    that fail, and extraction of everything stored. */
module Sessions {
  import opened Bytes
  import opened Layout
  import opened Fragments
  import opened Chunks
  import opened Sealing
  import opened Tables
  import opened Pipeline
  import opened Encrypt
  import opened Storing
  import opened Runs
  import opened Capacity
  import opened HeaderCodec
  import opened Slots
  import opened Recovery
  import opened Container
  import opened Adding
  import Decrypt
  import Delivery
  import Names

  // ---- Batches of empty files ----

  predicate AllEmpty(files: seq<InputFile>) { forall i :: 0 <= i < |files| ==> files[i].content == [] }

  lemma {:induction false} EmptyFilesStay(g: Geometry, off: nat, files: seq<InputFile>)
    requires g.Separated() && g.Skip(off) == off && AllEmpty(files)
    ensures OffsetAfter(g, off, files) == off
    decreases |files|
  {
    if files != [] {
      EmptyFilesStay(g, off, files[1..]);
    }
  }

  lemma {:induction false} SkipTwice(g: Geometry, off: nat)
    requires g.Separated()
    ensures off <= g.Skip(off) && g.Skip(g.Skip(off)) == g.Skip(off)
  {
    SkipIsLeast(g, off);
    SkipIsLeast(g, g.Skip(off));
  }

  /** An entry that is not empty ends beyond the place where its batch started. */
  lemma {:induction false} NonEmptyEndsBeyond(c: Crypto, g: Geometry, entries: seq<FileEntry>, off: nat,
          files: seq<InputFile>, i: nat)
    requires g.Separated() && i < |files| && files[i].content != []
    ensures |EntriesAfter(c, g, entries, off, files)| == |entries| + |files|
    ensures off < ExtentEnd(g, EntriesAfter(c, g, entries, off, files)[|entries| + i])
  {
    hide EntriesAfter, OffsetAfter;
    EntryPlace(c, g, entries, off, files);
    OffsetGrows(g, off, files[..i]);
    var start := g.Skip(OffsetAfter(g, off, files[..i]));
    SkipIsLeast(g, OffsetAfter(g, off, files[..i]));
    EndCounts(g, start, EncryptedSize(|files[i].content|));
  }

  /** The end of data recomputed for a table without one covers an entry exactly when the slot bytes
      its extent runs across do not exceed the slack of its last block. */
  lemma {:induction false} RecomputedCoversIff(g: Geometry, e: FileEntry)
    requires g.Separated() && g.Disjoint() && e.chunks == ChunkCount(e.size)
    ensures ExtentEnd(g, e) <= EntryEnd(e)
      <==> ReservedIn(g, 0, e.offset, ExtentEnd(g, e)) <= e.chunks * (BLOCK_SIZE + OVERHEAD) - EncryptedSize(e.size)
  {
    EndCounts(g, e.offset, EncryptedSize(e.size));
    DataAndReserved(g, e.offset, ExtentEnd(g, e));
  }

  // ---- Names that extraction accepts ----

  /** A path that can be opened as a file does not end in a directory name. */
  predicate FilePaths(files: seq<InputFile>) {
    forall i :: 0 <= i < |files| ==> Decrypt.SafeName(Names.FileName(files[i].path))
  }

  predicate SafeNames(entries: seq<FileEntry>) { forall i :: 0 <= i < |entries| ==> Decrypt.SafeName(entries[i].name) }

  lemma {:induction false} ResolvedSafe(taken: set<string>, path: string)
    requires Decrypt.SafeName(Names.FileName(path))
    ensures Decrypt.SafeName(Names.Resolve(taken, path))
  {
    var base := Names.FileName(path);
    if base in taken {
      var stem, extension := Names.Stem(base), Names.Extension(base);
      assert |Names.Candidate(stem, Names.FirstFree(taken, stem, 2, extension), extension)| >= 3;
    }
  }

  lemma {:induction false} AppendedSafe(entries: seq<FileEntry>, path: string, checksum: string, offset: nat, size: nat)
    requires SafeNames(entries) && Decrypt.SafeName(Names.FileName(path))
    ensures SafeNames(Appended(entries, path, checksum, offset, size))
  {
    hide Names.Resolve, Names.FileName, Decrypt.SafeName;
    ResolvedSafe(NamesOf(entries), path);
  }

  lemma {:induction false} SafeNamesKept(c: Crypto, g: Geometry, entries: seq<FileEntry>, off: nat,
          files: seq<InputFile>)
    requires SafeNames(entries) && FilePaths(files)
    ensures SafeNames(EntriesAfter(c, g, entries, off, files))
    decreases |files|
  {
    hide Appended, EndOfFile, SafeNames, Names.FileName, Decrypt.SafeName;
    if files != [] {
      var f := files[0];
      AppendedSafe(entries, f.path, c.digest(f.content), g.Skip(off), |f.content|);
      var appended := Appended(entries, f.path, c.digest(f.content), g.Skip(off), |f.content|);
      SafeNamesKept(c, g, appended, EndOfFile(g, off, f), files[1..]);
    }
  }

  // ---- Going on in a session after a failed add ----

  /** The session after a failed add, and how many of the new files its table lists. */
  lemma {:induction false} AfterFailure(x: Context, v: Volume, contents: seq<seq<byte>>, files: seq<InputFile>,
          nonces: nat -> seq<byte>, nonce: seq<byte>)
    returns (k: nat, end: nat)
    requires x.Ideal() && Ready(x, v, contents) && !Refused(v, files)
    requires Add(x, v, files, OneThread(x, v, files, nonces), nonce).Thrown?
    ensures var v', g := Add(x, v, files, OneThread(x, v, files, nonces), nonce).w, v.G();
      && k <= |files| && (k == |files| <==> OneThread(x, v, files, nonces).Going?)
      && v'.G() == g && Keyed(x, v'.header) && Sized(v'.header)
      && v'.header.containerSize == v.header.containerSize == |v'.disk|
      && v'.next == (if k == |files| then end else v.next) && v.next <= g.Skip(v.next) <= end <= v.header.containerSize
      && v'.entries == EntriesAfter(x.c, g, v.entries, g.Skip(v.next), files[..k])
      && Library(x.c, g, v'.disk, v'.entries, contents + ContentsOf(files[..k]), end)
  {
    hide Keyed, Sized, Library, Encrypted, EntriesAfter, OffsetAfter, Context.Ideal, SaveTable, After, StoredFirst;
    hide Geometry.Skip;
    KeyedHeaderSize(x, v.header);
    SizedFacts(v);
    Accepted(x, v, contents, files);
    hide Refused;
    k := RunOutcome(x, v, contents, files, nonces);
    var w := OneThread(x, v, files, nonces).w;
    end := w.offset;
    StoredFirstFacts(x.c, v.G(), StartOf(v), files, contents, k, w);
    AfterFacts(x, v, w);
    BeforeSaveFacts(v, w);
    AfterCopies(v, w);
    if k == |files| {
      FailedSave(x, BeforeSave(v, w), nonce);
    }
  }

  lemma {:induction false} EmptyRetained(c: Crypto, g: Geometry, disk: seq<byte>, entries: seq<FileEntry>, off: nat,
          files: seq<InputFile>, contents: seq<seq<byte>>, end: nat)
    requires g.Separated() && g.Skip(off) == off && AllEmpty(files) && Ordered(g, entries, off)
    requires Library(c, g, disk, EntriesAfter(c, g, entries, off, files), contents, end)
    ensures Library(c, g, disk, EntriesAfter(c, g, entries, off, files), contents, off)
  {
    hide AllIntact, EntriesAfter, OffsetAfter, Ordered, ExtentEnd, Geometry.Skip;
    var r := EntriesAfter(c, g, entries, off, files);
    EntryPlace(c, g, entries, off, files);
    forall i | 0 <= i < |r| ensures ExtentEnd(g, r[i]) <= off {
      if i < |entries| {
        assert r[i] == r[..|entries|][i];
        OrderedBelow(g, entries, off, i);
      } else {
        var j := i - |entries|;
        EmptyFilesStay(g, off, files[..j]);
        assert r[|entries| + j].size == 0;
        EmptyEntryEnd(g, r[i]);
      }
    }
    OrderedUpTo(g, r, end, off);
  }

  lemma {:induction false} OrderedBelow(g: Geometry, entries: seq<FileEntry>, next: nat, i: nat)
    requires Ordered(g, entries, next) && i < |entries|
    ensures ExtentEnd(g, entries[i]) <= next
  {
  }

  lemma {:induction false} OrderedUpTo(g: Geometry, entries: seq<FileEntry>, next: nat, lower: nat)
    requires Ordered(g, entries, next) && forall i :: 0 <= i < |entries| ==> ExtentEnd(g, entries[i]) <= lower
    ensures Ordered(g, entries, lower)
  {
    hide ExtentEnd, DistinctNames;
  }

  lemma {:induction false} EmptyEntryEnd(g: Geometry, e: FileEntry)
    requires e.size == 0
    ensures ExtentEnd(g, e) == e.offset
  {
  }

  lemma {:induction false} NotOrdered(c: Crypto, g: Geometry, entries: seq<FileEntry>, off: nat, files: seq<InputFile>,
          k: nat, next: nat)
    requires g.Separated() && k <= |files| && !AllEmpty(files[..k]) && next <= off
    ensures !Ordered(g, EntriesAfter(c, g, entries, off, files[..k]), next)
  {
    hide EntriesAfter, ExtentEnd, DistinctNames;
    var i :| 0 <= i < k && files[..k][i].content != [];
    NonEmptyEndsBeyond(c, g, entries, off, files[..k], i);
  }

  /** After a failed add the session can go on exactly when all its files had been written (only
      the table did not fit), or every file its table has kept from that add is empty. */
  lemma {:induction false} SessionUsableIff(x: Context, v: Volume, contents: seq<seq<byte>>, files: seq<InputFile>,
          nonces: nat -> seq<byte>, nonce: seq<byte>)
    returns (k: nat)
    requires x.Ideal() && Ready(x, v, contents) && !Refused(v, files)
    requires Add(x, v, files, OneThread(x, v, files, nonces), nonce).Thrown?
    ensures k <= |files| && (k == |files| <==> OneThread(x, v, files, nonces).Going?)
    ensures var u, g := Add(x, v, files, OneThread(x, v, files, nonces), nonce).w, v.G();
      && u.G() == g && u.entries == EntriesAfter(x.c, g, v.entries, g.Skip(v.next), files[..k])
      && (k < |files| ==> u.next == v.next)
      && (Ready(x, u, contents + ContentsOf(files[..k])) <==> k == |files| || AllEmpty(files[..k]))
  {
    hide Keyed, Sized, Library, EntriesAfter, OneThread, Context.Ideal, Add, Refused, AllIntact, Ordered, AllEmpty;
    var end: nat;
    k, end := AfterFailure(x, v, contents, files, nonces, nonce);
    var v', g := Add(x, v, files, OneThread(x, v, files, nonces), nonce).w, v.G();
    KeyedHeaderSize(x, v.header);
    SizedFacts(v);
    SkipTwice(g, v.next);
    SkipTwice(g, end);
    var all := contents + ContentsOf(files[..k]);
    if k == |files| {
      LibraryFrom(x.c, g, v'.disk, v'.entries, all, end, g.Skip(end));
    } else if AllEmpty(files[..k]) {
      LibraryOrdered(x.c, g, v.disk, v.entries, contents, g.Skip(v.next));
      EmptyRetained(x.c, g, v'.disk, v.entries, g.Skip(v.next), files[..k], all, end);
    } else {
      NotOrdered(x.c, g, v.entries, g.Skip(v.next), files, k, g.Skip(v.next));
      if Ready(x, v', all) {
        LibraryOrdered(x.c, g, v'.disk, v'.entries, all, g.Skip(v'.next));
      }
    }
  }

  lemma {:induction false} LibraryOrdered(c: Crypto, g: Geometry, disk: seq<byte>, entries: seq<FileEntry>,
          contents: seq<seq<byte>>, next: nat)
    requires Library(c, g, disk, entries, contents, next)
    ensures Ordered(g, entries, next)
  {
  }

  /** What a run that does not throw adds to any table, in whatever state the container is. */
  lemma {:induction false} PlanEntries(c: Crypto, g: Geometry, nonces: nat -> seq<byte>, w: Store,
          files: seq<InputFile>, index: nat, base: nat)
    requires g.Separated() && c.Ideal() && !w.started
    requires Fold(Processor(g), w, ResultsFrom(c, nonces, Plan(c, files, index), base)).Going?
    ensures var v := Fold(Processor(g), w, ResultsFrom(c, nonces, Plan(c, files, index), base)).w;
      && v.entries == EntriesAfter(c, g, w.entries, w.offset, files) && v.offset == OffsetAfter(g, w.offset, files)
      && v.fileCount == w.fileCount + |files| && w.offset <= v.offset && Kept(g, w.disk, v.disk, w.offset, v.offset)
    decreases |files|
  {
    hide FileItems, ResultsFrom, FileDone, EndOfFile, Fold, Processor, Geometry.Separated, Crypto.Ideal, Kept;
    if files == [] {
      NoFiles(c, g, nonces, w, index, base);
    } else {
      var f := files[0];
      var items := FileItems(c, f, index);
      var tail := if f.readable then Plan(c, files[1..], index + 1) else [];
      StoreFile(c, g, nonces, w, f, index, base);
      ResultsConcat(c, nonces, items, tail, base);
      FoldConcat(Processor(g), w, ResultsFrom(c, nonces, items, base), ResultsFrom(c, nonces, tail, base + |items|));
      var o := Fold(Processor(g), w, ResultsFrom(c, nonces, items, base));
      DoneFacts(c, g, w, f, o.w, files);
      DoneBehind(c, g, w, f, o.w);
      PlanEntries(c, g, nonces, o.w, files[1..], index + 1, base + |items|);
      var v := Fold(Processor(g), o.w, ResultsFrom(c, nonces, tail, base + |items|)).w;
      KeptTransitive(g, w.disk, o.w.disk, v.disk, w.offset, o.w.offset, v.offset);
    }
  }

  lemma {:induction false} AddedEntries(x: Context, v: Volume, files: seq<InputFile>, nonces: nat -> seq<byte>,
          nonce: seq<byte>)
    requires x.Ideal() && v.G().Separated() && Finish(x, v, OneThread(x, v, files, nonces), nonce).Going?
    ensures var v', g := Finish(x, v, OneThread(x, v, files, nonces), nonce).w, v.G();
      && v'.entries == EntriesAfter(x.c, g, v.entries, g.Skip(v.next), files)
      && v'.next == OffsetAfter(g, g.Skip(v.next), files)
  {
    hide EntriesAfter, OffsetAfter, ContainerGeometry, SlotBytes, Replicated, Crypto.Ideal, Fold, ResultsFrom, Plan;
    hide Geometry.Separated;
    PlanEntries(x.c, v.G(), nonces, StartOf(v), files, 0, 0);
  }

  /** Retained files that are not empty are overwritten: their extents overlap those of the next add. */
  lemma {:induction false} RetainedOverlap(c: Crypto, g: Geometry, entries: seq<FileEntry>, off: nat,
          kept: seq<InputFile>, files: seq<InputFile>)
    requires g.Separated() && g.Skip(off) == off && !AllEmpty(kept)
    ensures var e1 := EntriesAfter(c, g, entries, off, kept);
      !Ordered(g, EntriesAfter(c, g, e1, off, files), OffsetAfter(g, off, files))
  {
    hide EntriesAfter, ExtentEnd, DistinctNames;
    var e1 := EntriesAfter(c, g, entries, off, kept);
    var i :| 0 <= i < |kept| && kept[i].content != [];
    NonEmptyEndsBeyond(c, g, entries, off, kept, i);
    EntryPlace(c, g, e1, off, files);
    var r := EntriesAfter(c, g, e1, off, files);
    assert r[|entries| + i] == r[..|e1|][|entries| + i];
    if files != [] {
      assert files[..0] == [];
      assert r[|e1| + 0].offset == off;
    }
  }

  /** The next successful add of that session leaves extents in order exactly in the same cases. */
  lemma {:induction false} NextAddOrderedIff(x: Context, v: Volume, contents: seq<seq<byte>>, files: seq<InputFile>,
          nonces: nat -> seq<byte>, nonce: seq<byte>, more: seq<InputFile>, nonces': nat -> seq<byte>,
          nonce': seq<byte>)
    returns (k: nat)
    requires x.Ideal() && Ready(x, v, contents) && !Refused(v, files)
    requires Add(x, v, files, OneThread(x, v, files, nonces), nonce).Thrown?
    requires var u := Add(x, v, files, OneThread(x, v, files, nonces), nonce).w;
      Add(x, u, more, OneThread(x, u, more, nonces'), nonce').Going?
    ensures k <= |files| && (k == |files| <==> OneThread(x, v, files, nonces).Going?)
    ensures var u := Add(x, v, files, OneThread(x, v, files, nonces), nonce).w;
      var u' := Add(x, u, more, OneThread(x, u, more, nonces'), nonce').w;
      Ordered(u'.G(), u'.entries, u'.next) <==> k == |files| || AllEmpty(files[..k])
  {
    hide Keyed, Sized, Library, EntriesAfter, OneThread, Context.Ideal, AllIntact, Ordered, AllEmpty, OffsetAfter;
    hide Finish, DataBytes, AllPresent, FreeBytes, ContainerGeometry, Geometry.Separated, Geometry.Skip;
    k := SessionUsableIff(x, v, contents, files, nonces, nonce);
    var u, g := Add(x, v, files, OneThread(x, v, files, nonces), nonce).w, v.G();
    assert g.Separated() by { KeyedHeaderSize(x, v.header); SizedFacts(v); }
    AddedEntries(x, u, more, nonces', nonce');
    SameGeometry(x, u, more, OneThread(x, u, more, nonces'), nonce');
    var u' := Add(x, u, more, OneThread(x, u, more, nonces'), nonce').w;
    if k == |files| || AllEmpty(files[..k]) {
      var all := contents + ContentsOf(files[..k]);
      Accepted(x, u, all, more);
      var enc := AddKeepsHealthy(x, u, all, more, nonces', nonce');
      HealthyOrdered(x, u', enc, all + ContentsOf(more));
    } else {
      SkipTwice(g, v.next);
      RetainedOverlap(x.c, g, v.entries, g.Skip(v.next), files[..k], more);
    }
  }

  lemma {:induction false} SameGeometry(x: Context, v: Volume, files: seq<InputFile>, run: Outcome<Store>,
          nonce: seq<byte>)
    ensures Add(x, v, files, run, nonce).w.G() == v.G()
  {
  }

  lemma {:induction false} HealthyOrdered(x: Context, v: Volume, enc: seq<byte>, contents: seq<seq<byte>>)
    requires Healthy(x, v, enc, contents)
    ensures Ordered(v.G(), v.entries, v.next)
  {
  }

  // ---- Under any schedule ----

  /** One successful operation: the files, the nonces that were drawn, and how the threads ran. */
  datatype Batch = Batch(files: seq<InputFile>, nonces: nat -> seq<byte>, tableNonce: seq<byte>, workers: nat,
                         schedule: seq<Action>, final: State<Chunk, Chunk, Store>)
  {
    function Result(): Outcome<Store> { if final.writer.Finished? then Going(final.w) else Thrown(final.w) }
  }

  ghost predicate Scheduled(x: Context, v: Volume, b: Batch) {
    b.workers > 0 && Maximal(EncryptConfig(x.c, b.nonces, v.G(), b.files, StartOf(v), b.workers), b.schedule, b.final)
  }

  lemma {:induction false} ScheduledIsOneThread(x: Context, v: Volume, b: Batch)
    requires Scheduled(x, v, b)
    ensures b.Result() == OneThread(x, v, b.files, b.nonces)
  {
    hide Maximal, Fold, Processor, ResultsFrom, Plan, ContainerGeometry;
    var cfg := EncryptConfig(x.c, b.nonces, v.G(), b.files, StartOf(v), b.workers);
    EveryMaximalSchedule(cfg, b.schedule, b.final);
    EncryptResults(x.c, b.nonces, v.G(), b.files, StartOf(v), b.workers);
  }

  function Files(batches: seq<Batch>): seq<InputFile> {
    if batches == [] then [] else batches[0].files + Files(batches[1..])
  }

  /** `v'` results from `v` by successful adds, one after the other. */
  ghost predicate Adds(x: Context, v: Volume, batches: seq<Batch>, v': Volume)
    decreases |batches|
  {
    if batches == [] then v == v' else
      var b := batches[0];
      && Scheduled(x, v, b)
      && Add(x, v, b.files, b.Result(), b.tableNonce).Going?
      && Adds(x, Add(x, v, b.files, b.Result(), b.tableNonce).w, batches[1..], v')
  }

  lemma {:induction false} ContentsConcat(a: seq<InputFile>, b: seq<InputFile>)
    ensures ContentsOf(a + b) == ContentsOf(a) + ContentsOf(b)
  {
  }

  /** Every history of successful adds keeps the container healthy; it lists the old entries,
      unchanged, followed by one for each added file. */
  lemma {:induction false} AddsKeepHealthy(x: Context, v: Volume, enc: seq<byte>, contents: seq<seq<byte>>,
          batches: seq<Batch>, v': Volume)
    returns (enc': seq<byte>)
    requires x.Ideal() && Healthy(x, v, enc, contents) && Adds(x, v, batches, v')
    ensures Healthy(x, v', enc', contents + ContentsOf(Files(batches))) && v'.G() == v.G() && v.entries <= v'.entries
    ensures SafeNames(v.entries) && FilePaths(Files(batches)) ==> SafeNames(v'.entries)
    decreases |batches|
  {
    hide SafeNames, Names.FileName, Decrypt.SafeName, Healthy, Scheduled, Add, OneThread, Context.Ideal;
    hide ContainerGeometry;
    if batches == [] {
      assert contents + ContentsOf([]) == contents;
      enc' := enc;
    } else {
      var b := batches[0];
      ScheduledIsOneThread(x, v, b);
      if FilePaths(Files(batches)) { PathsSplit(b.files, Files(batches[1..])); }
      var u := Add(x, v, b.files, b.Result(), b.tableNonce).w;
      var enc1 := OneAddKeepsHealthy(x, v, enc, contents, b.files, b.nonces, b.tableNonce);
      enc' := AddsKeepHealthy(x, u, enc1, contents + ContentsOf(b.files), batches[1..], v');
      ContentsConcat(b.files, Files(batches[1..]));
      assert contents + ContentsOf(b.files) + ContentsOf(Files(batches[1..])) == contents + ContentsOf(Files(batches));
    }
  }

  lemma {:induction false} OneAddKeepsHealthy(x: Context, v: Volume, enc: seq<byte>, contents: seq<seq<byte>>,
          files: seq<InputFile>, nonces: nat -> seq<byte>, nonce: seq<byte>)
    returns (enc': seq<byte>)
    requires x.Ideal() && Healthy(x, v, enc, contents) && Add(x, v, files, OneThread(x, v, files, nonces), nonce).Going?
    ensures var v' := Add(x, v, files, OneThread(x, v, files, nonces), nonce).w;
      && Healthy(x, v', enc', contents + ContentsOf(files)) && v'.G() == v.G() && v.entries <= v'.entries
      && (SafeNames(v.entries) && FilePaths(files) ==> SafeNames(v'.entries))
  {
    hide SafeNames, FilePaths, Healthy, OneThread, Context.Ideal, ContainerGeometry, Ready, Finish, DataBytes;
    hide EntriesAfter;
    HealthyReady(x, v, enc, contents);
    Accepted(x, v, contents, files);
    enc' := AddKeepsHealthy(x, v, contents, files, nonces, nonce);
    EntryPlace(x.c, v.G(), v.entries, v.G().Skip(v.next), files);
    if SafeNames(v.entries) && FilePaths(files) {
      SafeNamesKept(x.c, v.G(), v.entries, v.G().Skip(v.next), files);
    }
  }

  // ---- Creation ----

  /** write */
  function Create(x: Context, f: Fields, files: seq<InputFile>, run: Outcome<Store>,
          nonce: seq<byte>): Option<Outcome<Volume>>
  {
    if CreateRefused(f, files) then None else Some(Finish(x, Blank(x, f), run, nonce))
  }

  lemma {:induction false} BlankReady(x: Context, f: Fields)
    requires x.Ideal() && Keyed(x, f) && Sized(f)
    ensures Ready(x, Blank(x, f), [])
    ensures Blank(x, f).G() == ContainerGeometry(f.containerSize, f.headerSize + f.maxTableSize)
    ensures Blank(x, f).next == f.headerSize + f.maxTableSize && Blank(x, f).header.containerSize == f.containerSize
    ensures Blank(x, f).entries == []
  {
    hide HeaderCodec.Prefix, Serialize, SlotOffset, Fields.WellFormed;
    BlankKeyed(x, f);
    var v := Blank(x, f);
    SizedFacts(v);
    SerializedLength(v.header);
    ReplicatedLength(v.G(), Zeros(f.containerSize), 4, Serialize(v.header));
  }

  lemma {:induction false} BlankKeyed(x: Context, f: Fields)
    requires x.Ideal() && Keyed(x, f)
    ensures Keyed(x, Coded(x.s, f)) && Coded(x.s, f).WellFormed() && Coded(x.s, f).headerSize == HEADER_SIZE
  {
    KeyedHeaderSize(x, f);
    WordFits(f.fileCount);
    WordFits(f.headerVersion);
    WordFits(f.fileTableSize);
    KeyedKept(x, f, f.fileTableSize, f.headerVersion, f.fileCount, Coded(x.s, f).hmac);
    KeyedHeaderSize(x, Coded(x.s, f));
    hide Keyed, Fits;
  }

  /** A successful creation, in any size that separates the slots, yields a healthy container with
      exactly the given files. */
  lemma {:induction false} CreateHealthy(x: Context, f: Fields, files: seq<InputFile>, nonces: nat -> seq<byte>,
          nonce: seq<byte>)
    returns (enc: seq<byte>)
    requires x.Ideal() && Keyed(x, f) && Sized(f)
    requires var r := Create(x, f, files, OneThread(x, Blank(x, f), files, nonces), nonce); r.Some? && r.value.Going?
    ensures var v := Create(x, f, files, OneThread(x, Blank(x, f), files, nonces), nonce).value.w;
      && Healthy(x, v, enc, ContentsOf(files)) && |v.entries| == |files| && (FilePaths(files) ==> SafeNames(v.entries))
      && v.G() == ContainerGeometry(f.containerSize, f.headerSize + f.maxTableSize)
  {
    hide Healthy, OneThread, Context.Ideal, ContainerGeometry, Ready, Finish, DataBytes, EntriesAfter, Blank;
    hide Fields.WellFormed, FilePaths;
    KeyedHeaderSize(x, f);
    BlankReady(x, f);
    AvailableExact(f.containerSize, f.headerSize + f.maxTableSize);
    enc := AddKeepsHealthy(x, Blank(x, f), [], files, nonces, nonce);
    assert [] + ContentsOf(files) == ContentsOf(files);
    EntryPlace(x.c, Blank(x, f).G(), [], Blank(x, f).G().Skip(Blank(x, f).next), files);
    if FilePaths(files) {
      SafeNamesKept(x.c, Blank(x, f).G(), [], Blank(x, f).G().Skip(Blank(x, f).next), files);
    }
  }

  // ---- End to end ----

  lemma {:induction false} HealthyExtracts(x: Context, v: Volume, enc: seq<byte>, contents: seq<seq<byte>>)
    requires Healthy(x, v, enc, contents) && SafeNames(v.entries)
    ensures AllIntact(x.c, v.G(), v.disk, v.entries, contents)
    ensures Delivery.UsableNames(v.entries) && DistinctNames(v.entries)
  {
    hide Keyed, Saved, Held, Intact, ContainerGeometry, Names.FileName, Decrypt.SafeName;
  }

  /** Create a container, add any batches of files to it, extract everything: whatever the schedules
      of the threads, every stored name comes back with the bytes of its file, and no checksum fails. */
  lemma {:induction false} EndToEnd(x: Context, f: Fields, first: Batch, batches: seq<Batch>, v: Volume,
          outputs: map<string, seq<byte>>, workers: nat, schedule: seq<Action>,
          t: State<Decrypt.Task, Chunk, Decrypt.Output>)
    requires x.Ideal() && Keyed(x, f) && Sized(f) && Scheduled(x, Blank(x, f), first)
    requires var r := Create(x, f, first.files, first.Result(), first.tableNonce);
      r.Some? && r.value.Going? && Adds(x, r.value.w, batches, v)
    requires FilePaths(first.files + Files(batches))
    requires workers > 0 && Maximal(ExtractConfig(x.c, v.G(), v.disk, v.entries, outputs, workers), schedule, t)
    ensures var contents := ContentsOf(first.files + Files(batches));
      && t.Done() && t.writer.Finished? && t.w.failures == []
      && |v.entries| == |contents| && DistinctNames(v.entries)
      && (forall i :: 0 <= i < |contents| ==>
            v.entries[i].name in t.w.files && t.w.files[v.entries[i].name] == contents[i])
  {
    hide Healthy, Scheduled, OneThread, Context.Ideal, ContainerGeometry, Keyed, Sized, Create, Maximal, Adds;
    hide Names.FileName, Decrypt.SafeName, AllIntact, Delivery.UsableNames, SafeNames, Files;
    ScheduledIsOneThread(x, Blank(x, f), first);
    var v0 := Create(x, f, first.files, first.Result(), first.tableNonce).value.w;
    PathsSplit(first.files, Files(batches));
    var enc := CreateHealthy(x, f, first.files, first.nonces, first.tableNonce);
    var enc' := AddsKeepHealthy(x, v0, enc, ContentsOf(first.files), batches, v);
    ContentsConcat(first.files, Files(batches));
    var contents := ContentsOf(first.files + Files(batches));
    HealthyExtracts(x, v, enc', contents);
    IntactLengths(x.c, v.G(), v.disk, v.entries, contents);
    DistinctConsistent(v.entries, contents);
    EveryExtractRun(x.c, v.G(), v.disk, v.entries, contents, outputs, workers, schedule, t);
  }

  lemma {:induction false} IntactLengths(c: Crypto, g: Geometry, disk: seq<byte>, entries: seq<FileEntry>,
          contents: seq<seq<byte>>)
    requires AllIntact(c, g, disk, entries, contents)
    ensures |entries| == |contents|
  {
  }

  lemma {:induction false} DistinctConsistent(entries: seq<FileEntry>, contents: seq<seq<byte>>)
    requires |entries| == |contents| && DistinctNames(entries)
    ensures Consistent(entries, contents)
  {
  }

  lemma {:induction false} PathsSplit(a: seq<InputFile>, b: seq<InputFile>)
    requires FilePaths(a + b)
    ensures FilePaths(a) && FilePaths(b)
  {
    assert forall i :: 0 <= i < |a| ==> a[i] == (a + b)[i];
    assert forall i :: 0 <= i < |b| ==> b[i] == (a + b)[|a| + i];
  }
}
