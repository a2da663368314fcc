/** Whole runs of the two pipelines: what every schedule of the threads leaves behind. */
module Runs {
  import opened Bytes
  import opened Layout
  import opened Fragments
  import opened Sealing
  import opened Tables
  import opened Pipeline
  import opened Encrypt
  import opened Storing
  import opened Decrypt
  import opened Delivery
  import Names

  /** A schedule after which no thread can take another step. */
  ghost predicate Maximal<T, R, W>(c: Config<T, R, W>, schedule: seq<Action>, t: State<T, R, W>) {
    Run(c, Init(c), schedule, t) && !exists a :: Enabled(c, t, a)
  }

  /** Whether the threads finish is decided by the input, not by the schedule: they all do, in every way of
      running them, if no read throws or the writer throws at an earlier chunk; otherwise in every way of
      running them all but the reader wait in vain, with what one thread would have up to that read. */
  lemma {:induction false} EveryMaximalScheduleEnds<T, R, W>(c: Config<T, R, W>, schedule: seq<Action>,
          t: State<T, R, W>)
    requires c.workers > 0 && c.readCapacity > 0 && c.writeCapacity > 0 && Maximal(c, schedule, t)
    ensures t.Done() <==> Completes(c)
    ensures !Completes(c) ==> Starved(c, t) && c.Prefix(c.FirstBreak(0)) == Going(t.w)
    ensures |schedule| <= Measure(c, Init(c))
  {
    hide Run, Enabled, Measure, Fold, Inv, Starved, State.Done, Completes;
    StuckIff(c, schedule, t);
    EndsByInput(c, t);
    SchedulesEnd(c, Init(c), schedule, t);
  }

  /** A read that throws at once leaves all other threads waiting with nothing done. */
  lemma {:induction false} BreaksAtOnce<T, R, W>(c: Config<T, R, W>, schedule: seq<Action>, t: State<T, R, W>)
    requires c.workers > 0 && c.readCapacity > 0 && c.writeCapacity > 0 && Maximal(c, schedule, t)
    requires c.items != [] && c.Breaking(0)
    ensures Starved(c, t) && !t.Done() && t.w == c.start
  {
    hide Maximal, Measure, Starved, State.Done;
    assert c.FirstBreak(0) == 0 && c.Prefix(0) == Going(c.start);
    EveryMaximalScheduleEnds(c, schedule, t);
  }

  /** However the threads are scheduled, they all finish, and the writer ends as one thread would. */
  lemma {:induction false} EveryMaximalSchedule<T, R, W>(c: Config<T, R, W>, schedule: seq<Action>, t: State<T, R, W>)
    requires c.workers > 0 && c.readCapacity > 0 && c.writeCapacity > 0 && Maximal(c, schedule, t) && Completes(c)
    ensures t.Done() && c.Prefix(|c.items|) == if t.writer.Finished? then Going(t.w) else Thrown(t.w)
    ensures |schedule| <= Measure(c, Init(c))
  {
    hide Run, Enabled, Measure, Fold, Completes, Starved, State.Done;
    EveryMaximalScheduleEnds(c, schedule, t);
    ScheduleIndependence(c, schedule, t);
  }

  /** Two runs with the same input agree on everything the writer produced. */
  lemma {:induction false} SchedulesAgree<T, R, W>(c: Config<T, R, W>, s1: seq<Action>, t1: State<T, R, W>,
          s2: seq<Action>, t2: State<T, R, W>)
    requires c.workers > 0 && c.readCapacity > 0 && c.writeCapacity > 0 && Maximal(c, s1, t1) && Maximal(c, s2, t2)
    ensures t1.w == t2.w && (t1.Done() <==> t2.Done())
    ensures t1.Done() ==> (t1.writer.Finished? <==> t2.writer.Finished?)
  {
    hide Maximal, Fold, Completes, Starved, State.Done;
    EveryMaximalScheduleEnds(c, s1, t1);
    EveryMaximalScheduleEnds(c, s2, t2);
    if Completes(c) {
      EveryMaximalSchedule(c, s1, t1);
      EveryMaximalSchedule(c, s2, t2);
    }
  }

  /** A schedule that cannot be continued always exists. */
  lemma {:induction false} SomeMaximalSchedule<T, R, W>(c: Config<T, R, W>)
    returns (schedule: seq<Action>, t: State<T, R, W>)
    requires c.workers > 0 && c.readCapacity > 0 && c.writeCapacity > 0
    ensures Maximal(c, schedule, t)
  {
    hide Run, Inv, Enabled, Starved, State.Done;
    InitInv(c);
    schedule, t := CanFinish(c, Init(c));
    StuckIff(c, schedule, t);
  }

  // ---- Encrypting ----

  function EncryptConfig(c: Crypto, nonces: nat -> seq<byte>, g: Geometry, files: seq<InputFile>, start: Store,
          workers: nat): Config<Chunk, Chunk, Store>
  {
    Config(Plan(c, files, 0), (t: Chunk) => false, Sealer(c, nonces), Processor(g), start, workers, 2 * workers,
           4 * workers)
  }

  /** The writer at the start of a run; the offset is moved past a slot. */
  function Starting(g: Geometry, disk: seq<byte>, offset: nat, entries: seq<FileEntry>, fileCount: nat): Store {
    Store(disk, g.Skip(offset), 0, false, entries, fileCount)
  }

  /** One thread doing everything. */
  function Encrypted(c: Crypto, nonces: nat -> seq<byte>, g: Geometry, files: seq<InputFile>,
          start: Store): Outcome<Store>
  {
    Fold(Processor(g), start, ResultsFrom(c, nonces, Plan(c, files, 0), 0))
  }

  /** A run stores everything exactly if every file can be opened and every block sealed. */
  lemma {:induction false} RunGoesIff(c: Crypto, nonces: nat -> seq<byte>, g: Geometry, files: seq<InputFile>,
          start: Store)
    ensures Encrypted(c, nonces, g, files, start).Going?
      <==> AllOpenable(files) && AllSeal(c, nonces, files, 0)
  {
    hide Fold, Plan, ResultsFrom, Processor, AllSeal;
    NoneFailedIff(c, nonces, files, 0, 0);
    GoingIffNoneFailed(g, start, ResultsFrom(c, nonces, Plan(c, files, 0), 0));
  }

  lemma {:induction false} EncryptResults(c: Crypto, nonces: nat -> seq<byte>, g: Geometry, files: seq<InputFile>,
          start: Store, workers: nat)
    ensures var cfg := EncryptConfig(c, nonces, g, files, start, workers);
      cfg.Results(|cfg.items|) == ResultsFrom(c, nonces, Plan(c, files, 0), 0)
  {
    hide Plan, Sealed;
  }

  /** Every run of the encrypting threads, whatever the schedule: exactly a prefix of the files is
      stored, all of them exactly when the writer does not throw; what was there before is intact. */
  lemma {:induction false} EveryEncryptRun(c: Crypto, nonces: nat -> seq<byte>, g: Geometry, files: seq<InputFile>,
          start: Store, workers: nat, contents: seq<seq<byte>>, schedule: seq<Action>, t: State<Chunk, Chunk, Store>)
    requires g.Separated() && c.Ideal() && workers > 0
    requires !start.started && Library(c, g, start.disk, start.entries, contents, start.offset)
    requires Maximal(EncryptConfig(c, nonces, g, files, start, workers), schedule, t)
    ensures t.Done() && Encrypted(c, nonces, g, files, start) == if t.writer.Finished? then Going(t.w) else Thrown(t.w)
    ensures var k := |t.w.entries| - |start.entries|;
      0 <= k <= |files| && (t.writer.Finished? <==> k == |files|) && StoredFirst(c, g, start, files, contents, k, t.w)
    ensures t.writer.Finished? ==> t.w.offset == OffsetAfter(g, start.offset, files)
  {
    hide Maximal, Fold, Processor, ResultsFrom, Plan, Library, StoredFirst, Geometry.Separated, Crypto.Ideal;
    EveryMaximalSchedule(EncryptConfig(c, nonces, g, files, start, workers), schedule, t);
    EncryptResults(c, nonces, g, files, start, workers);
    var k := StorePlan(c, g, nonces, start, files, 0, 0, contents);
    StoredCount(c, g, start, files, contents, k, t.w);
  }

  lemma {:induction false} StoredCount(c: Crypto, g: Geometry, w: Store, files: seq<InputFile>,
          contents: seq<seq<byte>>, k: nat, v: Store)
    requires k <= |files| && StoredFirst(c, g, w, files, contents, k, v)
    ensures |v.entries| == |w.entries| + k
  {
    hide EntriesAfter, OffsetAfter;
    EntryPlace(c, g, w.entries, w.offset, files[..k]);
  }

  // ---- Extracting ----

  function ExtractConfig(c: Crypto, g: Geometry, disk: seq<byte>, entries: seq<FileEntry>,
          files: map<string, seq<byte>>, workers: nat): Config<Task, Chunk, Output>
  {
    Config(ExtractPlan(g, disk, entries, 0), PastEnd, Opener(c), Writer(c), Fresh(files), workers, 2 * workers,
           4 * workers)
  }

  lemma {:induction false} ExtractResults(c: Crypto, g: Geometry, disk: seq<byte>, entries: seq<FileEntry>,
          files: map<string, seq<byte>>, workers: nat)
    ensures var cfg := ExtractConfig(c, g, disk, entries, files, workers);
      cfg.Results(|cfg.items|) == OpenedAll(c, ExtractPlan(g, disk, entries, 0))
  {
    hide ExtractPlan, Opened;
  }

  lemma {:induction false} NothingBreaks(c: Crypto, g: Geometry, disk: seq<byte>, entries: seq<FileEntry>,
          files: map<string, seq<byte>>, workers: nat)
    ensures var cfg := ExtractConfig(c, g, disk, entries, files, workers);
      cfg.FirstBreak(0) == |cfg.items| <==> AllReadable(g, disk, entries)
  {
    hide ExtractPlan, AllReadable;
    PlanPastEndIff(g, disk, entries, 0);
    var cfg := ExtractConfig(c, g, disk, entries, files, workers);
    var k := cfg.FirstBreak(0);
    assert k < |cfg.items| ==> cfg.Breaking(k);
    assert forall j :: 0 <= j < |cfg.items| ==> (cfg.Breaking(j) <==> cfg.items[j].Work? && PastEnd(cfg.items[j].task));
  }

  /** The decrypting threads all finish, in every way of running them, exactly if no entry leads past the end
      of the file, or one thread would meet a chunk at which the writer throws before that. Otherwise they
      never do: the read throws in the reader thread, which then closes nothing, and all others wait. */
  lemma {:induction false} ExtractFinishesIff(c: Crypto, g: Geometry, disk: seq<byte>, entries: seq<FileEntry>,
          files: map<string, seq<byte>>, workers: nat, schedule: seq<Action>, t: State<Task, Chunk, Output>)
    requires workers > 0 && Maximal(ExtractConfig(c, g, disk, entries, files, workers), schedule, t)
    ensures var cfg := ExtractConfig(c, g, disk, entries, files, workers);
      && (t.Done() <==> AllReadable(g, disk, entries) || cfg.Prefix(cfg.FirstBreak(0)).Thrown?)
      && (!t.Done() ==> Starved(cfg, t))
  {
    hide Maximal, Fold, ExtractPlan, Measure, State.Done, Starved, AllReadable;
    EveryMaximalScheduleEnds(ExtractConfig(c, g, disk, entries, files, workers), schedule, t);
    NothingBreaks(c, g, disk, entries, files, workers);
  }

  /** `files` has every entry named in `es` with its content, and otherwise what `outputs` has. */
  ghost predicate Delivered(entries: seq<FileEntry>, contents: seq<seq<byte>>, es: seq<FileEntry>,
          outputs: map<string, seq<byte>>, files: map<string, seq<byte>>)
    requires |entries| == |contents|
  {
    && (forall i, j :: 0 <= i < |entries| && 0 <= j < |es| && es[j].name == entries[i].name ==>
          entries[i].name in files && files[entries[i].name] == contents[i])
    && (forall name: string :: (forall j :: 0 <= j < |es| ==> es[j].name != name) ==>
          (name in files <==> name in outputs) && (name in outputs ==> files[name] == outputs[name]))
  }

  /** Entries of the same name have the same content. */
  ghost predicate Consistent(entries: seq<FileEntry>, contents: seq<seq<byte>>)
    requires |entries| == |contents|
  {
    forall i, j :: 0 <= i < j < |entries| && entries[i].name == entries[j].name ==> contents[i] == contents[j]
  }

  lemma {:induction false} OneThreadDelivers(c: Crypto, g: Geometry, disk: seq<byte>, entries: seq<FileEntry>,
          contents: seq<seq<byte>>, files: map<string, seq<byte>>)
    requires |entries| == |contents| && Consistent(entries, contents)
    requires AllIntact(c, g, disk, entries, contents) && UsableNames(entries)
    ensures var o := Extracted(c, g, disk, entries, Fresh(files));
      o.Going? && o.w.failures == [] && Delivered(entries, contents, entries, files, o.w.files)
    ensures AllReadable(g, disk, entries)
  {
    hide Fold, ExtractPlan, OpenedAll, Intact, Names.FileName, Write, SafeName, FilesAfter;
    FoldExtract(c, g, disk, entries, contents, 0, Fresh(files));
    AllDelivered(files, entries, contents);
  }

  /** Every run of the decrypting threads over intact entries: each file comes back with its
      content, no other file of the output directory changes, and no checksum fails. */
  lemma {:induction false} EveryExtractRun(c: Crypto, g: Geometry, disk: seq<byte>, entries: seq<FileEntry>,
          contents: seq<seq<byte>>, files: map<string, seq<byte>>, workers: nat, schedule: seq<Action>,
          t: State<Task, Chunk, Output>)
    requires workers > 0 && |entries| == |contents| && Consistent(entries, contents)
    requires AllIntact(c, g, disk, entries, contents) && UsableNames(entries)
    requires Maximal(ExtractConfig(c, g, disk, entries, files, workers), schedule, t)
    ensures t.Done() && t.writer.Finished? && t.w.failures == []
    ensures Delivered(entries, contents, entries, files, t.w.files)
  {
    hide Maximal, Fold, ExtractPlan, OpenedAll, AllIntact, UsableNames, Consistent, Delivered, Measure, State.Done;
    hide Writer, Opener, AllReadable;
    var cfg := ExtractConfig(c, g, disk, entries, files, workers);
    OneThreadDelivers(c, g, disk, entries, contents, files);
    NothingBreaks(c, g, disk, entries, files, workers);
    EveryMaximalSchedule(cfg, schedule, t);
    ExtractResults(c, g, disk, entries, files, workers);
  }

  lemma {:induction false} AllDelivered(files: map<string, seq<byte>>, entries: seq<FileEntry>,
          contents: seq<seq<byte>>)
    requires |entries| == |contents| && Consistent(entries, contents) && UsableNames(entries)
    ensures Delivered(entries, contents, entries, files, FilesAfter(files, entries, contents))
  {
    hide FilesAfter, UsableNames;
    var r := FilesAfter(files, entries, contents);
    forall name: string
      ensures forall i :: 0 <= i < |entries| && entries[i].name == name ==> name in r && r[name] == contents[i]
      ensures (forall i :: 0 <= i < |entries| ==> entries[i].name != name) ==>
        (name in r <==> name in files) && (name in files ==> r[name] == files[name])
    {
      FilesAfterHas(files, entries, contents, name);
    }
  }

  // ---- The work of one thread ----

  /** The chunks of all files, sealed and written one after the other: the order every schedule
      is equivalent to. */
  method EncryptInOrder(c: Crypto, nonces: nat -> seq<byte>, files: seq<InputFile>, writer: EncryptWriter)
    returns (threw: bool)
    modifies writer, writer.file, writer.table
    ensures Encrypted(c, nonces, writer.g, files, old(writer.State()))
      == if threw then Thrown(writer.State()) else Going(writer.State())
    ensures writer.table.nextWriteOffset == old(writer.table.nextWriteOffset)
  {
    hide Fold, Plan, Processor, Sealed;
    threw := false;
    var items := ReaderTask(c, files);
    ghost var start := writer.State();
    ghost var rs := ResultsFrom(c, nonces, items, 0);
    StartsGoing(writer.g, start, rs);
    for i := 0 to |items|
      invariant Fold(Processor(writer.g), start, rs[..i]) == Going(writer.State())
      invariant writer.table.nextWriteOffset == old(writer.table.nextWriteOffset)
    {
      var chunk := ResultOf(c, nonces, items[i], i);
      assert rs[..i + 1] == rs[..i] + [chunk];
      FoldLast(Processor(writer.g), start, rs[..i], chunk);
      OneProcessed(writer.g, writer.State(), chunk);
      threw := writer.ProcessChunk(chunk);
      if threw {
        FoldThrownStays(Processor(writer.g), start, rs, i + 1);
        return;
      }
    }
    assert rs[..|items|] == rs;
  }

  /** Every number below |rs| arrives exactly once, with its own result. */
  ghost predicate Arrivals<R>(rs: seq<R>, arrivals: seq<(nat, R)>) {
    && (forall j :: 0 <= j < |arrivals| ==> arrivals[j].0 < |rs| && arrivals[j].1 == rs[arrivals[j].0])
    && (forall i, j :: 0 <= i < j < |arrivals| ==> arrivals[i].0 != arrivals[j].0)
    && (forall k: nat :: k < |rs| ==> Arrives(arrivals, k))
  }

  ghost predicate Arrives<R>(arrivals: seq<(nat, R)>, k: nat) { exists j :: 0 <= j < |arrivals| && arrivals[j].0 == k }

  /** The reorder buffer after `seen` has arrived and everything below `next` has been handled. */
  ghost predicate Buffered<R>(rs: seq<R>, seen: set<nat>, next: nat, reorderBuf: map<nat, R>) {
    && next <= |rs|
    && (forall k: nat :: k in reorderBuf ==> next <= k < |rs| && reorderBuf[k] == rs[k])
    && (forall k: nat :: k in seen <==> k < next || k in reorderBuf)
  }

  lemma {:induction false} OneHandled<R>(rs: seq<R>, seen: set<nat>, next: nat, reorderBuf: map<nat, R>)
    requires Buffered(rs, seen, next, reorderBuf) && next < |rs|
    ensures Buffered(rs, seen + {next}, next + 1, reorderBuf - {next})
    ensures next in reorderBuf ==> seen + {next} == seen
    ensures next !in reorderBuf ==> reorderBuf - {next} == reorderBuf
  {
  }

  /** Handling result `next`. */
  method HandleNext(writer: EncryptWriter, ghost start: Store, ghost rs: seq<Chunk>, next: nat, chunk: Chunk)
    returns (threw: bool)
    requires next < |rs| && chunk == rs[next]
    requires Fold(Processor(writer.g), start, rs[..next]) == Going(writer.State())
    modifies writer, writer.file, writer.table
    ensures threw ==> Fold(Processor(writer.g), start, rs) == Thrown(writer.State())
    ensures !threw ==> Fold(Processor(writer.g), start, rs[..next + 1]) == Going(writer.State())
  {
    hide Fold, Processor, Process;
    assert rs[..next + 1] == rs[..next] + [chunk];
    FoldLast(Processor(writer.g), start, rs[..next], chunk);
    OneProcessed(writer.g, writer.State(), chunk);
    threw := writer.ProcessChunk(chunk);
    if threw { FoldThrownStays(Processor(writer.g), start, rs, next + 1); }
  }

  /** writerLoop: whatever the order in which the results arrive, they are handled in the order of
      their numbers, each exactly once. */
  method WriterLoop(writer: EncryptWriter, arrivals: seq<(nat, Chunk)>, ghost rs: seq<Chunk>) returns (threw: bool)
    requires Arrivals(rs, arrivals)
    modifies writer, writer.file, writer.table
    ensures Fold(Processor(writer.g), old(writer.State()), rs)
      == if threw then Thrown(writer.State()) else Going(writer.State())
  {
    hide Fold, Processor, Process, Buffered;
    ghost var start := writer.State();
    var nextExpected := 0;
    var reorderBuf: map<nat, Chunk> := map[];
    ghost var seen: set<nat> := {};
    StartsGoing(writer.g, start, rs);
    NothingBuffered(rs);
    for i := 0 to |arrivals|
      invariant nextExpected <= |rs| && Fold(Processor(writer.g), start, rs[..nextExpected]) == Going(writer.State())
      invariant Buffered(rs, seen, nextExpected, reorderBuf) && nextExpected !in reorderBuf
      invariant seen == set j | 0 <= j < i :: arrivals[j].0
    {
      var (seqNo, chunk) := arrivals[i];
      seen := seen + {seqNo};
      if seqNo == nextExpected {
        OneHandled(rs, seen - {seqNo}, nextExpected, reorderBuf);
        ArrivedOnce(rs, arrivals, i, seen - {seqNo});
        threw := HandleNext(writer, start, rs, nextExpected, chunk);
        if threw { return; }
        nextExpected := nextExpected + 1;
        while nextExpected in reorderBuf
          invariant nextExpected <= |rs|
          invariant Fold(Processor(writer.g), start, rs[..nextExpected]) == Going(writer.State())
          invariant Buffered(rs, seen, nextExpected, reorderBuf)
          decreases |rs| - nextExpected
        {
          BufferedNext(rs, seen, nextExpected, reorderBuf);
          OneHandled(rs, seen, nextExpected, reorderBuf);
          chunk := reorderBuf[nextExpected];
          reorderBuf := reorderBuf - {nextExpected};
          threw := HandleNext(writer, start, rs, nextExpected, chunk);
          if threw { return; }
          nextExpected := nextExpected + 1;
        }
      } else {
        LaterArrives(rs, arrivals, i, seen - {seqNo}, nextExpected, reorderBuf);
        reorderBuf := reorderBuf[seqNo := chunk];
      }
    }
    AllHandled(rs, arrivals, seen, nextExpected, reorderBuf);
    assert rs[..nextExpected] == rs;
    threw := false;
  }

  lemma {:induction false} NothingBuffered<R>(rs: seq<R>)
    ensures Buffered(rs, {}, 0, map[])
  {
  }

  lemma {:induction false} BufferedNext<R>(rs: seq<R>, seen: set<nat>, next: nat, reorderBuf: map<nat, R>)
    requires Buffered(rs, seen, next, reorderBuf) && next in reorderBuf
    ensures next < |rs| && reorderBuf[next] == rs[next]
  {
  }

  lemma {:induction false} ArrivedOnce<R>(rs: seq<R>, arrivals: seq<(nat, R)>, i: nat, before: set<nat>)
    requires Arrivals(rs, arrivals) && i < |arrivals| && before == set j | 0 <= j < i :: arrivals[j].0
    ensures arrivals[i].0 !in before && arrivals[i].0 < |rs| && arrivals[i].1 == rs[arrivals[i].0]
  {
  }

  lemma {:induction false} LaterArrives<R>(rs: seq<R>, arrivals: seq<(nat, R)>, i: nat, before: set<nat>, next: nat,
          reorderBuf: map<nat, R>)
    requires Arrivals(rs, arrivals) && i < |arrivals| && before == set j | 0 <= j < i :: arrivals[j].0
    requires Buffered(rs, before, next, reorderBuf) && arrivals[i].0 != next
    ensures Buffered(rs, before + {arrivals[i].0}, next, reorderBuf[arrivals[i].0 := arrivals[i].1])
  {
    ArrivedOnce(rs, arrivals, i, before);
  }

  lemma {:induction false} AllHandled<R>(rs: seq<R>, arrivals: seq<(nat, R)>, seen: set<nat>, next: nat,
          reorderBuf: map<nat, R>)
    requires Arrivals(rs, arrivals) && seen == set j | 0 <= j < |arrivals| :: arrivals[j].0
    requires Buffered(rs, seen, next, reorderBuf) && next !in reorderBuf
    ensures next == |rs|
  {
    assert next < |rs| ==> Arrives(arrivals, next);
  }

  lemma {:induction false} StartsGoing(g: Geometry, w: Store, rs: seq<Chunk>)
    ensures Fold(Processor(g), w, rs[..0]) == Going(w)
  {
  }

  lemma {:induction false} OneProcessed(g: Geometry, w: Store, chunk: Chunk)
    ensures Processor(g)(w, chunk) == Process(g, w, chunk)
  {
  }

  /** The tasks of all entries, in order, up to the first read past the end of the file: `threw` is the
      exception that then ends the reader. */
  method ReadEntries(g: Geometry, file: NativeFile, entries: seq<FileEntry>)
    returns (items: seq<Item<Task, Chunk>>, threw: bool)
    ensures threw <==> !AllReadable(g, file.content, entries)
    ensures items == Emitted(ExtractPlan(g, file.content, entries, 0))
    ensures !threw ==> items == ExtractPlan(g, file.content, entries, 0)
  {
    hide ItemsOf, ExtractPlan, Decrypt.Readable, Emitted, NonePastEnd;
    items := [];
    var disk := file.content;
    assert entries[0..] == entries && [] + ExtractPlan(g, disk, entries, 0) == ExtractPlan(g, disk, entries, 0);
    NothingPastEnd();
    for i := 0 to |entries|
      invariant file.content == disk
      invariant ExtractPlan(g, disk, entries, 0) == items + ExtractPlan(g, disk, entries[i..], i)
      invariant AllReadable(g, disk, entries[..i]) && NonePastEnd(items)
    {
      assert entries[i..][1..] == entries[i + 1..];
      ExtractPlanStep(g, disk, entries[i..], i);
      EntryReadableIff(g, disk, entries[i], i);
      var emitted := [Direct(Chunk([], true, entries[i].name, entries[i].checksum, 0, false))];
      NoChunksReadable(g, disk, entries[i]);
      ghost var rest := ExtractPlan(g, disk, entries[i + 1..], i + 1);
      if entries[i].chunks > 0 {
        emitted, threw := ReadEntry(g, file, entries[i], i);
        EmittedWithin(items, ItemsOf(g, disk, entries[i], i), rest);
        if threw { return items + emitted, true; }
      }
      assert items + (emitted + rest) == items + emitted + rest;
      NoneJoin(items, emitted);
      items := items + emitted;
    }
    assert entries[|entries|..] == [] && entries[..|entries|] == entries;
    NoExtractPlan(g, disk, |entries|);
    AllEmitted(items);
    assert items + [] == items;
    threw := false;
  }

  lemma {:induction false} EmittedWithin(before: seq<Item<Task, Chunk>>, items: seq<Item<Task, Chunk>>,
          rest: seq<Item<Task, Chunk>>)
    requires NonePastEnd(before)
    ensures !NonePastEnd(items) ==> Emitted(before + (items + rest)) == before + Emitted(items)
  {
    hide NonePastEnd, Emitted;
    EmittedConcat(before, items + rest);
    EmittedConcat(items, rest);
  }

  lemma {:induction false} AllEmitted(items: seq<Item<Task, Chunk>>)
    requires NonePastEnd(items)
    ensures Emitted(items) == items
  {
    hide NonePastEnd, Emitted;
    EmittedConcat(items, []);
    NothingPastEnd();
    assert items + [] == items;
  }

  lemma {:induction false} EntryReadableIff(g: Geometry, disk: seq<byte>, e: FileEntry, index: nat)
    ensures NonePastEnd(ItemsOf(g, disk, e, index)) <==> Decrypt.Readable(g, disk, e, 0, e.offset, e.size)
  {
    hide PastEnd, EntryItems;
    EntryPastEndIff(g, disk, e, index, 0, e.offset, e.size);
    NoChunksReadable(g, disk, e);
  }

  lemma {:induction false} NoneJoin(a: seq<Item<Task, Chunk>>, b: seq<Item<Task, Chunk>>)
    requires NonePastEnd(a) && NonePastEnd(b)
    ensures NonePastEnd(a + b)
  {
    hide PastEnd;
  }

  lemma {:induction false} NoExtractPlan(g: Geometry, disk: seq<byte>, index: nat)
    ensures ExtractPlan(g, disk, [], index) == []
  {
  }

  lemma {:induction false} ExtractPlanStep(g: Geometry, disk: seq<byte>, entries: seq<FileEntry>, index: nat)
    requires entries != []
    ensures var e := entries[0];
      && ExtractPlan(g, disk, entries, index)
           == ItemsOf(g, disk, e, index) + ExtractPlan(g, disk, entries[1..], index + 1)
      && (e.chunks == 0 ==> ItemsOf(g, disk, e, index) == [Direct(Chunk([], true, e.name, e.checksum, 0, false))])
  {
  }

  /** One thread extracting everything. */
  function Extracted(c: Crypto, g: Geometry, disk: seq<byte>, entries: seq<FileEntry>, start: Output): Outcome<Output> {
    Fold(Writer(c), start, OpenedAll(c, ExtractPlan(g, disk, entries, 0)))
  }

  /** One thread extracting up to the first read that throws. */
  function ExtractedSoFar(c: Crypto, g: Geometry, disk: seq<byte>, entries: seq<FileEntry>,
          start: Output): Outcome<Output>
  {
    Fold(Writer(c), start, OpenedAll(c, Emitted(ExtractPlan(g, disk, entries, 0))))
  }

  /** That is everything if no read throws, and in any case what the threads end with whatever their schedule. */
  lemma {:induction false} SoFarIsEverySchedule(c: Crypto, g: Geometry, disk: seq<byte>, entries: seq<FileEntry>,
          files: map<string, seq<byte>>, workers: nat, schedule: seq<Action>, t: State<Task, Chunk, Output>)
    requires workers > 0 && Maximal(ExtractConfig(c, g, disk, entries, files, workers), schedule, t)
    ensures var o := ExtractedSoFar(c, g, disk, entries, Fresh(files));
      && (AllReadable(g, disk, entries) ==> o == Extracted(c, g, disk, entries, Fresh(files)))
      && (!t.Done() ==> o == Going(t.w))
      && (t.Done() ==> o == if t.writer.Finished? then Going(t.w) else Thrown(t.w))
  {
    hide Maximal, Fold, ExtractPlan, Measure, State.Done, Starved, AllReadable, Emitted;
    var cfg := ExtractConfig(c, g, disk, entries, files, workers);
    var plan := ExtractPlan(g, disk, entries, 0);
    EveryMaximalScheduleEnds(cfg, schedule, t);
    EmittedToBreak(c, g, disk, entries, files, workers);
    PlanPastEndIff(g, disk, entries, 0);
    if NonePastEnd(plan) { AllEmitted(plan); }
    if Completes(cfg) {
      EveryMaximalSchedule(cfg, schedule, t);
      if cfg.FirstBreak(0) < |cfg.items| { PrefixThrownStays(cfg, cfg.FirstBreak(0), |cfg.items|); }
    }
  }

  /** Some block of some entry does not open to the planned length. */
  ghost predicate SomeBlockFails(c: Crypto, g: Geometry, disk: seq<byte>, entries: seq<FileEntry>) {
    exists k, i :: 0 <= k < |entries| && 0 <= i < entries[k].chunks && !BlockOpens(c, g, disk, entries[k], i)
  }

  /** What is extracted from any entries whose blocks lie in the file, intact or not. It throws exactly if some
      block does not authenticate or opens to another length than planned, or a name is refused; otherwise the
      outputs hold what the blocks open to, joined, and the names noted are those of the entries, in order,
      where the digest of that is not the recorded checksum. */
  lemma {:induction false} ExtractedIff(c: Crypto, g: Geometry, disk: seq<byte>, entries: seq<FileEntry>,
          files: map<string, seq<byte>>)
    requires AllInFile(g, disk, entries)
    ensures var o, texts := Extracted(c, g, disk, entries, Fresh(files)), Texts(c, g, disk, entries);
      && ExtractedSoFar(c, g, disk, entries, Fresh(files)) == o
      && (o.Thrown? <==> SomeRefuses(c, g, disk, entries))
      && (UsableNames(entries) ==> (o.Thrown? <==> SomeBlockFails(c, g, disk, entries)))
      && (o.Going? ==> o.w.failures == Mismatches(c, entries, texts) && o.w.files == FilesAfter(files, entries, texts))
      && (o.Going? && UsableNames(entries) && Consistent(entries, texts) ==>
            Delivered(entries, texts, entries, files, o.w.files))
  {
    hide Fold, OpenedAll, ExtractPlan, Emitted, InFile, Texts, FilesAfter, Mismatches, Delivered, Consistent, Writer;
    hide SomeRefuses, SomeBlockFails, UsableNames, NonePastEnd;
    var texts := Texts(c, g, disk, entries);
    FoldAllIff(c, g, disk, entries, 0, Fresh(files));
    assert [] + Mismatches(c, entries, texts) == Mismatches(c, entries, texts);
    AllReadableIff(g, disk, entries);
    PlanPastEndIff(g, disk, entries, 0);
    AllEmitted(ExtractPlan(g, disk, entries, 0));
    if UsableNames(entries) {
      RefusalsAreBlocks(c, g, disk, entries);
      if Consistent(entries, texts) {
        AllDelivered(files, entries, texts);
      }
    }
  }

  lemma {:induction false} RefusalsAreBlocks(c: Crypto, g: Geometry, disk: seq<byte>, entries: seq<FileEntry>)
    requires UsableNames(entries)
    ensures SomeRefuses(c, g, disk, entries) <==> SomeBlockFails(c, g, disk, entries)
  {
    hide BlockOpens, Names.FileName;
    forall k | 0 <= k < |entries| ensures !NameRefused(entries[k]) {
      Names.OwnFileName(entries[k].name);
    }
  }

  /** The same for the threads, whatever their schedule: they all finish, the writer by an exception exactly if
      some entry makes it throw, and otherwise with these outputs and these names. */
  lemma {:induction false} EveryExtractOutcome(c: Crypto, g: Geometry, disk: seq<byte>, entries: seq<FileEntry>,
          files: map<string, seq<byte>>, workers: nat, schedule: seq<Action>, t: State<Task, Chunk, Output>)
    requires workers > 0 && AllInFile(g, disk, entries)
    requires Maximal(ExtractConfig(c, g, disk, entries, files, workers), schedule, t)
    ensures var texts := Texts(c, g, disk, entries);
      && t.Done() && (t.writer.Finished? <==> !SomeRefuses(c, g, disk, entries))
      && (t.writer.Finished? ==>
            t.w.failures == Mismatches(c, entries, texts) && t.w.files == FilesAfter(files, entries, texts))
  {
    hide Maximal, Fold, ExtractPlan, Measure, State.Done, Starved, AllReadable, AllInFile, ExtractedSoFar, Extracted;
    hide Texts, FilesAfter, Mismatches, SomeRefuses, SomeBlockFails, UsableNames, Consistent, Delivered, ExtractConfig;
    AllReadableIff(g, disk, entries);
    ExtractFinishesIff(c, g, disk, entries, files, workers, schedule, t);
    SoFarIsEverySchedule(c, g, disk, entries, files, workers, schedule, t);
    ExtractedIff(c, g, disk, entries, files);
  }

  lemma {:induction false} EmittedToBreak(c: Crypto, g: Geometry, disk: seq<byte>, entries: seq<FileEntry>,
          files: map<string, seq<byte>>, workers: nat)
    ensures var cfg := ExtractConfig(c, g, disk, entries, files, workers);
      cfg.Prefix(cfg.FirstBreak(0)) == ExtractedSoFar(c, g, disk, entries, Fresh(files))
  {
    hide ExtractPlan, Fold, Opened, Emitted, PastEnd;
    var cfg := ExtractConfig(c, g, disk, entries, files, workers);
    var k, r := cfg.FirstBreak(0), Emitted(cfg.items);
    assert k < |cfg.items| ==> cfg.Breaking(k);
    assert |r| < |cfg.items| ==> cfg.Breaking(|r|);
    if k < |cfg.items| { BreaksBehind(cfg.items, r, k); }
    assert |r| == k && cfg.Results(k) == OpenedAll(c, r);
  }

  lemma {:induction false} BreaksBehind(items: seq<Item<Task, Chunk>>, r: seq<Item<Task, Chunk>>, k: nat)
    requires r <= items && NonePastEnd(r) && k < |items| && items[k].Work? && PastEnd(items[k].task)
    ensures |r| <= k
  {
    assert forall j :: 0 <= j < |r| ==> r[j] == items[j];
  }

  method ExtractInOrder(g: Geometry, file: NativeFile, entries: seq<FileEntry>, writer: DecryptWriter)
    returns (threw: bool, readerThrew: bool)
    modifies writer
    ensures readerThrew <==> !AllReadable(g, file.content, entries)
    ensures ExtractedSoFar(writer.c, g, file.content, entries, old(writer.State()))
      == if threw then Thrown(writer.State()) else Going(writer.State())
  {
    hide Fold, Opened, Writer;
    threw := false;
    var items: seq<Item<Task, Chunk>>;
    items, readerThrew := ReadEntries(g, file, entries);
    hide ExtractPlan, AllReadable;
    ghost var start := writer.State();
    ghost var rs := OpenedAll(writer.c, items);
    NothingWritten(writer.c, start, rs);
    for i := 0 to |items|
      invariant Fold(Writer(writer.c), start, rs[..i]) == Going(writer.State())
    {
      var chunk := OpenedItem(writer.c, items[i]);
      assert rs[..i + 1] == rs[..i] + [chunk];
      FoldLast(Writer(writer.c), start, rs[..i], chunk);
      OneWritten(writer.c, writer.State(), chunk);
      threw := writer.ProcessChunk(chunk);
      if threw {
        FoldThrownStays(Writer(writer.c), start, rs, i + 1);
        return;
      }
    }
    assert rs[..|items|] == rs;
  }

  lemma {:induction false} NothingWritten(c: Crypto, w: Output, rs: seq<Chunk>)
    ensures Fold(Writer(c), w, rs[..0]) == Going(w)
  {
  }

  lemma {:induction false} OneWritten(c: Crypto, w: Output, chunk: Chunk)
    ensures Writer(c)(w, chunk) == Write(c, w, chunk)
  {
  }
}
