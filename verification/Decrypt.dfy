/** Extracting files (src/DecryptPipeline.cpp): what the reader emits for a table entry, what a
    worker does to a sealed block, and what the writer does with the results in order. */
module Decrypt {
  import opened Bytes
  import opened Layout
  import opened Fragments
  import opened Chunks
  import opened Sealing
  import opened Tables
  import opened Pipeline
  import opened Encrypt
  import opened Storing
  import Names

  // ---- Reader ----

  datatype Task = Task(data: seq<byte>, dataSize: nat, endOfFile: bool, path: string, checksum: string, plainSize: nat)

  function DataOf(r: Option<seq<byte>>): seq<byte> { match r case None => [] case Some(d) => d }

  /** The tasks for the blocks of `e` from number `i` on, when reading has reached `off` and
      `remaining` plain bytes are left. */
  function EntryItems(g: Geometry, disk: seq<byte>, e: FileEntry, index: nat, i: nat, off: nat,
          remaining: nat): seq<Item<Task, Chunk>>
    decreases e.chunks - i
  {
    if i >= e.chunks then [] else
      var plainSize := if remaining < BLOCK_SIZE then remaining else BLOCK_SIZE;
      var last := i == e.chunks - 1;
      var task := Task(DataOf(Collected(g, disk, off, plainSize + OVERHEAD)), plainSize, last, e.name,
                       if last then e.checksum else "", if last then e.size else 0);
      var next := SegmentsEnd(g, off, plainSize + OVERHEAD);
      [Work(index, task)] + EntryItems(g, disk, e, index, i + 1, next, remaining - plainSize)
  }

  function ItemsOf(g: Geometry, disk: seq<byte>, e: FileEntry, index: nat): seq<Item<Task, Chunk>> {
    if e.chunks == 0 then [Direct(Chunk([], true, e.name, e.checksum, 0, false))]
    else EntryItems(g, disk, e, index, 0, e.offset, e.size)
  }

  function ExtractPlan(g: Geometry, disk: seq<byte>, entries: seq<FileEntry>, index: nat): seq<Item<Task, Chunk>> {
    if entries == [] then [] else ItemsOf(g, disk, entries[0], index) + ExtractPlan(g, disk, entries[1..], index + 1)
  }

  /** Every read the entry leads to lies inside the file; otherwise the reader thread throws. */
  ghost predicate Readable(g: Geometry, disk: seq<byte>, e: FileEntry, i: nat, off: nat, remaining: nat)
    decreases e.chunks - i
  {
    i >= e.chunks || (
      var plainSize := if remaining < BLOCK_SIZE then remaining else BLOCK_SIZE;
      && Collected(g, disk, off, plainSize + OVERHEAD).Some?
      && Readable(g, disk, e, i + 1, SegmentsEnd(g, off, plainSize + OVERHEAD), remaining - plainSize))
  }

  ghost predicate AllReadable(g: Geometry, disk: seq<byte>, entries: seq<FileEntry>) {
    forall i :: 0 <= i < |entries| ==> Readable(g, disk, entries[i], 0, entries[i].offset, entries[i].size)
  }

  /** Reading the block has failed: a read that returns has at least 28 bytes. */
  predicate PastEnd(t: Task) { t.data == [] }

  ghost predicate NonePastEnd(items: seq<Item<Task, Chunk>>) {
    forall k :: 0 <= k < |items| && items[k].Work? ==> !PastEnd(items[k].task)
  }

  lemma {:induction false} EntryPastEndIff(g: Geometry, disk: seq<byte>, e: FileEntry, index: nat, i: nat, off: nat,
          remaining: nat)
    ensures NonePastEnd(EntryItems(g, disk, e, index, i, off, remaining)) <==> Readable(g, disk, e, i, off, remaining)
    decreases e.chunks - i
  {
    hide Collected, SegmentsEnd;
    if i < e.chunks {
      var n := if remaining < BLOCK_SIZE then remaining else BLOCK_SIZE;
      var next := SegmentsEnd(g, off, n + OVERHEAD);
      EntryPastEndIff(g, disk, e, index, i + 1, next, remaining - n);
      var items := EntryItems(g, disk, e, index, i, off, remaining);
      var rest := EntryItems(g, disk, e, index, i + 1, next, remaining - n);
      assert items[0].Work? && items[1..] == rest;
      assert forall k :: 0 < k < |items| ==> items[k] == rest[k - 1];
      assert PastEnd(items[0].task) <==> Collected(g, disk, off, n + OVERHEAD).None?;
    }
  }

  /** The reads of a plan all return exactly if no entry leads past the end of the file. */
  lemma {:induction false} PlanPastEndIff(g: Geometry, disk: seq<byte>, entries: seq<FileEntry>, index: nat)
    ensures NonePastEnd(ExtractPlan(g, disk, entries, index)) <==> AllReadable(g, disk, entries)
    decreases |entries|
  {
    hide EntryItems, Readable, PastEnd;
    if entries != [] {
      var e := entries[0];
      var items, rest := ItemsOf(g, disk, e, index), ExtractPlan(g, disk, entries[1..], index + 1);
      EntryPastEndIff(g, disk, e, index, 0, e.offset, e.size);
      PlanPastEndIff(g, disk, entries[1..], index + 1);
      NoChunksReadable(g, disk, e);
      assert forall k :: 0 <= k < |items| ==> (items + rest)[k] == items[k];
      assert forall k :: 0 <= k < |rest| ==> (items + rest)[|items| + k] == rest[k];
      assert forall i :: 0 < i < |entries| ==> entries[i] == entries[1..][i - 1];
    }
  }

  lemma {:induction false} NoChunksReadable(g: Geometry, disk: seq<byte>, e: FileEntry)
    ensures e.chunks == 0 ==> Readable(g, disk, e, 0, e.offset, e.size)
  {
  }

  /** What the reader emits before the first read that throws. */
  function Emitted(items: seq<Item<Task, Chunk>>): (r: seq<Item<Task, Chunk>>)
    ensures r <= items
    ensures |r| < |items| ==> items[|r|].Work? && PastEnd(items[|r|].task)
    ensures NonePastEnd(r)
  {
    if items == [] || (items[0].Work? && PastEnd(items[0].task)) then [] else [items[0]] + Emitted(items[1..])
  }

  predicate Breaks(x: Item<Task, Chunk>) { x.Work? && PastEnd(x.task) }

  lemma {:induction false} EmittedFront(x: Item<Task, Chunk>, rest: seq<Item<Task, Chunk>>)
    ensures NonePastEnd([x] + rest) <==> !Breaks(x) && NonePastEnd(rest)
    ensures Emitted([x] + rest) == if Breaks(x) then [] else [x] + Emitted(rest)
  {
    hide PastEnd;
    assert ([x] + rest)[0] == x && ([x] + rest)[1..] == rest;
    assert forall k :: 0 <= k < |rest| ==> rest[k] == ([x] + rest)[k + 1];
  }

  lemma {:induction false} Regroup<X>(a: seq<X>, x: X, b: seq<X>)
    ensures a + ([x] + b) == a + [x] + b
  {
  }

  lemma {:induction false} FrontApart<X>(a: seq<X>, b: seq<X>)
    requires a != []
    ensures a == [a[0]] + a[1..] && a + b == [a[0]] + (a[1..] + b)
  {
  }

  lemma {:induction false} EmittedConcat(a: seq<Item<Task, Chunk>>, b: seq<Item<Task, Chunk>>)
    ensures Emitted(a + b) == if NonePastEnd(a) then a + Emitted(b) else Emitted(a)
  {
    hide Breaks, NonePastEnd, Emitted;
    if a == [] {
      NothingPastEnd();
      assert [] + b == b && [] + Emitted(b) == Emitted(b);
    } else {
      FrontApart(a, b);
      FrontApart(a, Emitted(b));
      EmittedFront(a[0], a[1..]);
      EmittedFront(a[0], a[1..] + b);
      EmittedConcat(a[1..], b);
    }
  }

  /** The next block of an entry. */
  lemma {:induction false} EntryStep(g: Geometry, disk: seq<byte>, e: FileEntry, index: nat, i: nat, off: nat,
          remaining: nat)
    requires i < e.chunks
    ensures var n := if remaining < BLOCK_SIZE then remaining else BLOCK_SIZE;
      var items := EntryItems(g, disk, e, index, i, off, remaining);
      var rest := EntryItems(g, disk, e, index, i + 1, SegmentsEnd(g, off, n + OVERHEAD), remaining - n);
      && items == [items[0]] + rest && items[0].Work? && items[1..] == rest
      && (PastEnd(items[0].task) <==> Collected(g, disk, off, n + OVERHEAD).None?)
      && items[0] == Work(index, Task(DataOf(Collected(g, disk, off, n + OVERHEAD)), n, i == e.chunks - 1, e.name,
           if i == e.chunks - 1 then e.checksum else "", if i == e.chunks - 1 then e.size else 0))
      && Emitted(items) == (if PastEnd(items[0].task) then [] else [items[0]] + Emitted(rest))
      && (Readable(g, disk, e, i, off, remaining) <==>
            && Collected(g, disk, off, n + OVERHEAD).Some?
            && Readable(g, disk, e, i + 1, SegmentsEnd(g, off, n + OVERHEAD), remaining - n))
  {
    hide Collected, SegmentsEnd, Emitted;
    var n := if remaining < BLOCK_SIZE then remaining else BLOCK_SIZE;
    var items := EntryItems(g, disk, e, index, i, off, remaining);
    EmittedFront(items[0], EntryItems(g, disk, e, index, i + 1, SegmentsEnd(g, off, n + OVERHEAD), remaining - n));
  }

  lemma {:induction false} NothingPastEnd()
    ensures NonePastEnd([]) && Emitted([]) == []
  {
  }

  /** The loop over the blocks of one entry: it throws at the first read past the end of the file,
      having emitted the blocks before it. */
  method ReadEntry(g: Geometry, file: NativeFile, e: FileEntry, index: nat)
    returns (items: seq<Item<Task, Chunk>>, threw: bool)
    requires e.chunks > 0
    ensures threw <==> !Readable(g, file.content, e, 0, e.offset, e.size)
    ensures items == Emitted(ItemsOf(g, file.content, e, index))
    ensures !threw ==> items == ItemsOf(g, file.content, e, index)
  {
    hide Collected, SegmentsEnd, EntryItems, Emitted, PastEnd, ItemsOf, Readable;
    items := [];
    var readOffset: nat, remaining: nat := e.offset, e.size;
    ghost var whole := ItemsOf(g, file.content, e, index);
    FirstItems(g, file.content, e, index);
    for i := 0 to e.chunks
      invariant Readable(g, file.content, e, 0, e.offset, e.size)
        <==> Readable(g, file.content, e, i, readOffset, remaining)
      invariant whole == items + EntryItems(g, file.content, e, index, i, readOffset, remaining)
      invariant Emitted(whole) == items + Emitted(EntryItems(g, file.content, e, index, i, readOffset, remaining))
    {
      EntryStep(g, file.content, e, index, i, readOffset, remaining);
      ghost var rest := EntryItems(g, file.content, e, index, i, readOffset, remaining);
      var plainSize := if remaining < BLOCK_SIZE then remaining else BLOCK_SIZE;
      var task := Task([], plainSize, false, e.name, "", 0);
      var data, next := file.ReadFragmented(g, readOffset, plainSize + OVERHEAD);
      if data.None? { return items, true; }
      task := task.(data := data.value);
      if i == e.chunks - 1 {
        task := task.(endOfFile := true, checksum := e.checksum, plainSize := e.size);
      }
      readOffset := next;
      remaining := remaining - plainSize;
      Regroup(items, Work(index, task), rest[1..]);
      Regroup(items, Work(index, task), Emitted(rest[1..]));
      items := items + [Work(index, task)];
    }
    NoMoreItems(g, file.content, e, index, readOffset, remaining);
    threw := false;
  }

  lemma {:induction false} FirstItems(g: Geometry, disk: seq<byte>, e: FileEntry, index: nat)
    requires e.chunks > 0
    ensures var items := EntryItems(g, disk, e, index, 0, e.offset, e.size);
      ItemsOf(g, disk, e, index) == items == [] + items && Emitted(items) == [] + Emitted(items)
  {
    hide EntryItems, Emitted;
  }

  lemma {:induction false} NoMoreItems(g: Geometry, disk: seq<byte>, e: FileEntry, index: nat, off: nat, remaining: nat)
    ensures EntryItems(g, disk, e, index, e.chunks, off, remaining) == [] && Emitted([]) == []
    ensures Readable(g, disk, e, e.chunks, off, remaining)
  {
  }

  // ---- Worker ----

  /** A block that does not authenticate, or opens to the wrong length, becomes an error. */
  function Opened(c: Crypto, t: Task): Chunk {
    match c.unseal(t.data)
    case None => Chunk([], t.endOfFile, t.path, t.checksum, t.plainSize, true)
    case Some(p) =>
      Chunk(if |p| == t.dataSize then p else [], t.endOfFile, t.path, t.checksum, t.plainSize, |p| != t.dataSize)
  }

  function Opener(c: Crypto): (nat, Task) -> Chunk { (k: nat, t: Task) => Opened(c, t) }

  function OpenedItem(c: Crypto, item: Item<Task, Chunk>): Chunk {
    match item case Work(_, t) => Opened(c, t) case Direct(r) => r
  }

  function OpenedAll(c: Crypto, items: seq<Item<Task, Chunk>>): (rs: seq<Chunk>)
    ensures |rs| == |items|
  {
    seq(|items|, i requires 0 <= i < |items| => OpenedItem(c, items[i]))
  }

  // ---- Writer ----

  /** `files` is the output directory; `open` the name of the file being written. */
  datatype Output = Output(files: map<string, seq<byte>>, currentName: string, open: Option<string>, offset: nat,
                           hashed: seq<byte>, failures: seq<string>)

  predicate SafeName(name: string) { name != "" && name != "." && name != ".." }

  function Fresh(files: map<string, seq<byte>>): Output { Output(files, "", None, 0, [], []) }

  /** Opening the output of a chunk whose name differs from the current one. */
  function Opening(w: Output, name: string): Outcome<Output> {
    if w.currentName == name then Going(w) else
      var closed := if w.open.Some? then w.(open := None, offset := 0) else w;
      var safe := Names.FileName(name);
      if !SafeName(safe) then Thrown(closed.(currentName := name))
      else Going(closed.(files := w.files[safe := []], currentName := name, open := Some(safe), hashed := []))
  }

  function Existing(files: map<string, seq<byte>>, name: string): seq<byte> {
    if name in files then files[name] else []
  }

  /** Writing to a file that is not open throws. */
  function Writing(w: Output, data: seq<byte>): Outcome<Output> {
    if data == [] then Going(w)
    else if w.open.None? then Thrown(w.(hashed := w.hashed + data))
    else Going(w.(hashed := w.hashed + data, offset := w.offset + |data|,
                  files := w.files[w.open.value := Splice(Existing(w.files, w.open.value), w.offset, data)]))
  }

  function Ending(c: Crypto, w: Output, checksum: string): Output {
    Output(w.files, "", None, 0, [],
           if c.digest(w.hashed) != checksum then w.failures + [w.currentName] else w.failures)
  }

  function Write(c: Crypto, w: Output, chunk: Chunk): Outcome<Output> {
    if chunk.failed then Thrown(w) else
      match Opening(w, chunk.path)
      case Thrown(v) => Thrown(v)
      case Going(v) =>
        match Writing(v, chunk.data)
        case Thrown(u) => Thrown(u)
        case Going(u) => Going(if chunk.endOfFile then Ending(c, u, chunk.checksum) else u)
  }

  function Writer(c: Crypto): (Output, Chunk) -> Outcome<Output> { (w: Output, chunk: Chunk) => Write(c, w, chunk) }

  class DecryptWriter {
    const c: Crypto
    var files: map<string, seq<byte>>
    var currentFileName: string
    var currentOutput: Option<string>
    var currentOutputOffset: nat
    var hashed: seq<byte>
    var checksumFailures: seq<string>

    ghost function State(): Output
      reads this
    {
      Output(files, currentFileName, currentOutput, currentOutputOffset, hashed, checksumFailures)
    }

    constructor (c: Crypto, files: map<string, seq<byte>>)
      ensures this.c == c && State() == Fresh(files)
    {
      this.c, this.files := c, files;
      currentFileName, currentOutput, currentOutputOffset, hashed, checksumFailures := "", None, 0, [], [];
    }

    method ProcessChunk(chunk: Chunk) returns (threw: bool)
      modifies this
      ensures Write(c, old(State()), chunk) == if threw then Thrown(State()) else Going(State())
    {
      hide Splice, Names.FileName;
      if chunk.failed { return true; }
      if currentFileName != chunk.path {
        if currentOutput.Some? {
          currentOutput, currentOutputOffset := None, 0;
        }
        currentFileName := chunk.path;
        var safe := Names.FileName(chunk.path);
        if !SafeName(safe) { return true; }
        files := files[safe := []];
        currentOutput, hashed := Some(safe), [];
      }
      if |chunk.data| > 0 {
        hashed := hashed + chunk.data;
        if currentOutput.None? { return true; }
        var name := currentOutput.value;
        files := files[name := Splice(Existing(files, name), currentOutputOffset, chunk.data)];
        currentOutputOffset := currentOutputOffset + |chunk.data|;
      }
      if chunk.endOfFile {
        if c.digest(hashed) != chunk.checksum {
          checksumFailures := checksumFailures + [currentFileName];
        }
        hashed, currentOutput, currentOutputOffset, currentFileName := [], None, 0, "";
      }
      return false;
    }
  }
}
