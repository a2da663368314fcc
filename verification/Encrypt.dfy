/** Storing files (src/EncryptPipeline.cpp): what the reader emits, what a worker does to a
    chunk, and what the writer does with the results in order. */
module Encrypt {
  import opened Bytes
  import opened Layout
  import opened Fragments
  import opened Chunks
  import opened Sealing
  import opened Tables
  import opened Pipeline
  import Names

  /** `present`: its size can be queried; `readable`: it can be opened. */
  datatype InputFile = InputFile(path: string, present: bool, readable: bool, content: seq<byte>)

  datatype Chunk = Chunk(data: seq<byte>, endOfFile: bool, path: string, checksum: string, plainSize: nat, failed: bool)

  // ---- Reader ----

  function BlockChunk(c: Crypto, f: InputFile, i: nat): Chunk
    requires i < |Split(f.content)|
  {
    var last := i == |Split(f.content)| - 1;
    Chunk(Split(f.content)[i], last, f.path,
          if last then c.digest(f.content) else "", if last then |f.content| else 0, false)
  }

  function FileItems(c: Crypto, f: InputFile, index: nat): seq<Item<Chunk, Chunk>> {
    if !f.readable then [Direct(Chunk([], false, "", "", 0, true))]
    else if f.content == [] then [Direct(Chunk([], true, f.path, c.digest([]), 0, false))]
    else seq(|Split(f.content)|, i requires 0 <= i < |Split(f.content)| => Work(index, BlockChunk(c, f, i)))
  }

  /** The reader stops at the first file it cannot open. */
  function Plan(c: Crypto, files: seq<InputFile>, index: nat): seq<Item<Chunk, Chunk>> {
    if files == [] then []
    else FileItems(c, files[0], index) + (if files[0].readable then Plan(c, files[1..], index + 1) else [])
  }

  /** readSome on a stable file. */
  method ReadSome(content: seq<byte>, offset: nat, size: nat) returns (data: seq<byte>)
    requires offset <= |content|
    ensures data == content[offset..Min(|content|, offset + size)]
  {
    data := content[offset..if |content| < offset + size then |content| else offset + size];
  }

  lemma {:induction false} SplitCount(content: seq<byte>, i: nat)
    ensures i < |Split(content)| <==> i * BLOCK_SIZE < |content|
  {
    AccountingAgrees(content);
    CountIsCeiling(|content|, i);
  }

  /** The chunk loop for one file: it emits the file's items and nothing else. */
  method ReadFile(c: Crypto, f: InputFile, index: nat) returns (items: seq<Item<Chunk, Chunk>>)
    requires f.readable && f.content != []
    ensures items == FileItems(c, f, index)
  {
    items := [];
    var readOffset := 0;
    var hashed: seq<byte> := [];
    var isLast := false;
    SplitCount(f.content, 0);
    while !isLast
      invariant |items| <= |Split(f.content)| && items == FileItems(c, f, index)[..|items|]
      invariant isLast <==> |items| == |Split(f.content)|
      invariant readOffset == Min(|items| * BLOCK_SIZE, |f.content|) && hashed == f.content[..readOffset]
      decreases |Split(f.content)| - |items|
    {
      BlockAt(f.content, |items|);
      SplitCount(f.content, |items| + 1);
      var data := ReadSome(f.content, readOffset, BLOCK_SIZE);
      assert data == Split(f.content)[|items|];
      readOffset := readOffset + |data|;
      hashed := hashed + data;
      assert hashed == f.content[..readOffset];
      isLast := readOffset >= |f.content|;
      var task := Chunk(data, isLast, f.path, "", 0, false);
      if isLast {
        task := task.(checksum := c.digest(hashed), plainSize := readOffset);
      }
      assert isLast ==> hashed == f.content;
      assert task == BlockChunk(c, f, |items|);
      assert FileItems(c, f, index)[..|items| + 1] == FileItems(c, f, index)[..|items|] + [Work(index, task)];
      items := items + [Work(index, task)];
    }
  }

  lemma {:induction false} PlanStep(c: Crypto, files: seq<InputFile>, index: nat)
    requires files != []
    ensures var f := files[0];
      && Plan(c, files, index) == FileItems(c, f, index) + (if f.readable then Plan(c, files[1..], index + 1) else [])
      && (!f.readable ==> FileItems(c, f, index) == [Direct(Chunk([], false, "", "", 0, true))])
      && (f.readable && f.content == [] ==>
            FileItems(c, f, index) == [Direct(Chunk([], true, f.path, c.digest([]), 0, false))])
  {
  }

  /** What the reader pushes while no queue is closed. */
  method ReaderTask(c: Crypto, files: seq<InputFile>) returns (items: seq<Item<Chunk, Chunk>>)
    ensures items == Plan(c, files, 0)
  {
    hide FileItems, Plan;
    items := [];
    assert files[0..] == files && [] + Plan(c, files, 0) == Plan(c, files, 0);
    for i := 0 to |files|
      invariant Plan(c, files, 0) == items + Plan(c, files[i..], i)
    {
      var f := files[i];
      assert files[i..][1..] == files[i + 1..];
      PlanStep(c, files[i..], i);
      if !f.readable {
        items := items + [Direct(Chunk([], false, "", "", 0, true))];
        return;
      }
      var emitted := [Direct(Chunk([], true, f.path, c.digest([]), 0, false))];
      if f.content != [] {
        emitted := ReadFile(c, f, i);
      }
      assert items + (emitted + Plan(c, files[i + 1..], i + 1)) == items + emitted + Plan(c, files[i + 1..], i + 1);
      items := items + emitted;
    }
    assert files[|files|..] == [];
    NoPlan(c, |files|);
  }

  lemma {:induction false} NoPlan(c: Crypto, index: nat)
    ensures Plan(c, [], index) == []
  {
  }

  // ---- Worker ----

  function Sealed(c: Crypto, nonce: seq<byte>, chunk: Chunk): Chunk {
    match c.seal(nonce, chunk.data)
    case None => chunk.(data := [], failed := true)
    case Some(d) => chunk.(data := d)
  }

  function Sealer(c: Crypto, nonces: nat -> seq<byte>): (nat, Chunk) -> Chunk {
    (k: nat, chunk: Chunk) => Sealed(c, nonces(k), chunk)
  }

  function ResultOf(c: Crypto, nonces: nat -> seq<byte>, item: Item<Chunk, Chunk>, k: nat): Chunk {
    match item case Work(_, t) => Sealed(c, nonces(k), t) case Direct(r) => r
  }

  /** The results of `items` when their first sequence number is `base`. */
  function ResultsFrom(c: Crypto, nonces: nat -> seq<byte>, items: seq<Item<Chunk, Chunk>>, base: nat): (rs: seq<Chunk>)
    ensures |rs| == |items|
  {
    seq(|items|, i requires 0 <= i < |items| => ResultOf(c, nonces, items[i], base + i))
  }

  // ---- Writer ----

  datatype Store = Store(disk: seq<byte>, offset: nat, fileStart: nat, started: bool, entries: seq<FileEntry>,
                         fileCount: nat)

  /** processChunk: an error throws before anything changes; the first chunk of a file fixes
      where the file starts; the last one records it. */
  function Process(g: Geometry, w: Store, chunk: Chunk): Outcome<Store> {
    if chunk.failed then Thrown(w) else
      var start := if w.started then w.fileStart else g.Skip(w.offset);
      var at := if w.started then w.offset else start;
      var after := Store(Segments(g, w.disk, at, chunk.data), SegmentsEnd(g, at, |chunk.data|), start, !chunk.endOfFile,
                         w.entries, w.fileCount);
      Going(if chunk.endOfFile
            then after.(entries := Appended(w.entries, chunk.path, chunk.checksum, start, chunk.plainSize),
                        fileCount := w.fileCount + 1)
            else after)
  }

  function Processor(g: Geometry): (Store, Chunk) -> Outcome<Store> {
    (w: Store, chunk: Chunk) => Process(g, w, chunk)
  }

  class EncryptWriter {
    const g: Geometry
    const file: NativeFile
    const table: FileTable
    var currentOffset: nat
    var currentFileStartOffset: nat
    var fileStartRecorded: bool
    var fileCount: nat

    ghost function State(): Store
      reads this, file, table
    {
      Store(file.content, currentOffset, currentFileStartOffset, fileStartRecorded, table.entries, fileCount)
    }

    constructor (g: Geometry, file: NativeFile, table: FileTable, startOffset: nat, fileCount: nat)
      ensures this.g == g && this.file == file && this.table == table
      ensures State() == Store(file.content, startOffset, 0, false, table.entries, fileCount)
    {
      this.g, this.file, this.table := g, file, table;
      currentOffset, currentFileStartOffset, fileStartRecorded, this.fileCount := startOffset, 0, false, fileCount;
    }

    method ProcessChunk(chunk: Chunk) returns (threw: bool)
      modifies this, file, table
      ensures Process(g, old(State()), chunk) == if threw then Thrown(State()) else Going(State())
      ensures table.nextWriteOffset == old(table.nextWriteOffset)
    {
      hide Put, End, Segments, SegmentsEnd, Geometry.Separated, Appended;
      if chunk.failed { return true; }
      if !fileStartRecorded {
        currentFileStartOffset := SkipSlots(g, currentOffset);
        currentOffset := currentFileStartOffset;
        fileStartRecorded := true;
      }
      currentOffset := file.WriteFragmented(g, currentOffset, chunk.data);
      if chunk.endOfFile {
        table.AddFileEntry(chunk.path, chunk.checksum, currentFileStartOffset, chunk.plainSize);
        fileCount := fileCount + 1;
        fileStartRecorded := false;
      }
      return false;
    }
  }
}
