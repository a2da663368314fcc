/** What extraction delivers (src/DecryptPipeline.cpp), for any entries over any bytes: stated by the bytes that
    are read, what they open to and the recorded checksums alone. */
module Delivery {
  import opened Bytes
  import opened Layout
  import opened Fragments
  import opened Chunks
  import opened Sealing
  import opened Tables
  import opened Pipeline
  import opened Encrypt
  import opened Storing
  import opened Decrypt
  import Names

  // ---- The blocks of an entry ----

  /** The plain bytes not yet planned before block `i`, and those planned for it. */
  function Left(e: FileEntry, i: nat): nat { if e.size <= i * 65536 then 0 else e.size - i * 65536 }

  function PlannedSize(e: FileEntry, i: nat): nat { if Left(e, i) < 65536 then Left(e, i) else 65536 }

  /** Where the sealed block `i` is looked for: behind the one before. */
  function BlockStart(g: Geometry, e: FileEntry, i: nat): nat {
    if i == 0 then e.offset else SegmentsEnd(g, BlockStart(g, e, i - 1), PlannedSize(e, i - 1) + 28)
  }

  function SealedBlock(g: Geometry, disk: seq<byte>, e: FileEntry, i: nat): Option<seq<byte>> {
    Collected(g, disk, BlockStart(g, e, i), PlannedSize(e, i) + 28)
  }

  /** What block `i` opens to, if it lies in the file and authenticates. */
  function BlockText(c: Crypto, g: Geometry, disk: seq<byte>, e: FileEntry, i: nat): Option<seq<byte>> {
    match SealedBlock(g, disk, e, i) case None => None case Some(d) => c.unseal(d)
  }

  predicate BlockOpens(c: Crypto, g: Geometry, disk: seq<byte>, e: FileEntry, i: nat) {
    var text := BlockText(c, g, disk, e, i);
    text.Some? && |text.value| == PlannedSize(e, i)
  }

  /** The first `n` opened blocks joined. */
  function Joined(c: Crypto, g: Geometry, disk: seq<byte>, e: FileEntry, n: nat): seq<byte> {
    if n == 0 then [] else Joined(c, g, disk, e, n - 1) + DataOf(BlockText(c, g, disk, e, n - 1))
  }

  function Text(c: Crypto, g: Geometry, disk: seq<byte>, e: FileEntry): seq<byte> { Joined(c, g, disk, e, e.chunks) }

  ghost predicate InFile(g: Geometry, disk: seq<byte>, e: FileEntry) {
    forall i :: 0 <= i < e.chunks ==> SealedBlock(g, disk, e, i).Some?
  }

  /** The reads of an entry stay inside the file exactly if each of its blocks does. */
  lemma {:induction false} ReadableIff(g: Geometry, disk: seq<byte>, e: FileEntry, i: nat)
    ensures Readable(g, disk, e, i, BlockStart(g, e, i), Left(e, i))
      <==> forall j :: i <= j < e.chunks ==> SealedBlock(g, disk, e, j).Some?
    decreases e.chunks - i
  {
    hide Collected, SegmentsEnd;
    if i < e.chunks {
      ReadableIff(g, disk, e, i + 1);
      assert BlockStart(g, e, i + 1) == SegmentsEnd(g, BlockStart(g, e, i), PlannedSize(e, i) + 28);
      assert Left(e, i) - PlannedSize(e, i) == Left(e, i + 1);
      assert SealedBlock(g, disk, e, i) == Collected(g, disk, BlockStart(g, e, i), PlannedSize(e, i) + OVERHEAD);
    }
  }

  // ---- The writer over one entry ----

  ghost predicate Closed(w: Output) { w.currentName == "" && w.open == None && w.offset == 0 && w.hashed == [] }

  /** The program throws at an entry whose name has no usable last part; without any name it throws only when
      there is something to write. */
  predicate NameRefused(e: FileEntry) {
    if e.name == "" then e.chunks > 0 && e.size > 0 else Names.FileName(e.name) in {"", ".", ".."}
  }

  /** The entry makes the extraction throw. */
  ghost predicate Refuses(c: Crypto, g: Geometry, disk: seq<byte>, e: FileEntry) {
    NameRefused(e) || exists i :: 0 <= i < e.chunks && !BlockOpens(c, g, disk, e, i)
  }

  /** Writing `text` as the output of an entry; an entry without a name has none. */
  function WithOutput(files: map<string, seq<byte>>, e: FileEntry, text: seq<byte>): map<string, seq<byte>> {
    if e.name == "" then files else files[Names.FileName(e.name) := text]
  }

  function Mismatch(c: Crypto, e: FileEntry, text: seq<byte>): seq<string> {
    if c.digest(text) == e.checksum then [] else [e.name]
  }

  /** The closed writer after an entry that opened to `text`. */
  function Done(c: Crypto, w: Output, e: FileEntry, text: seq<byte>): Output {
    w.(files := WithOutput(w.files, e, text), failures := w.failures + Mismatch(c, e, text))
  }

  /** The writer, closed at first, after the first `i` of the blocks of an entry, `text` joined. */
  ghost predicate Underway(w: Output, e: FileEntry, i: nat, text: seq<byte>, v: Output) {
    if i == 0 || e.name == "" then v == w && text == []
    else v == Output(WithOutput(w.files, e, text), e.name, Some(Names.FileName(e.name)), |text|, text, w.failures)
  }

  lemma {:induction false} AppendBySplice(old_: seq<byte>, data: seq<byte>)
    ensures Splice(old_, |old_|, data) == old_ + data
  {
  }

  /** One more block arrives. */
  lemma {:induction false} BlockArrives(c: Crypto, w: Output, e: FileEntry, i: nat, text: seq<byte>, v: Output,
          chunk: Chunk)
    requires Closed(w) && Underway(w, e, i, text, v) && chunk.path == e.name && (e.name == "" ==> chunk.data == [])
    requires chunk.endOfFile ==> chunk.checksum == e.checksum
    requires Names.FileName(e.name) !in {"", ".", ".."} || e.name == ""
    ensures chunk.failed ==> Write(c, v, chunk).Thrown?
    ensures !chunk.failed && !chunk.endOfFile ==>
      Write(c, v, chunk).Going? && Underway(w, e, i + 1, text + chunk.data, Write(c, v, chunk).w)
    ensures !chunk.failed && chunk.endOfFile ==> Write(c, v, chunk) == Going(Done(c, w, e, text + chunk.data))
  {
    hide Names.FileName, Splice;
    AppendBySplice(text, chunk.data);
    assert [] + chunk.data == chunk.data && text + [] == text && w.failures + [] == w.failures;
    var files := WithOutput(w.files, e, text);
    assert WithOutput(files, e, text + chunk.data) == WithOutput(w.files, e, text + chunk.data);
  }

  /** The first block of an entry with a refused name. */
  lemma {:induction false} NameThrows(c: Crypto, w: Output, e: FileEntry, chunk: Chunk)
    requires Closed(w) && NameRefused(e) && chunk.path == e.name && (e.name == "" && !chunk.failed ==> chunk.data != [])
    ensures Write(c, w, chunk).Thrown?
  {
    hide Names.FileName, Splice;
  }

  // ---- One entry ----

  lemma {:induction false} FoldFront(c: Crypto, w: Output, r: Chunk, rs: seq<Chunk>)
    ensures Fold(Writer(c), w, [r] + rs) ==
      if Write(c, w, r).Thrown? then Write(c, w, r) else Fold(Writer(c), Write(c, w, r).w, rs)
  {
    hide Write;
    FoldConcat(Writer(c), w, [r], rs);
    assert [r][..0] == [];
    assert Fold(Writer(c), w, [r]) == Write(c, w, r);
  }

  lemma {:induction false} FoldNothing(c: Crypto, w: Output)
    ensures Fold(Writer(c), w, OpenedAll(c, [])) == Going(w)
  {
  }

  lemma {:induction false} OpenedConcat(c: Crypto, a: seq<Item<Task, Chunk>>, b: seq<Item<Task, Chunk>>)
    ensures OpenedAll(c, a + b) == OpenedAll(c, a) + OpenedAll(c, b)
  {
  }

  /** What becomes of block `i`. */
  function BlockChunk(c: Crypto, g: Geometry, disk: seq<byte>, e: FileEntry, i: nat): Chunk {
    var opens, last := BlockOpens(c, g, disk, e, i), i == e.chunks - 1;
    Chunk(if opens then DataOf(BlockText(c, g, disk, e, i)) else [], last, e.name, if last then e.checksum else "",
          if last then e.size else 0, !opens)
  }

  function EntryChunks(c: Crypto, g: Geometry, disk: seq<byte>, e: FileEntry, index: nat, i: nat): seq<Chunk> {
    OpenedAll(c, EntryItems(g, disk, e, index, i, BlockStart(g, e, i), Left(e, i)))
  }

  lemma {:induction false} NextChunk(c: Crypto, g: Geometry, disk: seq<byte>, e: FileEntry, index: nat, i: nat)
    requires i < e.chunks && SealedBlock(g, disk, e, i).Some?
    ensures EntryChunks(c, g, disk, e, index, i)
      == [BlockChunk(c, g, disk, e, i)] + EntryChunks(c, g, disk, e, index, i + 1)
  {
    hide Collected, SegmentsEnd, EntryItems, Readable;
    var off, left := BlockStart(g, e, i), Left(e, i);
    EntryStep(g, disk, e, index, i, off, left);
    var items := EntryItems(g, disk, e, index, i, off, left);
    assert left - PlannedSize(e, i) == Left(e, i + 1);
    assert OpenedAll(c, [items[0]]) == [BlockChunk(c, g, disk, e, i)];
    OpenedConcat(c, [items[0]], items[1..]);
  }

  /** The blocks from number `i` on. */
  lemma {:induction false} FoldBlocks(c: Crypto, g: Geometry, disk: seq<byte>, e: FileEntry, index: nat, i: nat,
          w: Output, v: Output)
    requires Closed(w) && InFile(g, disk, e) && !NameRefused(e) && i < e.chunks
    requires Underway(w, e, i, Joined(c, g, disk, e, i), v)
    ensures var o := Fold(Writer(c), v, EntryChunks(c, g, disk, e, index, i));
      && (o.Thrown? <==> exists j :: i <= j < e.chunks && !BlockOpens(c, g, disk, e, j))
      && (o.Going? ==> o.w == Done(c, w, e, Text(c, g, disk, e)))
    decreases e.chunks - i
  {
    hide SealedBlock, BlockText, EntryChunks, Write, Fold, Names.FileName, Underway, Done, Writer;
    var chunk := BlockChunk(c, g, disk, e, i);
    NextChunk(c, g, disk, e, index, i);
    FoldFront(c, v, chunk, EntryChunks(c, g, disk, e, index, i + 1));
    BlockArrives(c, w, e, i, Joined(c, g, disk, e, i), v, chunk);
    assert BlockOpens(c, g, disk, e, i) ==> Joined(c, g, disk, e, i) + chunk.data == Joined(c, g, disk, e, i + 1);
    if BlockOpens(c, g, disk, e, i) {
      if i + 1 == e.chunks {
        NoChunksLeft(c, g, disk, e, index);
        FoldNothing(c, Write(c, v, chunk).w);
      } else {
        FoldBlocks(c, g, disk, e, index, i + 1, w, Write(c, v, chunk).w);
      }
    }
  }

  lemma {:induction false} NoChunksLeft(c: Crypto, g: Geometry, disk: seq<byte>, e: FileEntry, index: nat)
    ensures EntryChunks(c, g, disk, e, index, e.chunks) == OpenedAll(c, [])
  {
  }

  /** One entry: the extraction throws exactly if the name is refused or some block does not open to the planned
      length; otherwise what the blocks open to, joined, becomes the output, and the name is noted exactly if its
      digest is not the checksum. */
  lemma {:induction false} FoldEntryIff(c: Crypto, g: Geometry, disk: seq<byte>, e: FileEntry, index: nat, w: Output)
    requires Closed(w) && InFile(g, disk, e)
    ensures var o := Fold(Writer(c), w, OpenedAll(c, ItemsOf(g, disk, e, index)));
      && (o.Thrown? <==> Refuses(c, g, disk, e))
      && (o.Going? ==> o.w == Done(c, w, e, Text(c, g, disk, e)))
  {
    hide SealedBlock, BlockText, Write, Fold, Names.FileName, Underway, Done, Writer, EntryItems, BlockOpens;
    if e.chunks == 0 {
      var chunk := Chunk([], true, e.name, e.checksum, 0, false);
      assert OpenedAll(c, ItemsOf(g, disk, e, index)) == [chunk] + [];
      FoldFront(c, w, chunk, []);
      FoldNothing(c, if Write(c, w, chunk).Going? then Write(c, w, chunk).w else w);
      EmptyEntry(c, w, e, chunk);
    } else {
      assert Left(e, 0) == e.size && BlockStart(g, e, 0) == e.offset;
      if NameRefused(e) {
        NextChunk(c, g, disk, e, index, 0);
        FirstRefused(c, g, disk, e);
        FoldFront(c, w, BlockChunk(c, g, disk, e, 0), EntryChunks(c, g, disk, e, index, 1));
        NameThrows(c, w, e, BlockChunk(c, g, disk, e, 0));
      } else {
        NotStarted(c, g, disk, w, e);
        FoldBlocks(c, g, disk, e, index, 0, w, w);
      }
    }
  }

  lemma {:induction false} EmptyEntry(c: Crypto, w: Output, e: FileEntry, chunk: Chunk)
    requires Closed(w) && e.chunks == 0 && chunk == Chunk([], true, e.name, e.checksum, 0, false)
    ensures if NameRefused(e) then Write(c, w, chunk).Thrown? else Write(c, w, chunk) == Going(Done(c, w, e, []))
  {
    hide Names.FileName, Splice;
    assert w.failures + [] == w.failures;
  }

  lemma {:induction false} FirstRefused(c: Crypto, g: Geometry, disk: seq<byte>, e: FileEntry)
    requires e.chunks > 0
    ensures var chunk := BlockChunk(c, g, disk, e, 0);
      chunk.path == e.name && (e.size > 0 && !chunk.failed ==> chunk.data != [])
  {
    hide SealedBlock;
  }

  lemma {:induction false} NotStarted(c: Crypto, g: Geometry, disk: seq<byte>, w: Output, e: FileEntry)
    ensures Underway(w, e, 0, Joined(c, g, disk, e, 0), w)
  {
  }

  // ---- All entries ----

  ghost predicate AllInFile(g: Geometry, disk: seq<byte>, entries: seq<FileEntry>) {
    forall k :: 0 <= k < |entries| ==> InFile(g, disk, entries[k])
  }

  lemma {:induction false} AllReadableIff(g: Geometry, disk: seq<byte>, entries: seq<FileEntry>)
    ensures AllReadable(g, disk, entries) <==> AllInFile(g, disk, entries)
  {
    hide Readable, InFile;
    forall k | 0 <= k < |entries|
      ensures Readable(g, disk, entries[k], 0, entries[k].offset, entries[k].size) <==> InFile(g, disk, entries[k])
    {
      EntryReads(g, disk, entries[k]);
    }
  }

  lemma {:induction false} EntryReads(g: Geometry, disk: seq<byte>, e: FileEntry)
    ensures Readable(g, disk, e, 0, e.offset, e.size) <==> InFile(g, disk, e)
  {
    hide Readable, SealedBlock;
    ReadableIff(g, disk, e, 0);
  }

  function Texts(c: Crypto, g: Geometry, disk: seq<byte>, entries: seq<FileEntry>): (r: seq<seq<byte>>)
    ensures |r| == |entries|
  {
    seq(|entries|, k requires 0 <= k < |entries| => Text(c, g, disk, entries[k]))
  }

  /** The output directory after the given texts have been written as the outputs of the entries. */
  function FilesAfter(files: map<string, seq<byte>>, entries: seq<FileEntry>,
          texts: seq<seq<byte>>): map<string, seq<byte>>
    requires |entries| == |texts|
    decreases |entries|
  {
    if entries == [] then files else FilesAfter(WithOutput(files, entries[0], texts[0]), entries[1..], texts[1..])
  }

  /** The names, in order, of the entries whose text does not have the recorded digest. */
  function Mismatches(c: Crypto, entries: seq<FileEntry>, texts: seq<seq<byte>>): seq<string>
    requires |entries| == |texts|
    decreases |entries|
  {
    if entries == [] then [] else Mismatch(c, entries[0], texts[0]) + Mismatches(c, entries[1..], texts[1..])
  }

  ghost predicate SomeRefuses(c: Crypto, g: Geometry, disk: seq<byte>, entries: seq<FileEntry>) {
    exists k :: 0 <= k < |entries| && Refuses(c, g, disk, entries[k])
  }

  lemma {:induction false} FoldAllIff(c: Crypto, g: Geometry, disk: seq<byte>, entries: seq<FileEntry>, index: nat,
          w: Output)
    requires Closed(w) && AllInFile(g, disk, entries)
    ensures var o := Fold(Writer(c), w, OpenedAll(c, ExtractPlan(g, disk, entries, index)));
      var texts := Texts(c, g, disk, entries);
      && (o.Thrown? <==> SomeRefuses(c, g, disk, entries))
      && (o.Going? ==> o.w == w.(files := FilesAfter(w.files, entries, texts),
                                 failures := w.failures + Mismatches(c, entries, texts)))
    decreases |entries|
  {
    hide Refuses, InFile, Text, ItemsOf, Write, Names.FileName, Writer, WithOutput, Mismatch;
    if entries == [] {
      FoldNothing(c, w);
      assert w.failures + [] == w.failures;
    } else {
      var e, rest := entries[0], entries[1..];
      var v := Done(c, w, e, Text(c, g, disk, e));
      FoldEntryIff(c, g, disk, e, index, w);
      OpenedConcat(c, ItemsOf(g, disk, e, index), ExtractPlan(g, disk, rest, index + 1));
      FoldConcat(Writer(c), w, OpenedAll(c, ItemsOf(g, disk, e, index)),
                 OpenedAll(c, ExtractPlan(g, disk, rest, index + 1)));
      FoldAllIff(c, g, disk, rest, index + 1, v);
      assert Texts(c, g, disk, entries)[1..] == Texts(c, g, disk, rest);
      SomeSplit(c, g, disk, entries);
      var m, ms := Mismatch(c, e, Text(c, g, disk, e)), Mismatches(c, rest, Texts(c, g, disk, rest));
      assert w.failures + m + ms == w.failures + (m + ms);
    }
  }

  lemma {:induction false} SomeSplit(c: Crypto, g: Geometry, disk: seq<byte>, entries: seq<FileEntry>)
    requires entries != []
    ensures SomeRefuses(c, g, disk, entries) <==>
      Refuses(c, g, disk, entries[0]) || SomeRefuses(c, g, disk, entries[1..])
  {
    hide Refuses;
    if k :| 0 <= k < |entries| && Refuses(c, g, disk, entries[k]) {
      assert k > 0 ==> entries[k] == entries[1..][k - 1];
    }
  }

  // ---- Stored files ----

  ghost predicate UsableNames(entries: seq<FileEntry>) {
    forall i :: 0 <= i < |entries| ==> SafeName(entries[i].name) && '/' !in entries[i].name
  }

  /** Each name ends up with the text listed under it, and no other output is touched. */
  lemma {:induction false} FilesAfterHas(files: map<string, seq<byte>>, entries: seq<FileEntry>,
          texts: seq<seq<byte>>, name: string)
    requires |entries| == |texts| && UsableNames(entries)
    requires forall i, j :: 0 <= i < j < |entries| && entries[i].name == entries[j].name ==> texts[i] == texts[j]
    ensures var r := FilesAfter(files, entries, texts);
      && (forall i :: 0 <= i < |entries| && entries[i].name == name ==> name in r && r[name] == texts[i])
      && ((forall i :: 0 <= i < |entries| ==> entries[i].name != name) ==>
            (name in r <==> name in files) && (name in files ==> r[name] == files[name]))
    decreases |entries|
  {
    hide Names.FileName;
    if entries != [] {
      Names.OwnFileName(entries[0].name);
      FilesAfterHas(WithOutput(files, entries[0], texts[0]), entries[1..], texts[1..], name);
      assert forall i :: 0 < i < |entries| ==> entries[i] == entries[1..][i - 1] && texts[i] == texts[1..][i - 1];
    }
  }

  /** The blocks of an intact entry open to the blocks of its content. */
  lemma {:induction false} IntactBlocks(c: Crypto, g: Geometry, disk: seq<byte>, e: FileEntry, content: seq<byte>,
          i: nat)
    requires Intact(c, g, disk, e, content) && i <= e.chunks == |Split(content)|
    ensures Stored(c, g, disk, BlockStart(g, e, i), Split(content)[i..])
    ensures Joined(c, g, disk, e, i) == content[..|content| - Left(e, i)]
    ensures forall j :: 0 <= j < i ==> SealedBlock(g, disk, e, j).Some? && BlockOpens(c, g, disk, e, j)
  {
    hide Collected, SegmentsEnd, Split, Geometry.InSlot;
    if i == 0 {
      assert Split(content)[0..] == Split(content);
    } else {
      IntactBlocks(c, g, disk, e, content, i - 1);
      var blocks := Split(content)[i - 1..];
      BlockAt(content, i - 1);
      assert blocks[1..] == Split(content)[i..] && |blocks[0]| == PlannedSize(e, i - 1);
      assert content[..|content| - Left(e, i - 1)] + blocks[0] == content[..|content| - Left(e, i)];
    }
  }

  lemma {:induction false} IntactText(c: Crypto, g: Geometry, disk: seq<byte>, e: FileEntry, content: seq<byte>)
    requires Intact(c, g, disk, e, content)
    ensures InFile(g, disk, e) && forall i :: 0 <= i < e.chunks ==> BlockOpens(c, g, disk, e, i)
    ensures Text(c, g, disk, e) == content
  {
    hide SealedBlock, Stored, Split, BlockOpens;
    AccountingAgrees(content);
    IntactBlocks(c, g, disk, e, content, e.chunks);
    CountIsCeiling(|content|, e.chunks);
    assert content[..|content|] == content;
  }

  lemma {:induction false} IntactDelivers(c: Crypto, g: Geometry, disk: seq<byte>, e: FileEntry, content: seq<byte>)
    requires Intact(c, g, disk, e, content) && SafeName(e.name) && '/' !in e.name
    ensures InFile(g, disk, e) && !Refuses(c, g, disk, e)
    ensures Text(c, g, disk, e) == content && Mismatch(c, e, content) == []
  {
    hide SealedBlock, Stored, BlockOpens, Text, Names.FileName;
    Names.OwnFileName(e.name);
    IntactText(c, g, disk, e, content);
  }

  /** Extraction in one thread of any intact entries: every file comes back with its content and
      no checksum failure is recorded. */
  lemma {:induction false} FoldExtract(c: Crypto, g: Geometry, disk: seq<byte>, entries: seq<FileEntry>,
          contents: seq<seq<byte>>, index: nat, w: Output)
    requires Closed(w) && AllIntact(c, g, disk, entries, contents) && UsableNames(entries)
    ensures Fold(Writer(c), w, OpenedAll(c, ExtractPlan(g, disk, entries, index)))
      == Going(w.(files := FilesAfter(w.files, entries, contents)))
    ensures AllReadable(g, disk, entries)
  {
    hide Intact, Refuses, InFile, Text, Mismatch, Fold, OpenedAll, ExtractPlan, AllReadable, FilesAfter, SafeName;
    hide Mismatches;
    forall k | 0 <= k < |entries|
      ensures InFile(g, disk, entries[k]) && !Refuses(c, g, disk, entries[k])
      ensures Text(c, g, disk, entries[k]) == contents[k] && Mismatch(c, entries[k], contents[k]) == []
    {
      IntactDelivers(c, g, disk, entries[k], contents[k]);
    }
    assert Texts(c, g, disk, entries) == contents;
    FoldAllIff(c, g, disk, entries, index, w);
    AllReadableIff(g, disk, entries);
    NoMismatch(c, entries, contents);
    assert w.failures + [] == w.failures;
  }

  lemma {:induction false} NoMismatch(c: Crypto, entries: seq<FileEntry>, texts: seq<seq<byte>>)
    requires |entries| == |texts| && forall k :: 0 <= k < |entries| ==> Mismatch(c, entries[k], texts[k]) == []
    ensures Mismatches(c, entries, texts) == []
    decreases |entries|
  {
    hide Mismatch;
    if entries != [] {
      assert forall k :: 0 < k < |entries| ==> entries[k] == entries[1..][k - 1] && texts[k] == texts[1..][k - 1];
      NoMismatch(c, entries[1..], texts[1..]);
    }
  }
}
