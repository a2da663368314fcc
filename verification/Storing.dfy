/** What the sequential writer of src/EncryptPipeline.cpp achieves: files land one after the
    other in the data space, readable, and nothing that was there before is touched. */
module Storing {
  import opened Bytes
  import opened Layout
  import opened Fragments
  import opened Chunks
  import opened Sealing
  import opened Tables
  import opened Pipeline
  import opened Encrypt
  import Names

  // ---- Frames ----

  /** `d'` differs from `d` in data bytes of [lo, hi) only, and is no longer than it has to be. */
  ghost predicate Kept(g: Geometry, d: seq<byte>, d': seq<byte>, lo: nat, hi: nat) {
    && |d| <= |d'| <= Max(|d|, hi)
    && forall p :: 0 <= p < |d| && (g.InSlot(p) || p < lo || hi <= p) ==> d'[p] == d[p]
  }

  lemma {:induction false} PutKept(g: Geometry, d: seq<byte>, off: nat, data: seq<byte>)
    requires g.Separated()
    ensures Kept(g, d, Put(g, d, off, data), off, End(g, off, |data|))
  {
    PutFrame(g, d, off, data);
    PutLength(g, d, off, data);
  }

  lemma {:induction false} KeptTransitive(g: Geometry, d: seq<byte>, d': seq<byte>, d'': seq<byte>, lo: nat, mid: nat,
          hi: nat)
    requires Kept(g, d, d', lo, mid) && Kept(g, d', d'', mid, hi) && lo <= mid <= hi
    ensures Kept(g, d, d'', lo, hi)
  {
  }

  // ---- Intact files ----

  /** Where the sealed blocks of an entry end. */
  function ExtentEnd(g: Geometry, e: FileEntry): nat { End(g, e.offset, EncryptedSize(e.size)) }

  /** The entry describes `content`, and its sealed blocks are where the entry says. */
  ghost predicate Intact(c: Crypto, g: Geometry, disk: seq<byte>, e: FileEntry, content: seq<byte>) {
    && e.size == |content| && e.chunks == ChunkCount(|content|) && e.checksum == c.digest(content)
    && !g.InSlot(e.offset)
    && Stored(c, g, disk, e.offset, Split(content))
  }

  /** Names are distinct file names, extents are in order and below `next`. */
  ghost predicate Ordered(g: Geometry, entries: seq<FileEntry>, next: nat) {
    && DistinctNames(entries)
    && (forall i :: 0 <= i < |entries| ==> '/' !in entries[i].name)
    && (forall i :: 0 <= i < |entries| ==> ExtentEnd(g, entries[i]) <= next)
    && (forall i, j :: 0 <= i < j < |entries| ==> ExtentEnd(g, entries[i]) <= entries[j].offset)
  }

  ghost predicate AllIntact(c: Crypto, g: Geometry, disk: seq<byte>, entries: seq<FileEntry>, contents: seq<seq<byte>>)
  {
    |entries| == |contents| && forall i :: 0 <= i < |entries| ==> Intact(c, g, disk, entries[i], contents[i])
  }

  lemma {:induction false} IntactKept(c: Crypto, g: Geometry, d: seq<byte>, d': seq<byte>, e: FileEntry,
          content: seq<byte>, lo: nat, hi: nat)
    requires g.Separated() && Intact(c, g, d, e, content) && Kept(g, d, d', lo, hi) && ExtentEnd(g, e) <= lo
    ensures Intact(c, g, d', e, content)
  {
    hide Stored, End, Split;
    AccountingAgrees(content);
    StoredDependsOn(c, g, d, d', e.offset, Split(content));
  }

  /** Writing above every extent leaves every stored file as it was. */
  lemma {:induction false} AllIntactKept(c: Crypto, g: Geometry, d: seq<byte>, d': seq<byte>, entries: seq<FileEntry>,
          contents: seq<seq<byte>>, lo: nat, hi: nat)
    requires g.Separated() && AllIntact(c, g, d, entries, contents) && Kept(g, d, d', lo, hi)
    requires forall i :: 0 <= i < |entries| ==> ExtentEnd(g, entries[i]) <= lo
    ensures AllIntact(c, g, d', entries, contents)
  {
    hide Intact, ExtentEnd;
    forall i | 0 <= i < |entries| ensures Intact(c, g, d', entries[i], contents[i]) {
      IntactKept(c, g, d, d', entries[i], contents[i], lo, hi);
    }
  }

  // ---- One file ----

  ghost predicate SealedAs(c: Crypto, f: InputFile, i: nat, chunk: Chunk)
    requires i < |Split(f.content)|
  {
    !chunk.failed ==>
      && |chunk.data| == |Split(f.content)[i]| + OVERHEAD
      && c.unseal(chunk.data) == Some(Split(f.content)[i])
      && chunk == BlockChunk(c, f, i).(data := chunk.data)
  }

  lemma {:induction false} SealedIsSealed(c: Crypto, nonce: seq<byte>, f: InputFile, i: nat)
    requires c.Ideal() && i < |Split(f.content)|
    ensures SealedAs(c, f, i, Sealed(c, nonce, BlockChunk(c, f, i)))
  {
    assert c.Sound(nonce, BlockChunk(c, f, i).data);
  }

  /** The writer after the first `i` chunks of a file that starts at `start`. */
  ghost predicate Midway(c: Crypto, g: Geometry, w: Store, f: InputFile, start: nat, i: nat, v: Store)
    requires i <= |Split(f.content)|
  {
    && v.offset == End(g, start, SealedSize(Split(f.content)[..i]))
    && v.fileStart == start && v.entries == w.entries && v.fileCount == w.fileCount
    && Stored(c, g, v.disk, start, Split(f.content)[..i])
    && Kept(g, w.disk, v.disk, w.offset, v.offset)
  }

  /** Placing one more sealed block. */
  lemma {:induction false} PlaceBlock(c: Crypto, g: Geometry, w: Store, f: InputFile, start: nat, i: nat, v: Store,
          data: seq<byte>)
    requires g.Separated() && i < |Split(f.content)| && w.offset <= start
    requires Midway(c, g, w, f, start, i, v)
    requires |data| == |Split(f.content)[i]| + OVERHEAD && c.unseal(data) == Some(Split(f.content)[i])
    ensures var v' := v.(disk := Put(g, v.disk, v.offset, data), offset := End(g, v.offset, |data|));
      Midway(c, g, w, f, start, i + 1, v')
  {
    hide Put, Get, End, Stored, Split;
    var bs := Split(f.content);
    var d := Put(g, v.disk, v.offset, data);
    var k := SealedSize(bs[..i]);
    assert bs[..i + 1] == bs[..i] + [bs[i]];
    SealedSizeAppend(bs[..i], bs[i]);
    EndCompose(g, start, k, |data|);
    PutKept(g, v.disk, v.offset, data);
    EndCounts(g, start, k);
    EndCounts(g, v.offset, |data|);
    StoredDependsOn(c, g, v.disk, d, start, bs[..i]);
    GetPut(g, v.disk, v.offset, data);
    StoredAppend(c, g, d, start, bs[..i], bs[i]);
    KeptTransitive(g, w.disk, v.disk, d, w.offset, v.offset, End(g, v.offset, |data|));
  }

  /** The writer after all chunks of `f`: one new intact entry, and only free data bytes used. */
  ghost predicate FileDone(c: Crypto, g: Geometry, w: Store, f: InputFile, v: Store) {
    var start := g.Skip(w.offset);
    && !v.started && v.fileCount == w.fileCount + 1
    && v.offset == End(g, start, EncryptedSize(|f.content|))
    && v.entries == Appended(w.entries, f.path, c.digest(f.content), start, |f.content|)
    && Stored(c, g, v.disk, start, Split(f.content))
    && Kept(g, w.disk, v.disk, w.offset, v.offset)
  }

  /** The writer after `i` chunks of `f`, none of which failed. */
  ghost predicate Partial(c: Crypto, g: Geometry, w: Store, f: InputFile, i: nat, v: Store)
    requires i <= |Split(f.content)|
  {
    if i == 0 then v == w
    else if i < |Split(f.content)| then v.started && Midway(c, g, w, f, g.Skip(w.offset), i, v)
    else FileDone(c, g, w, f, v)
  }

  /** A failed file: the table is as before and only bytes past the old end were touched. */
  ghost predicate Abandoned(g: Geometry, w: Store, f: InputFile, v: Store) {
    v.entries == w.entries && v.fileCount == w.fileCount && w.offset <= v.offset <= EndOfFile(g, w.offset, f)
    && Kept(g, w.disk, v.disk, w.offset, v.offset)
  }

  lemma {:induction false} PartialStep(c: Crypto, g: Geometry, w: Store, f: InputFile, i: nat, v: Store, chunk: Chunk)
    requires g.Separated() && i < |Split(f.content)| && !w.started
    requires Partial(c, g, w, f, i, v) && SealedAs(c, f, i, chunk) && !chunk.failed
    ensures Process(g, v, chunk).Going? && Partial(c, g, w, f, i + 1, Process(g, v, chunk).w)
  {
    hide Put, End, Segments, SegmentsEnd, Stored, Split, Kept, Appended;
    var start := g.Skip(w.offset);
    var at := if v.started then v.offset else start;
    SegmentsArePut(g, v.disk, at, chunk.data);
    SegmentsEndIsEnd(g, at, |chunk.data|);
    SkipIsLeast(g, w.offset);
    var u := if i == 0 then Store(w.disk, start, start, true, w.entries, w.fileCount) else v;
    if i == 0 {
      MidwayStart(c, g, w, f);
    }
    PlaceBlock(c, g, w, f, start, i, u, chunk.data);
    if i + 1 == |Split(f.content)| {
      AccountingAgrees(f.content);
      assert Split(f.content)[..i + 1] == Split(f.content);
    }
  }

  lemma {:induction false} MidwayStart(c: Crypto, g: Geometry, w: Store, f: InputFile)
    requires g.Separated()
    ensures var start := g.Skip(w.offset);
      Midway(c, g, w, f, start, 0, Store(w.disk, start, start, true, w.entries, w.fileCount))
  {
    SkipIsLeast(g, w.offset);
    assert Split(f.content)[..0] == [];
    Nothing(g, w.disk, g.Skip(w.offset));
  }

  lemma {:induction false} PartialAbandoned(c: Crypto, g: Geometry, w: Store, f: InputFile, i: nat, v: Store)
    requires g.Separated() && i < |Split(f.content)| && Partial(c, g, w, f, i, v)
    ensures Abandoned(g, w, f, v)
  {
    hide Stored, Kept, Split, End;
    var start, bs := g.Skip(w.offset), Split(f.content);
    SkipIsLeast(g, w.offset);
    AccountingAgrees(f.content);
    EndCounts(g, start, SealedSize(bs));
    if i > 0 {
      EndCounts(g, start, SealedSize(bs[..i]));
      SealedSizeOfPrefix(bs, i);
      EndCompose(g, start, SealedSize(bs[..i]), SealedSize(bs) - SealedSize(bs[..i]));
      EndCounts(g, v.offset, SealedSize(bs) - SealedSize(bs[..i]));
    } else {
      KeptSelf(g, w.disk, w.offset);
    }
  }

  lemma {:induction false} KeptSelf(g: Geometry, d: seq<byte>, lo: nat)
    ensures Kept(g, d, d, lo, lo)
  {
  }

  lemma {:induction false} SealedSizeOfPrefix(blocks: seq<seq<byte>>, i: nat)
    requires i <= |blocks|
    ensures SealedSize(blocks[..i]) <= SealedSize(blocks)
  {
    if i > 0 {
      assert blocks[..i][1..] == blocks[1..][..i - 1];
      SealedSizeOfPrefix(blocks[1..], i - 1);
    }
  }

  lemma {:induction false} FoldFile(c: Crypto, g: Geometry, w: Store, f: InputFile, rs: seq<Chunk>, i: nat)
    requires g.Separated() && !w.started && f.content != []
    requires |rs| == |Split(f.content)| && forall j :: 0 <= j < |rs| ==> SealedAs(c, f, j, rs[j])
    requires i <= |rs|
    ensures var o := Fold(Processor(g), w, rs[..i]);
      && (o.Going? <==> forall j :: 0 <= j < i ==> !rs[j].failed)
      && (o.Going? ==> Partial(c, g, w, f, i, o.w))
      && (o.Thrown? ==> Abandoned(g, w, f, o.w))
  {
    hide Partial, Abandoned, SealedAs, Split, Fold, Put, End;
    if i > 0 {
      FoldFile(c, g, w, f, rs, i - 1);
      var before := Fold(Processor(g), w, rs[..i - 1]);
      assert rs[..i - 1] + [rs[i - 1]] == rs[..i];
      FoldLast(Processor(g), w, rs[..i - 1], rs[i - 1]);
      if before.Going? {
        if rs[i - 1].failed {
          PartialAbandoned(c, g, w, f, i - 1, before.w);
        } else {
          PartialStep(c, g, w, f, i - 1, before.w, rs[i - 1]);
        }
      }
    } else {
      PartialZero(c, g, w, f);
    }
  }

  lemma {:induction false} PartialZero(c: Crypto, g: Geometry, w: Store, f: InputFile)
    ensures Partial(c, g, w, f, 0, w)
    ensures forall rs: seq<Chunk> :: Fold(Processor(g), w, rs[..0]) == Going(w)
  {
  }

  // ---- Any list of files ----

  ghost predicate NoneFailed(rs: seq<Chunk>) { forall i :: 0 <= i < |rs| ==> !rs[i].failed }

  /** The writer throws exactly when some result failed. */
  lemma {:induction false} GoingIffNoneFailed(g: Geometry, w: Store, rs: seq<Chunk>)
    ensures Fold(Processor(g), w, rs).Going? <==> NoneFailed(rs)
  {
    hide Segments, SegmentsEnd, Appended, Geometry.Skip;
    if rs != [] {
      GoingIffNoneFailed(g, w, rs[..|rs| - 1]);
    }
  }

  /** One file, whatever its size and whether or not it can be read or sealed. */
  lemma {:induction false} StoreFile(c: Crypto, g: Geometry, nonces: nat -> seq<byte>, w: Store, f: InputFile,
          index: nat, base: nat)
    requires g.Separated() && c.Ideal() && !w.started
    ensures var rs := ResultsFrom(c, nonces, FileItems(c, f, index), base);
      var o := Fold(Processor(g), w, rs);
      && (o.Going? ==> f.readable && FileDone(c, g, w, f, o.w))
      && (o.Thrown? ==> Abandoned(g, w, f, o.w))
  {
    hide FileItems, Fold, Processor, Sealed, Split, SealedAs, Partial, FileDone, Abandoned, Crypto.Ideal;
    hide Geometry.Separated;
    var rs := ResultsFrom(c, nonces, FileItems(c, f, index), base);
    if f.readable && f.content != [] {
      FileResults(c, nonces, f, index, base);
      FoldFile(c, g, w, f, rs, |rs|);
      assert rs[..|rs|] == rs;
      if Fold(Processor(g), w, rs).Going? {
        PartialWhole(c, g, w, f, Fold(Processor(g), w, rs).w);
      }
    } else {
      OneResult(c, nonces, f, index, base);
      FoldNone(g, w, rs[0]);
      EmptyFileDone(c, g, w, f);
    }
  }

  lemma {:induction false} OneResult(c: Crypto, nonces: nat -> seq<byte>, f: InputFile, index: nat, base: nat)
    requires !f.readable || f.content == []
    ensures var rs := ResultsFrom(c, nonces, FileItems(c, f, index), base);
      && |rs| == 1 && rs == [rs[0]]
      && (!f.readable ==> rs[0].failed)
      && (f.readable ==> rs[0] == Chunk([], true, f.path, c.digest([]), 0, false))
  {
  }

  lemma {:induction false} PartialWhole(c: Crypto, g: Geometry, w: Store, f: InputFile, v: Store)
    requires f.content != [] && Partial(c, g, w, f, |Split(f.content)|, v)
    ensures FileDone(c, g, w, f, v)
  {
    hide Stored, Kept, End, Appended, Midway;
    assert |Split(f.content)| > 0;
    hide Split;
  }

  lemma {:induction false} FoldNone(g: Geometry, w: Store, r: Chunk)
    ensures Fold(Processor(g), w, [r]) == Process(g, w, r)
  {
    assert [r][..0] == [];
  }

  /** An empty file takes no space; a file that cannot be opened takes neither space nor entry. */
  lemma {:induction false} EmptyFileDone(c: Crypto, g: Geometry, w: Store, f: InputFile)
    requires g.Separated() && !w.started
    ensures Abandoned(g, w, f, w)
    ensures f.content == [] ==> var o := Process(g, w, Chunk([], true, f.path, c.digest([]), 0, false));
      o.Going? && FileDone(c, g, w, f, o.w)
  {
    hide Put, End, Segments, SegmentsEnd, Appended;
    SkipIsLeast(g, w.offset);
    NoSegments(g, w.disk, g.Skip(w.offset));
    Nothing(g, w.disk, g.Skip(w.offset));
    EndCounts(g, g.Skip(w.offset), EncryptedSize(|f.content|));
  }

  lemma {:induction false} FileResults(c: Crypto, nonces: nat -> seq<byte>, f: InputFile, index: nat, base: nat)
    requires c.Ideal() && f.readable && f.content != []
    ensures var rs := ResultsFrom(c, nonces, FileItems(c, f, index), base);
      |rs| == |Split(f.content)| > 0 && forall j :: 0 <= j < |rs| ==> SealedAs(c, f, j, rs[j])
  {
    hide SealedAs, Sealed;
    var rs := ResultsFrom(c, nonces, FileItems(c, f, index), base);
    forall j | 0 <= j < |rs| ensures SealedAs(c, f, j, rs[j]) {
      SealedIsSealed(c, nonces(base + j), f, j);
    }
  }

  lemma {:induction false} ResultsConcat(c: Crypto, nonces: nat -> seq<byte>, a: seq<Item<Chunk, Chunk>>,
          b: seq<Item<Chunk, Chunk>>, base: nat)
    ensures ResultsFrom(c, nonces, a + b, base)
      == ResultsFrom(c, nonces, a, base) + ResultsFrom(c, nonces, b, base + |a|)
  {
  }

  /** Every block of every file can be sealed. A file takes one number for each of its blocks, an empty one
      takes one as well. */
  ghost predicate AllSeal(c: Crypto, nonces: nat -> seq<byte>, files: seq<InputFile>, base: nat)
    decreases |files|
  {
    files == [] || (
      var blocks := Split(files[0].content);
      && (forall j :: 0 <= j < |blocks| ==> c.seal(nonces(base + j), blocks[j]).Some?)
      && AllSeal(c, nonces, files[1..], base + Max(1, |blocks|)))
  }

  predicate AllOpenable(files: seq<InputFile>) { forall i :: 0 <= i < |files| ==> files[i].readable }

  lemma {:induction false} NoneFailedConcat(a: seq<Chunk>, b: seq<Chunk>)
    ensures NoneFailed(a + b) <==> NoneFailed(a) && NoneFailed(b)
  {
    assert forall i :: 0 <= i < |a| ==> (a + b)[i] == a[i];
    assert forall i :: 0 <= i < |b| ==> (a + b)[|a| + i] == b[i];
  }

  lemma {:induction false} FileNoneFailedIff(c: Crypto, nonces: nat -> seq<byte>, f: InputFile, index: nat, base: nat)
    ensures var rs, blocks := ResultsFrom(c, nonces, FileItems(c, f, index), base), Split(f.content);
      && (f.readable ==> |rs| == Max(1, |blocks|))
      && (NoneFailed(rs) <==>
            f.readable && forall j :: 0 <= j < |blocks| ==> c.seal(nonces(base + j), blocks[j]).Some?)
  {
    var rs, blocks := ResultsFrom(c, nonces, FileItems(c, f, index), base), Split(f.content);
    assert f.content == [] <==> |blocks| == 0;
    hide Split;
    if f.readable && f.content != [] {
      assert forall j :: 0 <= j < |blocks| ==> (rs[j].failed <==> c.seal(nonces(base + j), blocks[j]).None?);
    } else {
      assert |rs| == 1 && (rs[0].failed <==> !f.readable);
    }
  }

  /** No result has failed exactly if every file can be opened and every block can be sealed. */
  lemma {:induction false} NoneFailedIff(c: Crypto, nonces: nat -> seq<byte>, files: seq<InputFile>, index: nat,
          base: nat)
    ensures NoneFailed(ResultsFrom(c, nonces, Plan(c, files, index), base))
      <==> AllOpenable(files) && AllSeal(c, nonces, files, base)
    decreases |files|
  {
    hide FileItems, ResultsFrom, Split, NoneFailed;
    if files == [] {
      assert NoneFailed(ResultsFrom(c, nonces, [], base)) by { NothingFailed(c, nonces, base); }
    } else {
      var f, items := files[0], FileItems(c, files[0], index);
      var tail := if f.readable then Plan(c, files[1..], index + 1) else [];
      ResultsConcat(c, nonces, items, tail, base);
      NoneFailedConcat(ResultsFrom(c, nonces, items, base), ResultsFrom(c, nonces, tail, base + |items|));
      FileNoneFailedIff(c, nonces, f, index, base);
      NoneFailedIff(c, nonces, files[1..], index + 1, base + |items|);
      assert forall i :: 0 < i < |files| ==> files[i] == files[1..][i - 1];
    }
  }

  lemma {:induction false} NothingFailed(c: Crypto, nonces: nat -> seq<byte>, base: nat)
    ensures NoneFailed(ResultsFrom(c, nonces, [], base))
  {
  }

  /** The table and the end of data after a one-thread loop over the files. */
  function EntriesAfter(c: Crypto, g: Geometry, entries: seq<FileEntry>, off: nat,
          files: seq<InputFile>): seq<FileEntry>
    decreases |files|
  {
    if files == [] then entries
    else
      var f := files[0];
      EntriesAfter(c, g, Appended(entries, f.path, c.digest(f.content), g.Skip(off), |f.content|),
                   EndOfFile(g, off, f), files[1..])
  }

  function EndOfFile(g: Geometry, off: nat, f: InputFile): nat { End(g, g.Skip(off), EncryptedSize(|f.content|)) }

  function OffsetAfter(g: Geometry, off: nat, files: seq<InputFile>): nat
    decreases |files|
  {
    if files == [] then off else OffsetAfter(g, EndOfFile(g, off, files[0]), files[1..])
  }

  lemma {:induction false} OffsetGrows(g: Geometry, off: nat, files: seq<InputFile>)
    requires g.Separated()
    ensures off <= OffsetAfter(g, off, files)
    decreases |files|
  {
    if files != [] {
      SkipIsLeast(g, off);
      EndCounts(g, g.Skip(off), EncryptedSize(|files[0].content|));
      OffsetGrows(g, EndOfFile(g, off, files[0]), files[1..]);
    }
  }

  function ContentsOf(files: seq<InputFile>): seq<seq<byte>> {
    seq(|files|, i requires 0 <= i < |files| => files[i].content)
  }

  /** Everything listed is readable, in order, and below the end of data. */
  ghost predicate Library(c: Crypto, g: Geometry, disk: seq<byte>, entries: seq<FileEntry>, contents: seq<seq<byte>>,
          next: nat)
  {
    AllIntact(c, g, disk, entries, contents) && Ordered(g, entries, next)
  }

  lemma {:induction false} IntactGrows(c: Crypto, g: Geometry, w: Store, f: InputFile, v: Store,
          contents: seq<seq<byte>>)
    requires g.Separated() && Library(c, g, w.disk, w.entries, contents, w.offset) && FileDone(c, g, w, f, v)
    ensures AllIntact(c, g, v.disk, v.entries, contents + [f.content])
  {
    hide Stored, Split, End, Kept, Appended, ChunkCount, EncryptedSize, Names.FileName;
    assert Intact(c, g, v.disk, v.entries[|w.entries|], f.content) by { SkipIsLeast(g, w.offset); }
    AllIntactKept(c, g, w.disk, v.disk, w.entries, contents, w.offset, v.offset);
    hide Intact;
    assert forall i :: 0 <= i < |w.entries| ==> v.entries[i] == w.entries[i];
  }

  lemma {:induction false} OrderGrows(c: Crypto, g: Geometry, w: Store, f: InputFile, v: Store)
    requires g.Separated() && Ordered(g, w.entries, w.offset) && FileDone(c, g, w, f, v)
    ensures Ordered(g, v.entries, v.offset) && w.offset <= v.offset
  {
    hide Stored, Split, End, Kept, Appended, Names.FileName, DistinctNames, EncryptedSize;
    var start := g.Skip(w.offset);
    SkipIsLeast(g, w.offset);
    EndCounts(g, start, EncryptedSize(|f.content|));
    AppendKeepsDistinct(w.entries, f.path, c.digest(f.content), start, |f.content|);
    assert forall i :: 0 <= i < |w.entries| ==> v.entries[i] == w.entries[i];
    assert ExtentEnd(g, v.entries[|w.entries|]) == v.offset;
  }

  lemma {:induction false} LibraryAbandoned(c: Crypto, g: Geometry, w: Store, f: InputFile, v: Store,
          contents: seq<seq<byte>>)
    requires g.Separated() && Library(c, g, w.disk, w.entries, contents, w.offset) && Abandoned(g, w, f, v)
    ensures Library(c, g, v.disk, v.entries, contents, v.offset)
  {
    hide Intact, Kept;
    AllIntactKept(c, g, w.disk, v.disk, w.entries, contents, w.offset, v.offset);
  }

  lemma {:induction false} NoFiles(c: Crypto, g: Geometry, nonces: nat -> seq<byte>, w: Store, index: nat, base: nat)
    ensures Fold(Processor(g), w, ResultsFrom(c, nonces, Plan(c, [], index), base)) == Going(w)
    ensures Kept(g, w.disk, w.disk, w.offset, w.offset)
  {
  }

  lemma {:induction false} AbandonedFacts(g: Geometry, w: Store, f: InputFile, v: Store)
    requires Abandoned(g, w, f, v)
    ensures v.entries == w.entries && v.fileCount == w.fileCount && w.offset <= v.offset <= EndOfFile(g, w.offset, f)
    ensures Kept(g, w.disk, v.disk, w.offset, v.offset)
  {
  }

  lemma {:induction false} DoneFacts(c: Crypto, g: Geometry, w: Store, f: InputFile, v: Store, files: seq<InputFile>)
    requires FileDone(c, g, w, f, v) && files != [] && files[0] == f
    ensures !v.started && v.fileCount == w.fileCount + 1 && Kept(g, w.disk, v.disk, w.offset, v.offset)
    ensures EntriesAfter(c, g, w.entries, w.offset, files) == EntriesAfter(c, g, v.entries, v.offset, files[1..])
    ensures OffsetAfter(g, w.offset, files) == OffsetAfter(g, v.offset, files[1..])
  {
    hide Kept, Stored, End, Split;
  }

  lemma {:induction false} DoneBehind(c: Crypto, g: Geometry, w: Store, f: InputFile, v: Store)
    requires g.Separated() && FileDone(c, g, w, f, v)
    ensures w.offset <= v.offset
  {
    hide Kept, Stored, End, Split, Geometry.Separated;
    SkipIsLeast(g, w.offset);
    EndCounts(g, g.Skip(w.offset), EncryptedSize(|f.content|));
  }

  /** After storing exactly the first `k` of `files`: the table lists them after the old entries,
      everything listed is intact, and no slot byte and no byte below the old end has changed. */
  ghost predicate StoredFirst(c: Crypto, g: Geometry, w: Store, files: seq<InputFile>, contents: seq<seq<byte>>, k: nat,
          v: Store)
    requires k <= |files|
  {
    && v.entries == EntriesAfter(c, g, w.entries, w.offset, files[..k]) && v.fileCount == w.fileCount + k
    && Library(c, g, v.disk, v.entries, contents + ContentsOf(files[..k]), v.offset)
    && w.offset <= v.offset <= OffsetAfter(g, w.offset, files) && Kept(g, w.disk, v.disk, w.offset, v.offset)
  }

  lemma {:induction false} NoneStored(c: Crypto, g: Geometry, w: Store, files: seq<InputFile>, contents: seq<seq<byte>>,
          v: Store)
    requires g.Separated() && Library(c, g, w.disk, w.entries, contents, w.offset)
    requires v == w || (files != [] && Abandoned(g, w, files[0], v))
    ensures StoredFirst(c, g, w, files, contents, 0, v)
  {
    assert files[..0] == [] && contents + ContentsOf([]) == contents;
    if v == w {
      KeptSelf(g, w.disk, w.offset);
      OffsetGrows(g, w.offset, files);
    } else {
      OffsetGrows(g, EndOfFile(g, w.offset, files[0]), files[1..]);
      LibraryAbandoned(c, g, w, files[0], v, contents);
      AbandonedFacts(g, w, files[0], v);
    }
    hide Library, Kept;
  }

  lemma {:induction false} OneMoreStored(c: Crypto, g: Geometry, w: Store, u: Store, files: seq<InputFile>,
          contents: seq<seq<byte>>, k: nat, v: Store)
    requires g.Separated() && 0 < k <= |files| && w.offset <= u.offset && FileDone(c, g, w, files[0], u)
    requires StoredFirst(c, g, u, files[1..], contents + [files[0].content], k - 1, v)
    ensures StoredFirst(c, g, w, files, contents, k, v)
  {
    hide Library, Kept, FileDone, EntriesAfter;
    var rest := files[1..];
    assert files[..k][1..] == rest[..k - 1];
    assert contents + [files[0].content] + ContentsOf(rest[..k - 1]) == contents + ContentsOf(files[..k]);
    DoneFacts(c, g, w, files[0], u, files[..k]);
    DoneFacts(c, g, w, files[0], u, files);
    KeptTransitive(g, w.disk, u.disk, v.disk, w.offset, u.offset, v.offset);
  }

  /** The sequential writer over any files: it stores a prefix of them, and all of them exactly
      when it does not throw. */
  lemma {:induction false} StorePlan(c: Crypto, g: Geometry, nonces: nat -> seq<byte>, w: Store, files: seq<InputFile>,
          index: nat, base: nat, contents: seq<seq<byte>>)
    returns (k: nat)
    requires g.Separated() && c.Ideal() && !w.started && Library(c, g, w.disk, w.entries, contents, w.offset)
    ensures var o := Fold(Processor(g), w, ResultsFrom(c, nonces, Plan(c, files, index), base));
      && k <= |files| && (o.Going? <==> k == |files|)
      && StoredFirst(c, g, w, files, contents, k, o.w)
      && (o.Going? ==> !o.w.started && o.w.offset == OffsetAfter(g, w.offset, files))
    decreases |files|
  {
    hide Library, StoredFirst, FileItems, ResultsFrom, Abandoned, FileDone, EndOfFile, Fold, Processor;
    hide Geometry.Separated, Crypto.Ideal, EntriesAfter;
    if files == [] {
      k := 0;
      NoFiles(c, g, nonces, w, index, base);
      NoneStored(c, g, w, files, contents, w);
      return;
    }
    var f, rest := files[0], files[1..];
    var items := FileItems(c, f, index);
    var tail := if f.readable then Plan(c, rest, index + 1) else [];
    var o := Fold(Processor(g), w, ResultsFrom(c, nonces, items, base));
    StoreFile(c, g, nonces, w, f, index, base);
    ResultsConcat(c, nonces, items, tail, base);
    FoldConcat(Processor(g), w, ResultsFrom(c, nonces, items, base), ResultsFrom(c, nonces, tail, base + |items|));
    if o.Thrown? {
      k := 0;
      NoneStored(c, g, w, files, contents, o.w);
    } else {
      LibraryGrows(c, g, w, f, o.w, contents);
      DoneFacts(c, g, w, f, o.w, files);
      k := StorePlan(c, g, nonces, o.w, rest, index + 1, base + |items|, contents + [f.content]);
      k := k + 1;
      var last := Fold(Processor(g), o.w, ResultsFrom(c, nonces, tail, base + |items|)).w;
      OneMoreStored(c, g, w, o.w, files, contents, k, last);
    }
  }

  lemma {:induction false} LibraryGrows(c: Crypto, g: Geometry, w: Store, f: InputFile, v: Store,
          contents: seq<seq<byte>>)
    requires g.Separated() && Library(c, g, w.disk, w.entries, contents, w.offset) && FileDone(c, g, w, f, v)
    ensures Library(c, g, v.disk, v.entries, contents + [f.content], v.offset) && w.offset <= v.offset
  {
    hide AllIntact, Ordered, FileDone;
    IntactGrows(c, g, w, f, v, contents);
    OrderGrows(c, g, w, f, v);
  }

  // ---- Where each entry lies ----

  /** Entry i of the new ones starts where the first i files end, moved past a slot; the old
      entries are unchanged. */
  lemma {:induction false} EntryPlace(c: Crypto, g: Geometry, entries: seq<FileEntry>, off: nat, files: seq<InputFile>)
    ensures var r := EntriesAfter(c, g, entries, off, files);
      && |r| == |entries| + |files| && r[..|entries|] == entries
      && forall i :: 0 <= i < |files| ==>
           && r[|entries| + i].offset == g.Skip(OffsetAfter(g, off, files[..i]))
           && r[|entries| + i].size == |files[i].content| && r[|entries| + i].checksum == c.digest(files[i].content)
    decreases |files|
  {
    hide Appended, EndOfFile;
    if files != [] {
      var f := files[0];
      var e1 := Appended(entries, f.path, c.digest(f.content), g.Skip(off), |f.content|);
      EntryPlace(c, g, e1, EndOfFile(g, off, f), files[1..]);
      var r := EntriesAfter(c, g, entries, off, files);
      assert r[..|entries|] == r[..|e1|][..|entries|];
      forall i | 0 <= i < |files|
        ensures r[|entries| + i].offset == g.Skip(OffsetAfter(g, off, files[..i]))
        ensures r[|entries| + i].size == |files[i].content| && r[|entries| + i].checksum == c.digest(files[i].content)
      {
        if i == 0 {
          assert r[|entries|] == r[..|e1|][|entries|];
        } else {
          assert files[..i][1..] == files[1..][..i - 1];
        }
      }
    }
  }
}
