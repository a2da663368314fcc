/** The browser's reader (browser/src/download.js): it loads large blocks of the container file and
    serves fragmented reads from them. */
module BufferedReader {
  import opened Bytes
  import opened Layout
  import opened Fragments
  import opened Chunks
  import opened Sealing
  import opened Tables
  import opened Storing
  import opened Delivery
  import Decrypt

  const READ_AHEAD_SIZE: nat := 8 * 1024 * 1024

  class Reader {
    const file: seq<byte>
    const g: Geometry
    var bufData: Option<seq<byte>>
    var bufStart: int
    var bufEnd: int

    /** The cache, if there is one, is a piece of the file. */
    ghost predicate Valid()
      reads this
    {
      bufData.Some? ==> 0 <= bufStart <= bufEnd <= |file| && bufData.value == file[bufStart..bufEnd]
    }

    constructor (file: seq<byte>, g: Geometry)
      ensures this.file == file && this.g == g && Valid()
    {
      this.file, this.g := file, g;
      bufData, bufStart, bufEnd := None, -1, -1;
    }

    predicate Covers(filePos: nat, needed: nat)
      reads this
    {
      bufData.Some? && bufStart <= filePos && filePos + needed <= bufEnd
    }

    /** Throws exactly when some needed byte lies past the end of the file, whatever is cached. */
    method EnsureLoaded(filePos: nat, needed: nat) returns (threw: bool)
      requires Valid()
      modifies this
      ensures Valid()
      ensures !threw ==> Covers(filePos, needed)
      ensures needed > 0 ==> (threw <==> filePos + needed > |file|)
    {
      if bufData.Some? && filePos >= bufStart && filePos + needed <= bufEnd { return false; }
      if filePos >= |file| { return true; }
      var available := |file| - filePos;
      if needed > available { return true; }
      var readSize := Min(Max(needed, READ_AHEAD_SIZE), available);
      bufData := Some(file[filePos..filePos + readSize]);
      bufStart := filePos;
      bufEnd := filePos + readSize;
      return false;
    }

    method GetBytes(filePos: nat, size: nat) returns (data: seq<byte>)
      requires Valid() && Covers(filePos, size)
      ensures filePos + size <= |file| && data == file[filePos..filePos + size]
    {
      var offset := filePos - bufStart;
      data := bufData.value[offset..offset + size];
      assert forall k :: 0 <= k < size ==> data[k] == file[filePos + k];
    }

    /** The cached read is the plain fragmented read, whatever was read before; None is the error. */
    method ReadFragmentedBuffered(startPos: nat, size: nat) returns (r: Option<seq<byte>>, endPos: nat)
      requires Valid()
      modifies this
      ensures Valid()
      ensures r == Collected(g, file, startPos, size) && (r.Some? ==> endPos == SegmentsEnd(g, startPos, size))
      ensures g.Separated() ==> r == Get(g, file, startPos, size) && (r.Some? ==> endPos == End(g, startPos, size))
    {
      hide Get, End, Collected, SegmentsEnd, Prepend, Geometry.Separated, Geometry.Skip, Geometry.Until;
      if g.Separated() {
        CollectedIsGet(g, file, startPos, size);
        SegmentsEndIsEnd(g, startPos, size);
      }
      var result := new byte[size](_ => 0);
      var totalRead := 0;
      endPos := startPos;
      PrependNothing(Collected(g, file, startPos, size));
      while totalRead < size
        invariant Valid() && totalRead <= size && result.Length == size
        invariant Collected(g, file, startPos, size)
          == Prepend(result[..totalRead], Collected(g, file, endPos, size - totalRead))
        invariant SegmentsEnd(g, startPos, size) == SegmentsEnd(g, endPos, size - totalRead)
        decreases size - totalRead
      {
        CollectedRound(g, file, endPos, size - totalRead);
        var pos := SkipSlots(g, endPos);
        var canRead := BytesUntilNextSlot(g, pos, size - totalRead);
        var threw := EnsureLoaded(pos, canRead);
        if threw {
          PrependNone(result[..totalRead]);
          return None, endPos;
        }
        var piece := GetBytes(pos, canRead);
        ghost var front := result[..totalRead];
        forall k | 0 <= k < canRead { result[totalRead + k] := piece[k]; }
        assert result[..totalRead + canRead] == front + piece;
        PrependTwice(front, piece, Collected(g, file, pos + canRead, size - totalRead - canRead));
        totalRead := totalRead + canRead;
        endPos := pos + canRead;
      }
      NoSegments(g, file, endPos);
      PrependAll(result[..totalRead]);
      assert result[..totalRead] == result[..];
      r := Some(result[..]);
    }
  }

  // ---- The chunk loop ----

  /** Every block lies in the file and authenticates, and what they open to has the recorded checksum. */
  ghost predicate Verified(c: Crypto, g: Geometry, file: seq<byte>, e: FileEntry) {
    (forall i :: 0 <= i < e.chunks ==> BlockText(c, g, file, e, i).Some?) && c.digest(Text(c, g, file, e)) == e.checksum
  }

  lemma {:induction false} IntactVerified(c: Crypto, g: Geometry, file: seq<byte>, e: FileEntry, content: seq<byte>)
    requires Intact(c, g, file, e, content)
    ensures Verified(c, g, file, e) && Text(c, g, file, e) == content
  {
    hide SealedBlock, Stored, Split, Text;
    IntactText(c, g, file, e, content);
    forall i | 0 <= i < e.chunks ensures BlockText(c, g, file, e, i).Some? {
      assert BlockOpens(c, g, file, e, i);
    }
  }

  lemma {:induction false} NextRead(c: Crypto, g: Geometry, file: seq<byte>, e: FileEntry, i: nat,
          data: Option<seq<byte>>)
    requires data == Collected(g, file, BlockStart(g, e, i), PlannedSize(e, i) + OVERHEAD)
    ensures BlockText(c, g, file, e, i) == match data case None => None case Some(d) => c.unseal(d)
    ensures BlockStart(g, e, i + 1) == SegmentsEnd(g, BlockStart(g, e, i), PlannedSize(e, i) + OVERHEAD)
    ensures Left(e, i) - PlannedSize(e, i) == Left(e, i + 1)
    ensures Joined(c, g, file, e, i + 1) == Joined(c, g, file, e, i) + Decrypt.DataOf(BlockText(c, g, file, e, i))
  {
    hide Collected, SegmentsEnd;
  }

  /** decryptFileToMemory: None is any of its errors. It returns exactly what the blocks open to, joined, if that
      verifies; the planned lengths are not compared. An intact entry returns the stored content. */
  method DecryptFileToMemory(c: Crypto, file: seq<byte>, g: Geometry, e: FileEntry) returns (r: Option<seq<byte>>)
    ensures r == if Verified(c, g, file, e) then Some(Text(c, g, file, e)) else None
    ensures forall content :: Intact(c, g, file, e, content) ==> r == Some(content)
  {
    hide Collected, SegmentsEnd, Intact, BlockText, BlockStart, Left, Joined, Geometry.Separated;
    forall content | Intact(c, g, file, e, content)
      ensures Verified(c, g, file, e) && Text(c, g, file, e) == content
    {
      IntactVerified(c, g, file, e, content);
    }
    var reader := new Reader(file, g);
    var assembled: seq<byte> := [];
    var pos: nat, remaining: nat := e.offset, e.size;
    FirstRead(c, g, file, e);
    for i := 0 to e.chunks
      invariant reader.Valid() && reader.file == file && reader.g == g
      invariant pos == BlockStart(g, e, i) && remaining == Left(e, i) && assembled == Joined(c, g, file, e, i)
      invariant forall j :: 0 <= j < i ==> BlockText(c, g, file, e, j).Some?
    {
      var plainSize: nat := if remaining < BLOCK_SIZE then remaining else BLOCK_SIZE;
      var encData, endPos := reader.ReadFragmentedBuffered(pos, plainSize + OVERHEAD);
      NextRead(c, g, file, e, i, encData);
      if encData.None? { return None; }
      pos := endPos;
      var plain := c.unseal(encData.value);
      if plain.None? { return None; }
      assembled := assembled + plain.value;
      remaining := remaining - plainSize;
    }
    if c.digest(assembled) != e.checksum { return None; }
    r := Some(assembled);
  }

  lemma {:induction false} FirstRead(c: Crypto, g: Geometry, file: seq<byte>, e: FileEntry)
    ensures BlockStart(g, e, 0) == e.offset && Left(e, 0) == e.size && Joined(c, g, file, e, 0) == []
  {
  }
}
