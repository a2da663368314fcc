/** The space checks of src/FileManager.cpp, against the bytes files really take. */
module Capacity {
  import opened Bytes
  import opened Layout
  import opened Fragments
  import opened Chunks
  import opened Encrypt
  import opened Storing

  function Overlap(slot: nat, reserved: nat, a: nat, b: nat): nat {
    var lo, hi := Max(slot, a), Min(slot + reserved, b);
    if lo < hi then hi - lo else 0
  }

  function ReservedIn(g: Geometry, i: nat, a: nat, b: nat): nat
    requires i <= |g.slots|
    decreases |g.slots| - i
  {
    if i == |g.slots| then 0 else Overlap(g.slots[i], g.reserved, a, b) + ReservedIn(g, i + 1, a, b)
  }

  predicate InSlotFrom(g: Geometry, i: nat, p: nat) {
    exists j :: i <= j < |g.slots| && g.slots[j] <= p < g.slots[j] + g.reserved
  }

  lemma {:induction false} ReservedStep(g: Geometry, i: nat, a: nat, b: nat)
    requires g.Disjoint() && i <= |g.slots| && a < b
    ensures ReservedIn(g, i, a, b) == ReservedIn(g, i, a + 1, b) + (if InSlotFrom(g, i, a) then 1 else 0)
    decreases |g.slots| - i
  {
    if i < |g.slots| {
      ReservedStep(g, i + 1, a, b);
      if g.slots[i] <= a < g.slots[i] + g.reserved {
        assert !InSlotFrom(g, i + 1, a);
        assert InSlotFrom(g, i, a);
      } else {
        assert InSlotFrom(g, i, a) <==> InSlotFrom(g, i + 1, a);
      }
    }
  }

  lemma {:induction false} ReservedNone(g: Geometry, i: nat, a: nat)
    requires i <= |g.slots|
    ensures ReservedIn(g, i, a, a) == 0
    decreases |g.slots| - i
  {
    if i < |g.slots| {
      ReservedNone(g, i + 1, a);
    }
  }

  /** When slots do not overlap, their shares of [a, b) and the data bytes add up to its length. */
  lemma {:induction false} DataAndReserved(g: Geometry, a: nat, b: nat)
    requires g.Disjoint() && a <= b
    ensures DataBytes(g, a, b) + ReservedIn(g, 0, a, b) == b - a
    decreases b - a
  {
    if a < b {
      DataAndReserved(g, a + 1, b);
      ReservedStep(g, 0, a, b);
      assert g.InSlot(a) <==> InSlotFrom(g, 0, a);
    } else {
      ReservedNone(g, 0, a);
    }
  }

  /** The free space from `dataEnd` on, as 64-bit arithmetic yields it. */
  function FreeBytes(g: Geometry, dataEnd: nat, containerSize: nat): nat {
    (containerSize - dataEnd - ReservedIn(g, 0, dataEnd, containerSize)) % TWO_TO_THE_64
  }

  /** When slots do not overlap the subtractions stay above zero and the result is the number of
      data bytes. */
  lemma {:induction false} FreeBytesExact(g: Geometry, dataEnd: nat, containerSize: nat)
    requires g.Disjoint() && dataEnd <= containerSize < TWO_TO_THE_64
    ensures FreeBytes(g, dataEnd, containerSize) == DataBytes(g, dataEnd, containerSize)
  {
    DataAndReserved(g, dataEnd, containerSize);
  }

  /** add: the free space, or None when the container is already full. */
  method FreeCapacity(g: Geometry, dataEnd: nat, containerSize: nat) returns (free: Option<nat>)
    ensures free == if dataEnd >= containerSize then None else Some(FreeBytes(g, dataEnd, containerSize))
    ensures g.Disjoint() && dataEnd < containerSize < TWO_TO_THE_64 ==>
      free == Some(DataBytes(g, dataEnd, containerSize))
  {
    if dataEnd >= containerSize { return None; }
    if g.Disjoint() && containerSize < TWO_TO_THE_64 { FreeBytesExact(g, dataEnd, containerSize); }
    var totalReserved := 0;
    for i := 0 to |g.slots|
      invariant totalReserved + ReservedIn(g, i, dataEnd, containerSize) == ReservedIn(g, 0, dataEnd, containerSize)
    {
      var begin := Max(g.slots[i], dataEnd);
      var end := Min(g.slots[i] + g.reserved, containerSize);
      if begin < end {
        totalReserved := totalReserved + (end - begin);
      }
    }
    return Some((containerSize - dataEnd - totalReserved) % TWO_TO_THE_64);
  }

  function Available(containerSize: nat, reserved: nat): nat {
    if containerSize <= 4 * reserved then 0 else containerSize - 4 * reserved
  }

  lemma {:induction false} ReservedAll(g: Geometry, i: nat, size: nat)
    requires g.Inside(size) && i <= |g.slots|
    ensures ReservedIn(g, i, 0, size) == (|g.slots| - i) * g.reserved
    decreases |g.slots| - i
  {
    if i < |g.slots| {
      ReservedAll(g, i + 1, size);
      assert (|g.slots| - i) * g.reserved == g.reserved + (|g.slots| - i - 1) * g.reserved;
    }
  }

  /** write: the space it reports is the number of data bytes, from the start of the file or from
      the end of the first slot, where its data begins. */
  lemma {:induction false} AvailableExact(size: nat, reserved: nat)
    requires HEADER_SIZE <= reserved && size <= MAX_CONTAINER_SIZE
    requires size >= 4 * HEADER_SIZE * (reserved / HEADER_SIZE + 1)
    ensures var g := ContainerGeometry(size, reserved);
      Available(size, reserved) == DataBytes(g, 0, size) == DataBytes(g, reserved, size)
  {
    var g := ContainerGeometry(size, reserved);
    SlotGaps(size, reserved);
    CreationImplied(size, reserved);
    CreationCheckGives(size, reserved);
    DataAndReserved(g, 0, size);
    ReservedAll(g, 0, size);
    forall q: nat | q < reserved ensures g.InSlot(q) { assert g.slots[0] <= q < g.slots[0] + g.reserved; }
    CountInSlots(g, 0, reserved, size);
  }

  lemma {:induction false} CreationImplied(size: nat, reserved: nat)
    requires HEADER_SIZE <= reserved && size >= 4 * HEADER_SIZE * (reserved / HEADER_SIZE + 1)
    ensures 4 * reserved <= size
  {
  }

  /** The sum of the predicted sizes. */
  function Required(files: seq<InputFile>): nat {
    if files == [] then 0 else EncryptedSize(|files[0].content|) + Required(files[1..])
  }

  predicate AllPresent(files: seq<InputFile>) { forall i :: 0 <= i < |files| ==> files[i].present }

  /** None is the exception for a file whose size cannot be queried. */
  method ComputeRequired(files: seq<InputFile>) returns (r: Option<nat>)
    ensures r == if AllPresent(files) then Some(Required(files)) else None
  {
    var required := 0;
    assert files[0..] == files;
    for i := 0 to |files|
      invariant AllPresent(files[..i]) && required + Required(files[i..]) == Required(files)
    {
      assert files[i..][1..] == files[i + 1..];
      if !files[i].present { return None; }
      required := required + EncryptedSize(|files[i].content|);
    }
    assert files[..|files|] == files;
    return Some(required);
  }

  lemma {:induction false} FileFits(g: Geometry, off: nat, f: InputFile, limit: nat)
    requires g.Separated() && g.Inside(limit) && off <= limit
    ensures var n := EncryptedSize(|f.content|);
      && off <= EndOfFile(g, off, f)
      && (EndOfFile(g, off, f) <= limit <==> n <= DataBytes(g, off, limit))
      && (EndOfFile(g, off, f) <= limit ==> DataBytes(g, off, limit) == n + DataBytes(g, EndOfFile(g, off, f), limit))
  {
    var n, start := EncryptedSize(|f.content|), g.Skip(off);
    SkipIsLeast(g, off);
    SkipStaysInside(g, off, limit);
    CountInSlots(g, off, start, limit);
    EndCounts(g, start, n);
    FitsIffCount(g, start, n, limit);
    if EndOfFile(g, off, f) <= limit {
      CountSplit(g, start, EndOfFile(g, off, f), limit);
    }
  }

  /** Storing the files one after the other ends inside the container exactly when the required
      size does not exceed the data bytes left, and then it uses exactly the required bytes. */
  lemma {:induction false} FitsIffRequired(g: Geometry, off: nat, files: seq<InputFile>, limit: nat)
    requires g.Separated() && g.Inside(limit) && off <= limit
    ensures OffsetAfter(g, off, files) <= limit <==> Required(files) <= DataBytes(g, off, limit)
    ensures OffsetAfter(g, off, files) <= limit ==>
      DataBytes(g, off, limit) == Required(files) + DataBytes(g, OffsetAfter(g, off, files), limit)
    decreases |files|
  {
    if files != [] {
      hide EndOfFile, DataBytes;
      FileFits(g, off, files[0], limit);
      if EndOfFile(g, off, files[0]) <= limit {
        FitsIffRequired(g, EndOfFile(g, off, files[0]), files[1..], limit);
      } else {
        OffsetGrows(g, EndOfFile(g, off, files[0]), files[1..]);
      }
    }
  }
}
