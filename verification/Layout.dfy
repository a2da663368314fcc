/** Where the four metadata slots lie, and how a position is moved past them
    (include/FileManager.h and src/FileManager.cpp). */
module Layout {

  const HEADER_SIZE: nat := 4096
  const SLOT_PERCENTAGES: seq<nat> := [0, 25, 50, 75]
  const MAX_CONTAINER_SIZE: nat := 0x200_0000_0000
  const TWO_TO_THE_64: nat := 0x1_0000_0000_0000_0000

  /** The C++ offset formula: the product wraps modulo 2^64. */
  function SlotOffset(size: nat, percent: nat): nat {
    if percent == 0 then 0
    else size * percent % TWO_TO_THE_64 / 100 / HEADER_SIZE * HEADER_SIZE
  }

  /** The browser's formula: exact BigInt arithmetic. */
  function BrowserSlotOffset(size: nat, percent: nat): nat {
    if percent == 0 then 0 else size * percent / 100 / HEADER_SIZE * HEADER_SIZE
  }

  function SlotOffsets(size: nat): seq<nat> {
    [SlotOffset(size, 0), SlotOffset(size, 25), SlotOffset(size, 50), SlotOffset(size, 75)]
  }

  method ComputeSlotOffsets(size: nat) returns (out: array<nat>)
    ensures fresh(out) && out[..] == SlotOffsets(size)
  {
    out := new nat[4](_ => 0);
    for i := 0 to 4
      invariant out.Length == 4
      invariant forall j :: 0 <= j < i ==> out[j] == SlotOffset(size, SLOT_PERCENTAGES[j])
    {
      out[i] := SlotOffset(size, SLOT_PERCENTAGES[i]);
    }
  }

  /** Reserved regions of equal length: region i is [slots[i], slots[i] + reserved). */
  datatype Geometry = Geometry(slots: seq<nat>, reserved: nat) {

    predicate InSlot(pos: nat) {
      exists i :: 0 <= i < |slots| && slots[i] <= pos < slots[i] + reserved
    }

    /** The end of the first listed slot that holds `pos`, or `pos` itself. */
    function Skip(pos: nat): nat {
      SkipFrom(0, pos)
    }

    function SkipFrom(i: nat, pos: nat): nat
      requires i <= |slots|
      decreases |slots| - i
    {
      if i == |slots| then pos
      else if slots[i] <= pos < slots[i] + reserved then slots[i] + reserved
      else SkipFrom(i + 1, pos)
    }

    /** How far `cur` may run before the first listed slot start beyond it. */
    function Until(cur: nat, remaining: nat): (n: nat)
      ensures n <= remaining && (remaining > 0 ==> n > 0)
    {
      UntilFrom(0, cur, remaining)
    }

    function UntilFrom(i: nat, cur: nat, remaining: nat): (n: nat)
      requires i <= |slots|
      ensures n <= remaining && (remaining > 0 ==> n > 0)
      decreases |slots| - i
    {
      if i == |slots| then remaining
      else if slots[i] > cur then (if remaining < slots[i] - cur then remaining else slots[i] - cur)
      else UntilFrom(i + 1, cur, remaining)
    }

    ghost predicate Increasing() {
      forall i, j :: 0 <= i < j < |slots| ==> slots[i] < slots[j]
    }

    /** Consecutive slots never overlap; they may touch. */
    ghost predicate Disjoint() {
      forall i, j :: 0 <= i < j < |slots| ==> slots[i] + reserved <= slots[j]
    }

    /** At least one data byte lies between any two slots. */
    ghost predicate Separated() {
      && reserved > 0
      && forall i, j :: 0 <= i < j < |slots| ==> slots[i] + reserved < slots[j]
    }

    /** What the comment on skipSlots promises: the result is never inside a slot. */
    ghost predicate SkipIsSound() {
      forall pos: nat :: !InSlot(Skip(pos))
    }

    ghost predicate Inside(size: nat) {
      forall i :: 0 <= i < |slots| ==> slots[i] + reserved <= size
    }
  }

  /** The geometry of a container file of `size` bytes whose slots reserve `reserved` bytes. */
  function ContainerGeometry(size: nat, reserved: nat): Geometry {
    Geometry(SlotOffsets(size), reserved)
  }

  method SkipSlots(g: Geometry, pos: nat) returns (r: nat)
    ensures r == g.Skip(pos)
  {
    for i := 0 to |g.slots|
      invariant g.Skip(pos) == g.SkipFrom(i, pos)
    {
      if g.slots[i] <= pos < g.slots[i] + g.reserved {
        return g.slots[i] + g.reserved;
      }
    }
    return pos;
  }

  /** For offsets in increasing order the cut is at the least slot start beyond `cur`. */
  lemma {:induction false} UntilIsLeast(g: Geometry, i: nat, cur: nat, remaining: nat)
    requires g.Increasing() && i <= |g.slots| && forall j :: 0 <= j < i ==> g.slots[j] <= cur
    ensures var n := g.UntilFrom(i, cur, remaining);
      && (forall j :: 0 <= j < |g.slots| && g.slots[j] > cur ==> cur + n <= g.slots[j])
      && (n < remaining ==> exists j :: 0 <= j < |g.slots| && g.slots[j] == cur + n)
    decreases |g.slots| - i
  {
    if i < |g.slots| && g.slots[i] <= cur {
      UntilIsLeast(g, i + 1, cur, remaining);
    }
  }

  method BytesUntilNextSlot(g: Geometry, cur: nat, remaining: nat) returns (n: nat)
    ensures n == g.Until(cur, remaining)
    ensures g.Increasing() ==> forall i :: 0 <= i < |g.slots| && g.slots[i] > cur ==> cur + n <= g.slots[i]
    ensures g.Increasing() && n < remaining ==> exists i :: 0 <= i < |g.slots| && g.slots[i] == cur + n
  {
    if g.Increasing() { UntilIsLeast(g, 0, cur, remaining); }
    for i := 0 to |g.slots|
      invariant g.Until(cur, remaining) == g.UntilFrom(i, cur, remaining)
    {
      if g.slots[i] > cur {
        return if remaining < g.slots[i] - cur then remaining else g.slots[i] - cur;
      }
    }
    return remaining;
  }

  lemma {:induction false} SkipFromCases(g: Geometry, i: nat, pos: nat) returns (hit: nat)
    requires i <= |g.slots|
    ensures i <= hit <= |g.slots|
    ensures forall j :: i <= j < hit ==> !(g.slots[j] <= pos < g.slots[j] + g.reserved)
    ensures hit == |g.slots| ==> g.SkipFrom(i, pos) == pos
    ensures hit < |g.slots| ==> g.slots[hit] <= pos < g.slots[hit] + g.reserved
    ensures hit < |g.slots| ==> g.SkipFrom(i, pos) == g.slots[hit] + g.reserved
    decreases |g.slots| - i
  {
    if i == |g.slots| || g.slots[i] <= pos < g.slots[i] + g.reserved {
      hit := i;
    } else {
      hit := SkipFromCases(g, i + 1, pos);
    }
  }

  /** With separated slots, Skip finds the least position at or after `pos` outside every slot. */
  lemma {:induction false} SkipIsLeast(g: Geometry, pos: nat)
    requires g.Separated()
    ensures pos <= g.Skip(pos)
    ensures !g.InSlot(g.Skip(pos))
    ensures forall q: nat :: pos <= q < g.Skip(pos) ==> g.InSlot(q)
    ensures g.InSlot(pos) <==> g.Skip(pos) != pos
  {
    var hit := SkipFromCases(g, 0, pos);
  }

  lemma {:induction false} SkipStaysInside(g: Geometry, pos: nat, size: nat)
    requires g.Inside(size) && pos <= size
    ensures g.Skip(pos) <= size
  {
    var hit := SkipFromCases(g, 0, pos);
  }

  /** Any layout in which the slot starts increase strictly: one pass is enough
      exactly when the slots are separated. */
  lemma {:induction false} SkipSoundIffSeparated(g: Geometry)
    requires g.reserved > 0
    requires g.Increasing()
    ensures g.SkipIsSound() <==> g.Separated()
  {
    if g.Separated() {
      forall pos: nat ensures !g.InSlot(g.Skip(pos)) { SkipIsLeast(g, pos); }
    } else {
      var i, j :| 0 <= i < j < |g.slots| && g.slots[i] + g.reserved >= g.slots[j];
      // The next slot starts before or at the end of slot i, so the end of slot i is inside it.
      assert g.slots[i + 1] <= g.slots[j];
      var pos := g.slots[i];
      var hit := SkipFromCases(g, 0, pos);
      assert hit <= i;
      assert g.slots[hit + 1] <= g.slots[i + 1] <= g.slots[hit] + g.reserved || hit < i;
      if hit < i {
        assert g.slots[hit + 1] <= pos;
      }
      assert g.InSlot(g.Skip(pos)) by {
        assert g.slots[hit + 1] <= g.slots[hit] + g.reserved < g.slots[hit + 1] + g.reserved;
      }
    }
  }

  lemma {:induction false} OffsetsExact(size: nat)
    requires size <= MAX_CONTAINER_SIZE
    ensures SlotOffsets(size) == [0, size / 4 / 4096 * 4096, size / 2 / 4096 * 4096, size * 3 / 4 / 4096 * 4096]
  {
    assert size * 25 % TWO_TO_THE_64 / 100 == size / 4;
    assert size * 50 % TWO_TO_THE_64 / 100 == size / 2;
    assert size * 75 % TWO_TO_THE_64 / 100 == size * 3 / 4;
  }

  /** The creation check (4 * reserved <= size <= 2^41) keeps the offsets aligned,
      strictly increasing and the last slot inside the file. */
  lemma {:induction false} CreationCheckGives(size: nat, reserved: nat)
    requires HEADER_SIZE <= reserved && 4 * reserved <= size <= MAX_CONTAINER_SIZE
    ensures var g := ContainerGeometry(size, reserved);
      && (forall i :: 0 <= i < 4 ==> g.slots[i] % HEADER_SIZE == 0)
      && (forall i, j :: 0 <= i < j < 4 ==> g.slots[i] < g.slots[j])
      && g.Inside(size)
  {
    OffsetsExact(size);
    FirstGapIsLeast(size);
    QuotientBound(size, 1);
    var o := SlotOffsets(size);
    hide SlotOffset;
    OffsetsIncrease(size / 16384, size / 2 / 4096, size * 3 / 4 / 4096);
    assert size - size / 16384 * 4096 >= size * 3 / 4;
    assert o[3] + reserved <= size;
  }

  lemma {:induction false} OffsetsIncrease(a: nat, b: nat, c: nat)
    requires a >= 1 && 2 * a <= b && a + b <= c
    ensures 0 < a * 4096 < b * 4096 < c * 4096
  {
  }

  /** The exact size from which skipSlots is correct on every position. It is larger than
      the size the creation check accepts by up to one header block per slot. */
  lemma {:induction false} SkipSoundIffSize(size: nat, reserved: nat)
    requires HEADER_SIZE <= reserved && 4 * reserved <= size <= MAX_CONTAINER_SIZE
    ensures ContainerGeometry(size, reserved).SkipIsSound()
      <==> size >= 4 * HEADER_SIZE * (reserved / HEADER_SIZE + 1)
  {
    var g := ContainerGeometry(size, reserved);
    CreationCheckGives(size, reserved);
    SkipSoundIffSeparated(g);
    OffsetsExact(size);
    SeparatedIffSize(size, reserved);
  }

  /** The first gap is the narrowest one. */
  lemma {:induction false} FirstGapIsLeast(size: nat)
    ensures size / 4 / 4096 == size / 16384
    ensures 2 * (size / 4 / 4096) <= size / 2 / 4096
    ensures size / 2 / 4096 + size / 4 / 4096 <= size * 3 / 4 / 4096
    ensures size * 3 / 4 / 4096 * 4096 <= size - size / 16384 * 4096
  {
  }

  lemma {:induction false} QuotientBound(size: nat, k: nat)
    ensures size / 16384 >= k <==> size >= 16384 * k
  {
  }

  lemma {:induction false} SeparatedIffSize(size: nat, reserved: nat)
    requires HEADER_SIZE <= reserved && size <= MAX_CONTAINER_SIZE
    ensures ContainerGeometry(size, reserved).Separated()
      <==> size >= 4 * HEADER_SIZE * (reserved / HEADER_SIZE + 1)
  {
    OffsetsExact(size);
    FirstGapIsLeast(size);
    var k := reserved / 4096 + 1;
    QuotientBound(size, k);
    var o := ContainerGeometry(size, reserved).slots;
    assert o[1] > reserved <==> size / 16384 >= k;
    if o[1] <= reserved {
      assert !(o[0] + reserved < o[1]);
    }
  }

  /** Under that size every slot ends at least one byte before the next one starts, and the
      last ends before the file does; with an aligned reservation the gap is a whole block. */
  lemma {:induction false} SlotGaps(size: nat, reserved: nat)
    requires HEADER_SIZE <= reserved && size <= MAX_CONTAINER_SIZE
    requires size >= 4 * HEADER_SIZE * (reserved / HEADER_SIZE + 1)
    ensures var g := ContainerGeometry(size, reserved);
      && g.Separated()
      && g.slots[3] + reserved < size
      && (reserved % HEADER_SIZE == 0 ==>
            && (forall i :: 0 <= i < 3 ==> g.slots[i] + reserved + HEADER_SIZE <= g.slots[i + 1])
            && g.slots[3] + reserved + HEADER_SIZE <= size)
  {
    SeparatedIffSize(size, reserved);
    OffsetsExact(size);
    FirstGapIsLeast(size);
    QuotientBound(size, reserved / 4096 + 1);
    var o := SlotOffsets(size);
    if reserved % 4096 == 0 {
      assert o[1] >= reserved + 4096;
    }
  }

  /** Default table size and a container of 286720 bytes: accepted on creation, yet slots 2
      and 3 touch, and skipping out of slot 2 lands on the header of slot 3. */
  lemma {:induction false} SkipUnsoundExample()
    ensures var g := ContainerGeometry(286720, 4096 + 65536);
      && 4 * g.reserved <= 286720
      && g.slots[2] + g.reserved == g.slots[3]
      && g.Skip(g.slots[2]) == g.slots[3] && g.InSlot(g.slots[3])
  {
    OffsetsExact(286720);
    var g := ContainerGeometry(286720, 69632);
    assert g.slots == [0, 69632, 143360, 212992];
    var hit := SkipFromCases(g, 0, 143360);
  }

  lemma {:induction false} ProductBound(x: nat, a: nat, y: nat, b: nat)
    requires x <= a && y <= b
    ensures 0 <= x * y <= a * b
  {
    assert x * y <= a * y <= a * b;
  }

  /** No product wraps for any container the program creates, so both implementations agree. */
  lemma {:induction false} BrowserAgrees(size: nat, percent: nat)
    requires size <= MAX_CONTAINER_SIZE && percent <= 100
    ensures SlotOffset(size, percent) == BrowserSlotOffset(size, percent)
  {
    ProductBound(size, MAX_CONTAINER_SIZE, percent, 100);
  }
}
