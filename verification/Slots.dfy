/** The four metadata slots on disk: writeHeaderAt, writeFileTableAt, writeAllSlots and the slot
    loop of writeFileTableToAllSlots in src/FileManager.cpp. */
module Slots {
  import opened Bytes
  import opened Layout
  import opened Fragments

  /** One slot: the header, the encrypted table, zeros to the end of the reserved area. */
  function SlotBytes(header: seq<byte>, enc: seq<byte>, maxTable: nat): (r: seq<byte>)
    ensures |r| == |header| + Max(|enc|, maxTable)
  {
    header + (enc + Padding(enc, maxTable))
  }

  function Padding(enc: seq<byte>, maxTable: nat): seq<byte> { Zeros(if |enc| < maxTable then maxTable - |enc| else 0) }

  /** The file after `bytes` have been written to the first `n` slots. */
  function Replicated(disk: seq<byte>, slots: seq<nat>, n: nat, bytes: seq<byte>): seq<byte>
    requires n <= |slots|
  {
    if n == 0 then disk else Splice(Replicated(disk, slots, n - 1, bytes), slots[n - 1], bytes)
  }

  ghost predicate Holds(disk: seq<byte>, off: nat, bytes: seq<byte>) {
    off + |bytes| <= |disk| && disk[off..off + |bytes|] == bytes
  }

  /** The byte at `p` after writing `n` slots: slot bytes inside those slots, as before elsewhere. */
  lemma {:induction false} ReplicatedAt(g: Geometry, disk: seq<byte>, n: nat, bytes: seq<byte>, p: nat)
    requires n <= |g.slots| && |bytes| <= g.reserved && g.Disjoint() && g.Inside(|disk|) && p < |disk|
    ensures var r := Replicated(disk, g.slots, n, bytes);
      && |r| == |disk|
      && (forall j :: 0 <= j < n && g.slots[j] <= p < g.slots[j] + |bytes| ==> r[p] == bytes[p - g.slots[j]])
      && ((forall j :: 0 <= j < n ==> !(g.slots[j] <= p < g.slots[j] + |bytes|)) ==> r[p] == disk[p])
  {
    if n > 0 {
      ReplicatedAt(g, disk, n - 1, bytes, p);
    }
  }

  lemma {:induction false} ReplicatedLength(g: Geometry, disk: seq<byte>, n: nat, bytes: seq<byte>)
    requires n <= |g.slots| && |bytes| <= g.reserved && g.Inside(|disk|)
    ensures |Replicated(disk, g.slots, n, bytes)| == |disk|
  {
    if n > 0 {
      ReplicatedLength(g, disk, n - 1, bytes);
    }
  }

  /** Replica identity: the slots written so far are byte-identical, the others and every data
      byte are as before. */
  lemma {:induction false} ReplicaIdentity(g: Geometry, disk: seq<byte>, n: nat, bytes: seq<byte>)
    requires n <= |g.slots| && |bytes| == g.reserved && g.Disjoint() && g.Inside(|disk|)
    ensures var r := Replicated(disk, g.slots, n, bytes);
      && |r| == |disk|
      && (forall j :: 0 <= j < n ==> Holds(r, g.slots[j], bytes))
      && (forall j :: n <= j < |g.slots| ==>
            r[g.slots[j]..g.slots[j] + g.reserved] == disk[g.slots[j]..g.slots[j] + g.reserved])
      && (forall p :: 0 <= p < |disk| && !g.InSlot(p) ==> r[p] == disk[p])
  {
    hide Replicated;
    var r := Replicated(disk, g.slots, n, bytes);
    ReplicatedLength(g, disk, n, bytes);
    forall p | 0 <= p < |disk|
      ensures forall j :: 0 <= j < n && g.slots[j] <= p < g.slots[j] + |bytes| ==> r[p] == bytes[p - g.slots[j]]
      ensures (forall j :: 0 <= j < n ==> !(g.slots[j] <= p < g.slots[j] + |bytes|)) ==> r[p] == disk[p]
    {
      ReplicatedAt(g, disk, n, bytes, p);
    }
    forall j | n <= j < |g.slots|
      ensures r[g.slots[j]..g.slots[j] + g.reserved] == disk[g.slots[j]..g.slots[j] + g.reserved]
    {
      assert forall p :: g.slots[j] <= p < g.slots[j] + g.reserved ==> r[p] == disk[p];
    }
  }

  method WriteHeaderAt(file: NativeFile, slotOffset: nat, header: seq<byte>)
    modifies file
    ensures file.content == Splice(old(file.content), slotOffset, header)
  {
    file.WriteAt(slotOffset, header);
  }

  method WriteFileTableAt(file: NativeFile, slotOffset: nat, headerSize: nat, enc: seq<byte>, maxTable: nat)
    modifies file
    ensures file.content == Splice(old(file.content), slotOffset + headerSize, enc + Padding(enc, maxTable))
  {
    var tableOffset := slotOffset + headerSize;
    ghost var before := file.content;
    if |enc| > 0 {
      file.WriteAt(tableOffset, enc);
    }
    SpliceConcat(before, tableOffset, enc, Padding(enc, maxTable));
    if |enc| < maxTable {
      file.WriteAt(tableOffset + |enc|, Zeros(maxTable - |enc|));
    }
  }

  /** The slot loop. `synced` lists what the file held at each synchronisation. */
  method WriteSlots(file: NativeFile, slots: seq<nat>, header: seq<byte>, enc: seq<byte>, maxTable: nat)
    returns (ghost synced: seq<seq<byte>>)
    modifies file
    ensures file.content == Replicated(old(file.content), slots, |slots|, SlotBytes(header, enc, maxTable))
    ensures |synced| == |slots|
    ensures forall i :: 0 <= i < |slots| ==>
      synced[i] == Replicated(old(file.content), slots, i + 1, SlotBytes(header, enc, maxTable))
  {
    hide Splice;
    synced := [];
    ghost var bytes := SlotBytes(header, enc, maxTable);
    for i := 0 to |slots|
      invariant file.content == Replicated(old(file.content), slots, i, bytes)
      invariant |synced| == i
      invariant forall j :: 0 <= j < i ==> synced[j] == Replicated(old(file.content), slots, j + 1, bytes)
    {
      SpliceConcat(file.content, slots[i], header, enc + Padding(enc, maxTable));
      WriteHeaderAt(file, slots[i], header);
      WriteFileTableAt(file, slots[i], |header|, enc, maxTable);
      synced := synced + [file.content];
    }
  }

  /** writeAllSlots: headers only. */
  method WriteAllSlots(file: NativeFile, slots: seq<nat>, header: seq<byte>)
    modifies file
    ensures file.content == Replicated(old(file.content), slots, |slots|, header)
  {
    hide Splice;
    for i := 0 to |slots|
      invariant file.content == Replicated(old(file.content), slots, i, header)
    {
      WriteHeaderAt(file, slots[i], header);
    }
  }
}
