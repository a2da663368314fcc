/** Ideal authenticated encryption and hashing, and what it means that the data space holds
    the sealed blocks of a file. */
module Sealing {
  import opened Bytes
  import opened Layout
  import opened Fragments
  import opened Chunks

  /** `seal` takes a nonce and may fail; `unseal` is None when authentication fails. */
  datatype Crypto = Crypto(
    seal: (seq<byte>, seq<byte>) -> Option<seq<byte>>,
    unseal: seq<byte> -> Option<seq<byte>>,
    digest: seq<byte> -> string)
  {
    /** A sealed block is 28 bytes longer and opens to what was sealed. */
    ghost predicate Ideal() {
      forall nonce, plain :: Sound(nonce, plain)
    }

    ghost predicate Sound(nonce: seq<byte>, plain: seq<byte>) {
      seal(nonce, plain).Some? ==>
        |seal(nonce, plain).value| == |plain| + OVERHEAD && unseal(seal(nonce, plain).value) == Some(plain)
    }
  }

  /** Reading block after block from `off` yields sealed bytes that open to `blocks`. */
  ghost predicate Stored(c: Crypto, g: Geometry, disk: seq<byte>, off: nat, blocks: seq<seq<byte>>)
    decreases |blocks|
  {
    blocks == [] || (
      var n := |blocks[0]| + OVERHEAD;
      && Collected(g, disk, off, n).Some?
      && c.unseal(Collected(g, disk, off, n).value) == Some(blocks[0])
      && Stored(c, g, disk, SegmentsEnd(g, off, n), blocks[1..]))
  }

  /** With separated slots, in terms of the data space. */
  lemma {:induction false} StoredStep(c: Crypto, g: Geometry, disk: seq<byte>, off: nat, blocks: seq<seq<byte>>)
    requires g.Separated() && blocks != []
    ensures var n := |blocks[0]| + OVERHEAD;
      Stored(c, g, disk, off, blocks) <==>
        (&& Get(g, disk, off, n).Some? && c.unseal(Get(g, disk, off, n).value) == Some(blocks[0])
         && Stored(c, g, disk, End(g, off, n), blocks[1..]))
  {
    hide Get, End, Collected, SegmentsEnd, Geometry.Separated;
    CollectedIsGet(g, disk, off, |blocks[0]| + OVERHEAD);
    SegmentsEndIsEnd(g, off, |blocks[0]| + OVERHEAD);
  }

  lemma {:induction false} SealedSizeAppend(blocks: seq<seq<byte>>, b: seq<byte>)
    ensures SealedSize(blocks + [b]) == SealedSize(blocks) + |b| + OVERHEAD
  {
    if blocks != [] {
      assert (blocks + [b])[1..] == blocks[1..] + [b];
      SealedSizeAppend(blocks[1..], b);
    } else {
      assert [b][1..] == [];
    }
  }

  lemma {:induction false} StoredAppend(c: Crypto, g: Geometry, disk: seq<byte>, off: nat, blocks: seq<seq<byte>>,
          b: seq<byte>)
    requires g.Separated() && Stored(c, g, disk, off, blocks)
    requires var n := |b| + OVERHEAD; var at := End(g, off, SealedSize(blocks));
      Get(g, disk, at, n).Some? && c.unseal(Get(g, disk, at, n).value) == Some(b)
    ensures Stored(c, g, disk, off, blocks + [b])
    decreases |blocks|
  {
    hide Get, End, Collected, SegmentsEnd, Geometry.Separated;
    StoredStep(c, g, disk, off, blocks + [b]);
    if blocks != [] {
      var n := |blocks[0]| + OVERHEAD;
      StoredStep(c, g, disk, off, blocks);
      EndCompose(g, off, n, SealedSize(blocks[1..]));
      assert (blocks + [b])[1..] == blocks[1..] + [b];
      StoredAppend(c, g, disk, End(g, off, n), blocks[1..], b);
    } else {
      assert End(g, off, 0) == off by { Nothing(g, disk, off); }
      assert (blocks + [b])[1..] == [];
    }
  }

  /** Stored blocks depend on nothing but the data bytes they occupy. */
  lemma {:induction false} StoredDependsOn(c: Crypto, g: Geometry, d: seq<byte>, d': seq<byte>, off: nat,
          blocks: seq<seq<byte>>)
    requires g.Separated() && Stored(c, g, d, off, blocks) && |d| <= |d'|
    requires forall p :: 0 <= p < |d| && off <= p < End(g, off, SealedSize(blocks)) && !g.InSlot(p) ==> d[p] == d'[p]
    ensures Stored(c, g, d', off, blocks)
    decreases |blocks|
  {
    hide Get, End, Collected, SegmentsEnd;
    if blocks != [] {
      var n := |blocks[0]| + OVERHEAD;
      var rest := SealedSize(blocks[1..]);
      StoredStep(c, g, d, off, blocks);
      StoredStep(c, g, d', off, blocks);
      EndCompose(g, off, n, rest);
      EndCounts(g, off, n);
      EndCounts(g, End(g, off, n), rest);
      GetSomeIff(g, d, off, n);
      GetDependsOn(g, d, d', off, n);
      StoredDependsOn(c, g, d, d', End(g, off, n), blocks[1..]);
    }
  }
}
