/** Octets, byte strings and the one file primitive everything else is built on. */
module Bytes {

  type byte = x: int | 0 <= x < 256

  datatype Option<+T> = None | Some(value: T)

  function Max(a: int, b: int): int { if a < b then b else a }

  function Min(a: int, b: int): int { if a < b then a else b }

  function Zeros(n: nat): seq<byte> { seq(n, _ => 0) }

  /** The contents of a file after writing `data` at `off`: positions between the old
      end and `off` read as zero, and an empty write changes nothing. */
  function Splice(s: seq<byte>, off: nat, data: seq<byte>): (r: seq<byte>)
    ensures |r| == if data == [] then |s| else Max(|s|, off + |data|)
    ensures forall p :: 0 <= p < |r| ==>
      r[p] == if off <= p < off + |data| then data[p - off] else if p < |s| then s[p] else 0
  {
    if data == [] then s else
      seq(Max(|s|, off + |data|), p requires 0 <= p =>
        if off <= p < off + |data| then data[p - off] else if p < |s| then s[p] else 0)
  }

  /** Two adjacent writes are one. */
  lemma {:induction false} SpliceConcat(disk: seq<byte>, off: nat, a: seq<byte>, b: seq<byte>)
    ensures Splice(Splice(disk, off, a), off + |a|, b) == Splice(disk, off, a + b)
  {
    if a == [] {
      assert a + b == b;
    } else if b == [] {
      assert a + b == a;
    }
  }
}
