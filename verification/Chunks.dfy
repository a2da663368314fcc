/** Block arithmetic, computed in three places of the program: the capacity check
    (src/FileManager.cpp), the table entry (src/FileTable.cpp) and the pipelines. */
module Chunks {
  import opened Bytes

  const BLOCK_SIZE: nat := 65536
  const NONCE_SIZE: nat := 12
  const AUTH_TAG_SIZE: nat := 16
  const OVERHEAD: nat := NONCE_SIZE + AUTH_TAG_SIZE

  /** The capacity check's prediction for a file of `plain` bytes. */
  function EncryptedSize(plain: nat): nat {
    var fullChunks := plain / BLOCK_SIZE;
    var lastChunk := plain % BLOCK_SIZE;
    fullChunks * (BLOCK_SIZE + OVERHEAD) + (if lastChunk > 0 then lastChunk + OVERHEAD else 0)
  }

  /** The chunk count recorded in a table entry. */
  function ChunkCount(size: nat): nat {
    if size == 0 then 0 else size / BLOCK_SIZE + (if size % BLOCK_SIZE != 0 then 1 else 0)
  }

  /** The blocks a reader cuts a file into. */
  function Split(content: seq<byte>): (blocks: seq<seq<byte>>)
    decreases |content|
  {
    if content == [] then []
    else if |content| <= BLOCK_SIZE then [content]
    else [content[..BLOCK_SIZE]] + Split(content[BLOCK_SIZE..])
  }

  function Join(blocks: seq<seq<byte>>): seq<byte> {
    if blocks == [] then [] else blocks[0] + Join(blocks[1..])
  }

  /** The space the sealed blocks take. */
  function SealedSize(blocks: seq<seq<byte>>): nat {
    if blocks == [] then 0 else |blocks[0]| + OVERHEAD + SealedSize(blocks[1..])
  }

  lemma {:induction false} JoinSplit(content: seq<byte>)
    ensures Join(Split(content)) == content
    decreases |content|
  {
    if |content| > BLOCK_SIZE {
      JoinSplit(content[BLOCK_SIZE..]);
      assert Split(content)[1..] == Split(content[BLOCK_SIZE..]);
      assert content[..BLOCK_SIZE] + content[BLOCK_SIZE..] == content;
    } else if content != [] {
      assert Split(content)[1..] == [];
      assert content + [] == content;
    }
  }

  lemma {:induction false} SliceOfTail(s: seq<byte>, k: nat, a: nat, b: nat)
    requires k <= |s| && a <= b <= |s| - k
    ensures s[k..][a..b] == s[k + a..k + b]
  {
  }

  /** Block `i` starts where the first `i` full blocks end and has the length the decrypting
      reader computes from what remains; only the last block can be short, none is empty. */
  lemma {:induction false} BlockAt(content: seq<byte>, i: nat)
    requires i < |Split(content)|
    ensures i * BLOCK_SIZE < |content|
    ensures |Split(content)[i]| == Min(|content| - i * BLOCK_SIZE, BLOCK_SIZE)
    ensures Split(content)[i] == content[i * BLOCK_SIZE..i * BLOCK_SIZE + |Split(content)[i]|]
    decreases |content|
  {
    if |content| > BLOCK_SIZE && i > 0 {
      BlockAt(content[BLOCK_SIZE..], i - 1);
      var tail := content[BLOCK_SIZE..];
      var n := |Split(tail)[i - 1]|;
      assert Split(content)[i] == Split(tail)[i - 1];
      var from := (i - 1) * BLOCK_SIZE;
      SliceOfTail(content, BLOCK_SIZE, from, from + n);
      assert from + BLOCK_SIZE == i * BLOCK_SIZE;
    }
  }

  /** The recorded count is the number of blocks, and the prediction is the space they take. */
  lemma {:induction false} AccountingAgrees(content: seq<byte>)
    ensures |Split(content)| == ChunkCount(|content|)
    ensures SealedSize(Split(content)) == EncryptedSize(|content|) == |content| + OVERHEAD * ChunkCount(|content|)
    decreases |content|
  {
    if |content| > BLOCK_SIZE {
      var tail := content[BLOCK_SIZE..];
      AccountingAgrees(tail);
      assert Split(content)[1..] == Split(tail);
      assert |content| / BLOCK_SIZE == 1 + |tail| / BLOCK_SIZE && |content| % BLOCK_SIZE == |tail| % BLOCK_SIZE;
    } else if content != [] {
      assert Split(content)[1..] == [];
    }
  }

  /** The count is the ceiling: the least number of blocks that can hold the file. */
  lemma {:induction false} CountIsCeiling(size: nat, k: nat)
    ensures size <= k * BLOCK_SIZE <==> ChunkCount(size) <= k
  {
    var q, r := size / BLOCK_SIZE, size % BLOCK_SIZE;
    assert size == q * BLOCK_SIZE + r;
    if k < q { assert k * BLOCK_SIZE + BLOCK_SIZE <= q * BLOCK_SIZE; }
    if k > q { assert q * BLOCK_SIZE + BLOCK_SIZE <= k * BLOCK_SIZE; }
  }
}
