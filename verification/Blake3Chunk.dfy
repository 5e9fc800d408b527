/** The chunk state of the incremental hasher: one chunk, compressed lazily block by block. */
module Blake3Chunk {
  import opened Wrappers
  import opened Blake3Spec

  /** Later input does not change the chaining value of the blocks before it. */
  lemma {:induction false} BlocksCvPrefix(m: Mode, chunk: seq<byte>, more: seq<byte>, counter: nat, k: nat)
    requires BLOCK_LEN * k <= |chunk|
    ensures BlocksCv(m, chunk + more, counter, k) == BlocksCv(m, chunk, counter, k)
  {
    if k > 0 {
      BlocksCvPrefix(m, chunk, more, counter, k - 1);
      assert (chunk + more)[BLOCK_LEN * (k - 1)..BLOCK_LEN * k] == chunk[BLOCK_LEN * (k - 1)..BLOCK_LEN * k];
    }
  }

  class ChunkState {
    const mode: Mode
    const chunkCounter: nat
    var chainingValue: Words8
    var block: array<byte>
    var blockLen: nat
    var blocksCompressed: nat

    /** Every byte of this chunk so far. */
    ghost var content: seq<byte>

    /** The blocks before the current one are chained; the current one holds the rest, zero-filled. */
    ghost predicate Chained()
      reads this, block
    {
      && block.Length == BLOCK_LEN
      && |content| <= CHUNK_LEN
      && blockLen <= BLOCK_LEN
      && |content| == BLOCK_LEN * blocksCompressed + blockLen
      && chainingValue == BlocksCv(mode, content, chunkCounter, blocksCompressed)
      && block[..blockLen] == content[BLOCK_LEN * blocksCompressed..]
      && forall i :: blockLen <= i < BLOCK_LEN ==> block[i] == 0
    }

    /** Compression is lazy: a full block stays uncompressed until more input shows that it is not the last. */
    ghost predicate Valid()
      reads this, block
    {
      Chained() && blocksCompressed == BlocksBeforeLast(|content|)
    }

    constructor (mode: Mode, chunkCounter: nat)
      ensures Valid() && fresh(block)
      ensures content == [] && this.mode == mode && this.chunkCounter == chunkCounter
    {
      this.mode := mode;
      this.chunkCounter := chunkCounter;
      chainingValue := mode.key;
      block := new byte[BLOCK_LEN](_ => 0);
      blockLen := 0;
      blocksCompressed := 0;
      content := [];
    }

    function Len(): (n: nat)
      requires Valid()
      reads this, block
      ensures n == |content|
    {
      BLOCK_LEN * blocksCompressed + blockLen
    }

    /** Absorb `input`, which must fit in the chunk. */
    method Update(input: seq<byte>)
      requires Valid()
      requires |content| + |input| <= CHUNK_LEN
      modifies this, block
      ensures Valid()
      ensures content == old(content) + input
      ensures block == old(block) || fresh(block)
    {
      var rest := input;
      while rest != []
        invariant Valid()
        invariant content + rest == old(content) + input
        invariant block == old(block) || fresh(block)
        decreases |rest|
      {
        if blockLen == BLOCK_LEN {
          CompressBlock();
        }
        var want := BLOCK_LEN - blockLen;
        var take := if want < |rest| then want else |rest|;
        AbsorbPiece([], content, rest, take);
        Fill(rest[..take]);
        rest := rest[take..];
      }
    }

    /** Chain the full current block and start an empty one. */
    method CompressBlock()
      requires Chained() && blockLen == BLOCK_LEN
      modifies this
      ensures Chained() && blockLen == 0
      ensures content == old(content) && fresh(block)
    {
      hide BlockWords, First8, StartFlag;
      assert block[..] == block[..blockLen]
             == content[BLOCK_LEN * blocksCompressed..BLOCK_LEN * (blocksCompressed + 1)];
      chainingValue := First8(mode.compress(chainingValue, BlockWords(block[..]), chunkCounter, BLOCK_LEN,
                                            mode.flags | StartFlag(blocksCompressed)));
      blocksCompressed := blocksCompressed + 1;
      block := new byte[BLOCK_LEN](_ => 0);
      blockLen := 0;
    }

    /** Copy `piece` into the free part of the current block. */
    method Fill(piece: seq<byte>)
      requires Chained()
      requires piece != [] && blockLen + |piece| <= BLOCK_LEN && |content| + |piece| <= CHUNK_LEN
      modifies this, block
      ensures Valid()
      ensures content == old(content) + piece && block == old(block)
    {
      ghost var before := BLOCK_LEN * blocksCompressed;
      forall i | blockLen <= i < blockLen + |piece| {
        block[i] := piece[i - blockLen];
      }
      assert block[..blockLen + |piece|] == old(block[..blockLen]) + piece;
      blockLen := blockLen + |piece|;
      content := content + piece;
      BlocksCvPrefix(mode, old(content), piece, chunkCounter, blocksCompressed);
      assert content[before..] == old(content)[before..] + piece;
    }

    /** The node of the chunk as it stands, if no more input came. */
    method ChunkNode() returns (o: Output)
      requires Valid()
      ensures o == ChunkOutput(mode, content, chunkCounter)
    {
      assert block[..] == Padded(content[BLOCK_LEN * blocksCompressed..]);
      o := Output(chainingValue, BlockWords(block[..]), chunkCounter, blockLen,
                  mode.flags | StartFlag(blocksCompressed) | CHUNK_END);
    }
  }
}
