/** Which inputs a hash gives to the compression function, block by block of the message and without the tree. */
module Blake3Blocks {
  import opened Wrappers
  import opened Bits
  import opened Blake3Spec
  import opened Blake3Tree
  import opened Blake3Collision

  /** A byte of the message, or zero behind `end`. */
  function ByteAt(msg: seq<byte>, end: nat, p: nat): byte
    requires end <= |msg|
  {
    if p < end then msg[p] else 0
  }

  function WordAt(msg: seq<byte>, end: nat, p: nat): u32
    requires end <= |msg|
  {
    ByteAt(msg, end, p) + 256 * ByteAt(msg, end, p + 1) + 65536 * ByteAt(msg, end, p + 2)
    + 16777216 * ByteAt(msg, end, p + 3)
  }

  function Min(a: nat, b: nat): nat {
    if a < b then a else b
  }

  /** Block `j` of chunk `i`: every chunk has a first block, and further ones as long as there are bytes. */
  predicate IsBlock(len: nat, i: nat, j: nat) {
    j < 16 && (1024 * i + 64 * j < len || (len == 0 && i == 0 && j == 0))
  }

  /** Where that block ends. */
  function End(len: nat, i: nat, j: nat): nat {
    Min(1024 * i + 64 * (j + 1), len)
  }

  /** No block of that chunk follows. */
  predicate IsLast(len: nat, i: nat, j: nat) {
    j == 15 || len <= 1024 * i + 64 * (j + 1)
  }

  /** The input of block `j` of chunk `i`, when the first chunk has number `first`: chained to the block before it, or
      to the key; its bytes little-endian and padded with zeros; the chunk's number; the number of its bytes; 1 at the
      start of a chunk and 2 at its end (section 2.4 of the BLAKE3 specification). */
  function BlockOf(m: Mode, msg: seq<byte>, first: nat, i: nat, j: nat): Input
    requires IsBlock(|msg|, i, j)
    decreases j, 1
  {
    Marked(m, Before(m, msg, first, i, j), BytesOf(msg, i, j), first + i, Len(|msg|, i, j), Marks(|msg|, i, j))
  }

  function Before(m: Mode, msg: seq<byte>, first: nat, i: nat, j: nat): Words8
    requires IsBlock(|msg|, i, j)
    decreases j, 0
  {
    if j == 0 then m.key else Compressed(m.compress, BlockOf(m, msg, first, i, j - 1))
  }

  function Len(len: nat, i: nat, j: nat): nat
    requires IsBlock(len, i, j)
  {
    End(len, i, j) - (1024 * i + 64 * j)
  }

  function Marked(m: Mode, cv: Words8, block: Words16, counter: nat, len: nat, marks: Flags): Input {
    Input(cv, block, counter, len, m.flags | marks)
  }

  function Marks(len: nat, i: nat, j: nat): Flags {
    if IsLast(len, i, j) then if j == 0 then 3 else 2 else if j == 0 then 1 else 0
  }

  function BytesOf(msg: seq<byte>, i: nat, j: nat): Words16 {
    seq(16, k requires 0 <= k < 16 => WordAt(msg, End(|msg|, i, j), 1024 * i + 64 * j + 4 * k))
  }

  /** In a hash the last block of an only chunk is the root. */
  function HashBlock(m: Mode, msg: seq<byte>, i: nat, j: nat): Input
    requires IsBlock(|msg|, i, j)
  {
    var x := BlockOf(m, msg, 0, i, j);
    if |msg| <= 1024 && IsLast(|msg|, i, j) then Rooted(x) else x
  }

  function Rooted(x: Input): Input {
    x.(flags := x.flags | 8)
  }

  // ---- one chunk ----

  lemma PaddedWords(msg: seq<byte>, from: nat, end: nat)
    requires from <= end <= |msg| && end - from <= 64
    ensures BlockWords(Padded(msg[from..end])) == seq(16, k requires 0 <= k < 16 => WordAt(msg, end, from + 4 * k))
  {
    var p := Padded(msg[from..end]);
    forall k | 0 <= k < 16 ensures LittleEndianWord(p[4 * k..4 * k + 4]) == WordAt(msg, end, from + 4 * k) {
      var b, q := p[4 * k..4 * k + 4], from + 4 * k;
      assert forall h :: 0 <= h < 64 ==> p[h] == ByteAt(msg, end, from + h);
      assert b[0] == p[4 * k] && b[1] == p[4 * k + 1] && b[2] == p[4 * k + 2] && b[3] == p[4 * k + 3];
      assert b[0] == ByteAt(msg, end, q) && b[1] == ByteAt(msg, end, q + 1);
      assert b[2] == ByteAt(msg, end, q + 2) && b[3] == ByteAt(msg, end, q + 3);
    }
  }

  lemma WholeBlock(msg: seq<byte>, from: nat)
    requires from + 64 <= |msg|
    ensures BlockWords(msg[from..from + 64]) == BlockWords(Padded(msg[from..from + 64]))
  {
    assert Padded(msg[from..from + 64]) == msg[from..from + 64];
  }

  lemma BlockFlags(f: Flags, len: nat, k: nat)
    ensures !IsLast(len, 0, k) ==> f | StartFlag(k) == f | Marks(len, 0, k)
    ensures IsLast(len, 0, k) ==> f | StartFlag(k) | CHUNK_END == f | Marks(len, 0, k)
  {
  }

  /** The blocks of a chunk are chained, */
  lemma {:induction false} ChunkChain(m: Mode, chunk: seq<byte>, first: nat, j: nat)
    requires |chunk| <= 1024 && IsBlock(|chunk|, 0, j)
    ensures BLOCK_LEN * j <= |chunk| && BlocksCv(m, chunk, first, j) == Before(m, chunk, first, 0, j)
    decreases j, 1
  {
    hide BlockOf, Compressed, BlocksCv, BlockInputs, BlockInput;
    if j > 0 {
      InnerBlock(m, chunk, first, j - 1);
      LastBlock(m, chunk, first, j);
    } else {
      FirstCv(m, chunk, first);
    }
  }

  lemma FirstCv(m: Mode, chunk: seq<byte>, first: nat)
    ensures BlocksCv(m, chunk, first, 0) == m.key
  {
  }

  lemma {:induction false} InnerBlock(m: Mode, chunk: seq<byte>, first: nat, j: nat)
    requires |chunk| <= 1024 && IsBlock(|chunk|, 0, j) && !IsLast(|chunk|, 0, j)
    ensures BLOCK_LEN * (j + 1) <= |chunk| && BlockOf(m, chunk, first, 0, j) == BlockInput(m, chunk, first, j)
    decreases j, 2
  {
    ChunkChain(m, chunk, first, j);
    InnerMarked(m, chunk, first, j);
    ChunkBytes(chunk, j);
    assert Len(|chunk|, 0, j) == 64;
    hide StartFlag, Compressed, BlockWords, BytesOf, Marks, Marked, BlocksCv, BlockInput, Len;
  }

  lemma InnerMarked(m: Mode, chunk: seq<byte>, first: nat, j: nat)
    requires BLOCK_LEN * (j + 1) <= |chunk| && !IsLast(|chunk|, 0, j)
    ensures BlockInput(m, chunk, first, j)
         == Marked(m, BlocksCv(m, chunk, first, j), BlockWords(chunk[64 * j..64 * (j + 1)]), first, 64,
                   Marks(|chunk|, 0, j))
  {
    hide StartFlag, BlockWords, Marks, BlocksCv, Padded;
    BlockFlags(m.flags, |chunk|, j);
  }

  lemma LastMarked(m: Mode, chunk: seq<byte>, first: nat, j: nat)
    requires BlocksBeforeLast(|chunk|) == j && IsLast(|chunk|, 0, j) && |chunk| <= 1024
    ensures NodeInput(ChunkOutput(m, chunk, first))
         == Marked(m, BlocksCv(m, chunk, first, j), BlockWords(Padded(chunk[64 * j..])), first, |chunk| - 64 * j,
                   Marks(|chunk|, 0, j))
  {
    hide StartFlag, BlockWords, Marks, BlocksCv, Padded;
    BlockFlags(m.flags, |chunk|, j);
  }

  /** and the last one is the chunk's node. */
  lemma NodeBlock(m: Mode, chunk: seq<byte>, first: nat, j: nat)
    requires |chunk| <= 1024 && IsBlock(|chunk|, 0, j) && IsLast(|chunk|, 0, j)
    ensures BlocksBeforeLast(|chunk|) == j && BlockOf(m, chunk, first, 0, j) == NodeInput(ChunkOutput(m, chunk, first))
  {
    ChunkChain(m, chunk, first, j);
    LastMarked(m, chunk, first, j);
    ChunkBytes(chunk, j);
    assert Len(|chunk|, 0, j) == |chunk| - 64 * j;
    hide StartFlag, Compressed, BlockWords, BytesOf, Marks, Marked, BlocksCv, ChunkOutput, Len;
  }

  lemma ChunkBytes(chunk: seq<byte>, j: nat)
    requires |chunk| <= 1024 && IsBlock(|chunk|, 0, j)
    ensures 64 * (j + 1) <= |chunk| ==> BlockWords(chunk[64 * j..64 * (j + 1)]) == BytesOf(chunk, 0, j)
    ensures IsLast(|chunk|, 0, j) ==> BlockWords(Padded(chunk[64 * j..])) == BytesOf(chunk, 0, j)
  {
    hide BlockWords, WordAt;
    PaddedWords(chunk, 64 * j, End(|chunk|, 0, j));
    if 64 * (j + 1) <= |chunk| {
      WholeBlock(chunk, 64 * j);
    }
    if IsLast(|chunk|, 0, j) {
      assert chunk[64 * j..] == chunk[64 * j..End(|chunk|, 0, j)];
    }
  }

  // ---- the whole tree ----

  /** A block and what it is chained to. */
  lemma OneBlock(m: Mode, msg: seq<byte>, first: nat, i: nat, j: nat)
    requires IsBlock(|msg|, i, j)
    ensures BlockOf(m, msg, first, i, j)
         == Marked(m, Before(m, msg, first, i, j), BytesOf(msg, i, j), first + i, Len(|msg|, i, j), Marks(|msg|, i, j))
    ensures if j == 0 then Before(m, msg, first, i, j) == m.key
            else IsBlock(|msg|, i, j - 1)
                 && Before(m, msg, first, i, j) == Compressed(m.compress, BlockOf(m, msg, first, i, j - 1))
  {
    hide Compressed, BytesOf, Marks, Marked, Len;
  }

  lemma {:induction false} LeftBlocks(m: Mode, msg: seq<byte>, first: nat, c: nat, i: nat, j: nat)
    requires 1024 * c < |msg| && i < c && IsBlock(|msg|, i, j)
    ensures IsBlock(1024 * c, i, j)
    ensures BlockOf(m, msg[..1024 * c], first, i, j) == BlockOf(m, msg, first, i, j)
    decreases j
  {
    assert Marks(1024 * c, i, j) == Marks(|msg|, i, j) && Len(1024 * c, i, j) == Len(|msg|, i, j);
    hide Compressed, BytesOf, Marks, Marked, Len, BlockOf, Before;
    OneBlock(m, msg, first, i, j);
    OneBlock(m, msg[..1024 * c], first, i, j);
    if j > 0 {
      LeftBlocks(m, msg, first, c, i, j - 1);
    }
    LeftBytes(msg, c, i, j);
  }

  lemma LeftBytes(msg: seq<byte>, c: nat, i: nat, j: nat)
    requires 1024 * c < |msg| && i < c && IsBlock(|msg|, i, j)
    ensures BytesOf(msg[..1024 * c], i, j) == BytesOf(msg, i, j)
  {
    var end := End(|msg|, i, j);
    assert end == End(1024 * c, i, j);
    forall p: nat ensures ByteAt(msg[..1024 * c], end, p) == ByteAt(msg, end, p) {
    }
  }

  lemma {:induction false} RightBlocks(m: Mode, msg: seq<byte>, first: nat, c: nat, i: nat, j: nat)
    requires 1024 * c < |msg| && c <= i && IsBlock(|msg|, i, j)
    ensures IsBlock(|msg| - 1024 * c, i - c, j)
    ensures BlockOf(m, msg[1024 * c..], first + c, i - c, j) == BlockOf(m, msg, first, i, j)
    decreases j
  {
    RightMarks(|msg|, c, i, j);
    hide Compressed, BytesOf, Marks, Marked, Len, IsBlock, BlockOf, Before;
    OneBlock(m, msg, first, i, j);
    OneBlock(m, msg[1024 * c..], first + c, i - c, j);
    if j > 0 {
      RightMarks(|msg|, c, i, j - 1);
      RightBlocks(m, msg, first, c, i, j - 1);
    }
    RightBytes(msg, c, i, j);
  }

  lemma RightMarks(len: nat, c: nat, i: nat, j: nat)
    requires 1024 * c < len && c <= i && IsBlock(len, i, j)
    ensures IsBlock(len - 1024 * c, i - c, j) && (j > 0 ==> IsBlock(len, i, j - 1))
    ensures Marks(len - 1024 * c, i - c, j) == Marks(len, i, j) && Len(len - 1024 * c, i - c, j) == Len(len, i, j)
  {
  }

  lemma RightBytes(msg: seq<byte>, c: nat, i: nat, j: nat)
    requires 1024 * c < |msg| && c <= i && IsBlock(|msg|, i, j)
    ensures BytesOf(msg[1024 * c..], i - c, j) == BytesOf(msg, i, j)
  {
    var end := End(|msg|, i, j);
    assert end - 1024 * c == End(|msg| - 1024 * c, i - c, j);
    var from := 1024 * (i - c) + 64 * j;
    forall k | 0 <= k < 16
      ensures WordAt(msg[1024 * c..], end - 1024 * c, from + 4 * k) == WordAt(msg, end, 1024 * i + 64 * j + 4 * k)
    {
      assert from + 4 * k + 1024 * c == 1024 * i + 64 * j + 4 * k;
    }
  }

  /** Below the root every block of every chunk is compressed as it should be. */
  lemma {:induction false} SubtreeBlock(m: Mode, msg: seq<byte>, first: nat, i: nat, j: nat)
    requires IsBlock(|msg|, i, j)
    ensures BlockOf(m, msg, first, i, j) in SubtreeInputs(m, msg, first)
    decreases |msg|
  {
    hide BlockOf;
    if |msg| <= CHUNK_LEN {
      ChunkBlock(m, msg, first, j);
    } else {
      var c := LeftChunks(|msg|);
      RootInputs(m, msg, first);
      hide Tree, TreeInputs, NodeInput, LeftChunks;
      if i < c {
        LeftBlocks(m, msg, first, c, i, j);
        SubtreeBlock(m, msg[..1024 * c], first, i, j);
      } else {
        RightBlocks(m, msg, first, c, i, j);
        SubtreeBlock(m, msg[1024 * c..], first + c, i - c, j);
      }
    }
  }

  lemma ChunkBlock(m: Mode, msg: seq<byte>, first: nat, j: nat)
    requires |msg| <= 1024 && IsBlock(|msg|, 0, j)
    ensures if IsLast(|msg|, 0, j) then BlockOf(m, msg, first, 0, j) == NodeInput(Tree(m, msg, first))
            else BlockOf(m, msg, first, 0, j) in TreeInputs(m, msg, first)
  {
    hide BlockOf, BlockInput, ChunkOutput, BlockInputs;
    if IsLast(|msg|, 0, j) {
      NodeBlock(m, msg, first, j);
    } else {
      InnerBlock(m, msg, first, j);
      InnerBefore(|msg|, j);
      AmongBlocks(m, msg, first, j, BlocksBeforeLast(|msg|));
    }
  }

  lemma InnerBefore(len: nat, j: nat)
    requires IsBlock(len, 0, j) && !IsLast(len, 0, j)
    ensures j < BlocksBeforeLast(len)
  {
  }

  lemma {:induction false} AmongBlocks(m: Mode, chunk: seq<byte>, first: nat, j: nat, n: nat)
    requires j < n && BLOCK_LEN * n <= |chunk|
    ensures BlockInput(m, chunk, first, j) in BlockInputs(m, chunk, first, n)
  {
    if j < n - 1 {
      AmongBlocks(m, chunk, first, j, n - 1);
    }
  }

  lemma RootedNode(o: Output)
    requires o.counter == 0
    ensures RootInput(o) == Rooted(NodeInput(o))
  {
  }

  lemma OnlyChunk(m: Mode, msg: seq<byte>)
    requires |msg| <= 1024
    ensures RootInput(Tree(m, msg, 0)) == Rooted(NodeInput(Tree(m, msg, 0)))
  {
    assert Tree(m, msg, 0).counter == 0 by {
      hide BlockWords, BlocksCv, StartFlag;
    }
    hide Tree;
    RootedNode(Tree(m, msg, 0));
  }

  /** Every block of every chunk is an input of the hash. */
  lemma EveryBlock(m: Mode, msg: seq<byte>, i: nat, j: nat)
    requires IsBlock(|msg|, i, j)
    ensures HashBlock(m, msg, i, j) in HashInputs(m, msg)
  {
    hide BlockOf, LeftChunks, Tree, TreeInputs, SubtreeInputs, Rooted, NodeInput, RootInput;
    if |msg| <= 1024 {
      ChunkBlock(m, msg, 0, j);
      OnlyChunk(m, msg);
    } else {
      RootInputs(m, msg, 0);
      var c := LeftChunks(|msg|);
      if i < c {
        LeftBlocks(m, msg, 0, c, i, j);
        SubtreeBlock(m, msg[..1024 * c], 0, i, j);
      } else {
        RightBlocks(m, msg, 0, c, i, j);
        SubtreeBlock(m, msg[1024 * c..], c, i - c, j);
      }
    }
  }

  /** A tree of more than one chunk: a power of two of chunks on the left, at least half of the message and not all of
      it; the key as chaining value, the outputs of left and right as block, number 0, length 64 and the mark 4
      (sections 2.1 and 2.5 of the BLAKE3 specification). */
  lemma TreeOfMany(m: Mode, msg: seq<byte>, first: nat) returns (s: nat)
    requires |msg| > 1024
    ensures IsPowerOfTwo(s) && 1024 * s < |msg| <= 2048 * s
    ensures var left, right := Tree(m, msg[..1024 * s], first), Tree(m, msg[1024 * s..], first + s);
      && NodeInput(left) in TreeInputs(m, msg, first) && NodeInput(right) in TreeInputs(m, msg, first)
      && NodeInput(Tree(m, msg, first))
         == Input(m.key, Compressed(m.compress, NodeInput(left)) + Compressed(m.compress, NodeInput(right)), 0, 64,
                  4 | m.flags)
  {
    s := LeftChunks(|msg|);
    LeftSubtree(|msg|);
    RootInputs(m, msg, first);
    hide LeftChunks;
    hide TreeInputs;
    RootBlock(m, msg, first);
    NodeCompressed(m.compress, Tree(m, msg[..1024 * s], first));
    NodeCompressed(m.compress, Tree(m, msg[1024 * s..], first + s));
  }

  lemma ByteOfWord(w: nat, i: nat)
    requires i < 4
    ensures (4 * w + i) / 64 == w / 16 && (4 * w + i) % 64 / 4 == w % 16 && (4 * w + i) % 4 == i
  {
    var q, r := w / 16, w % 16;
    QuotientUnique(4 * w + i, 64, q, 4 * r + i);
    QuotientUnique(4 * r + i, 4, r, i);
    QuotientUnique(4 * w + i, 4, w, i);
  }

  /** Word `w` of the output is word `w % 16` of the root's compression number `w / 16`, little-endian. */
  lemma OutputWord(m: Mode, msg: seq<byte>, n: nat, w: nat)
    requires 4 * (w + 1) <= n
    ensures var x := RootInput(Tree(m, msg, 0));
      LittleEndianWord(Hash(m, msg, n)[4 * w..4 * w + 4])
      == m.compress(x.cv, x.block, w / 16, x.len, x.flags)[w % 16]
  {
    hide Tree, WordByte, LittleEndianWord;
    var x := RootInput(Tree(m, msg, 0));
    var v := m.compress(x.cv, x.block, w / 16, x.len, x.flags)[w % 16];
    var b := Hash(m, msg, n)[4 * w..4 * w + 4];
    forall i | 0 <= i < 4 ensures b[i] == WordByte(v, i) {
      ByteOfWord(w, i);
      assert b[i] == Hash(m, msg, n)[4 * w + i];
    }
    WordOfBytes(b, v);
  }

  lemma WordOfBytes(b: seq<byte>, v: u32)
    requires |b| == 4 && forall i :: 0 <= i < 4 ==> b[i] == WordByte(v, i)
    ensures LittleEndianWord(b) == v
  {
    WordParts(v);
    hide WordByte;
    assert b[0] == WordByte(v, 0) && b[1] == WordByte(v, 1) && b[2] == WordByte(v, 2) && b[3] == WordByte(v, 3);
  }

  // ---- the initial value ----

  /** `w` is the first 32 bits of the fraction of the square root of `p`, whose whole part is `whole`. */
  predicate RootFraction(p: nat, whole: nat, w: u32) {
    var x := whole * 0x1_0000_0000 + w;
    x * x <= p * 0x1_0000_0000_0000_0000 < (x + 1) * (x + 1)
  }

  /** The initial value comes from the square roots of the first eight primes (section 2.2 of the BLAKE3
      specification). */
  lemma InitialValue()
    ensures RootFraction(2, 1, IV[0]) && RootFraction(3, 1, IV[1]) && RootFraction(5, 2, IV[2])
    ensures RootFraction(7, 2, IV[3]) && RootFraction(11, 3, IV[4]) && RootFraction(13, 3, IV[5])
    ensures RootFraction(17, 4, IV[6]) && RootFraction(19, 4, IV[7])
  {
  }
}
