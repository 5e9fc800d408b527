/**
 The BLAKE3 hash tree as a recursive function of the whole input: section 2.1 (tree
 structure), 2.4 (chunk chaining values), 2.5 (parent nodes) and 2.6 (extendable output)
 of the BLAKE3 specification. The compression function is a parameter.
 */
module Blake3Spec {
  import opened Wrappers

  type Words8 = s: seq<u32> | |s| == 8 witness [0, 0, 0, 0, 0, 0, 0, 0]
  type Words16 = s: seq<u32> | |s| == 16 witness [0, 0, 0, 0, 0, 0, 0, 0, 0, 0, 0, 0, 0, 0, 0, 0]
  type Flags = bv32

  /** compress(chaining value, block words, counter, block length, flags) */
  type Compress = (Words8, Words16, nat, nat, Flags) -> Words16

  const OUT_LEN := 32
  const BLOCK_LEN := 64
  const CHUNK_LEN := 1024
  const MAX_DEPTH := 54

  const CHUNK_START: Flags := 1
  const CHUNK_END: Flags := 2
  const PARENT: Flags := 4
  const ROOT: Flags := 8
  const KEYED_HASH: Flags := 16
  const DERIVE_KEY_CONTEXT: Flags := 32
  const DERIVE_KEY_MATERIAL: Flags := 64

  const IV: Words8 := [
    0x6A09_E667, 0xBB67_AE85, 0x3C6E_F372, 0xA54F_F53A,
    0x510E_527F, 0x9B05_688C, 0x1F83_D9AB, 0x5BE0_CD19
  ]

  /** What stays fixed over one hash: compression function, key words, mode flags. */
  datatype Mode = Mode(compress: Compress, key: Words8, flags: Flags)

  /** A node whose output can be extended to any length. */
  datatype Output = Output(
    inputChainingValue: Words8, blockWords: Words16, counter: nat, blockLen: nat, flags: Flags)

  function First8(w: Words16): Words8 {
    w[..8]
  }

  function LittleEndianWord(b: seq<byte>): u32
    requires |b| == 4
  {
    var b0: int, b1: int, b2: int, b3: int := b[0], b[1], b[2], b[3];
    b0 + 0x100 * b1 + 0x1_0000 * b2 + 0x100_0000 * b3
  }

  /** Byte `i` of the little-endian encoding of `w`. */
  function WordByte(w: u32, i: nat): byte
    requires i < 4
  {
    (if i == 0 then w else if i == 1 then w / 0x100 else if i == 2 then w / 0x1_0000 else w / 0x100_0000) % 256
  }

  /** The little-endian words of a byte string whose length is a multiple of four. */
  function WordsFromBytes(b: seq<byte>): (w: seq<u32>)
    requires |b| % 4 == 0
    ensures |w| == |b| / 4
  {
    seq(|b| / 4, i requires 0 <= i < |b| / 4 => LittleEndianWord(b[4 * i..4 * i + 4]))
  }

  function BlockWords(block: seq<byte>): Words16
    requires |block| == BLOCK_LEN
  {
    WordsFromBytes(block)
  }

  function Padded(block: seq<byte>): (p: seq<byte>)
    requires |block| <= BLOCK_LEN
    ensures |p| == BLOCK_LEN
  {
    block + Zeros(BLOCK_LEN - |block|)
  }

  function ChainingValue(f: Compress, o: Output): Words8 {
    First8(f(o.inputChainingValue, o.blockWords, o.counter, o.blockLen, o.flags))
  }

  function StartFlag(blocksBefore: nat): Flags {
    if blocksBefore == 0 then CHUNK_START else 0
  }

  /** The chaining value after the first `k` blocks of a chunk, none of them its last. */
  function BlocksCv(m: Mode, chunk: seq<byte>, counter: nat, k: nat): Words8
    requires BLOCK_LEN * k <= |chunk|
  {
    if k == 0 then
      m.key
    else
      First8(m.compress(BlocksCv(m, chunk, counter, k - 1),
                        BlockWords(chunk[BLOCK_LEN * (k - 1)..BLOCK_LEN * k]), counter, BLOCK_LEN,
                        m.flags | StartFlag(k - 1)))
  }

  /** How many blocks of a chunk of `n` bytes come before its final block, which is never empty unless the chunk is. */
  function BlocksBeforeLast(n: nat): nat {
    if n == 0 then 0 else (n - 1) / BLOCK_LEN
  }

  /** The node of one chunk: all blocks but the last chained, the last one flagged as the chunk's end. */
  function ChunkOutput(m: Mode, chunk: seq<byte>, counter: nat): Output {
    var before := BlocksBeforeLast(|chunk|);
    var last := chunk[BLOCK_LEN * before..];
    Output(BlocksCv(m, chunk, counter, before), BlockWords(Padded(last)), counter, |last|,
           m.flags | StartFlag(before) | CHUNK_END)
  }

  function ParentOutput(m: Mode, left: Words8, right: Words8): Output {
    Output(m.key, left + right, 0, BLOCK_LEN, PARENT | m.flags)
  }

  /** The largest power of two that is at most `n`. */
  function LargestPowerOfTwo(n: nat): (p: nat)
    requires n > 0
    ensures 0 < p <= n < 2 * p
  {
    if n == 1 then 1 else 2 * LargestPowerOfTwo(n / 2)
  }

  /** The number of chunks in the left subtree of an input of `n` bytes: the largest power of two that
      leaves at least one byte for the right. */
  function LeftChunks(n: nat): (c: nat)
    requires n > CHUNK_LEN
    ensures 0 < c && CHUNK_LEN * c < n
  {
    LargestPowerOfTwo((n - 1) / CHUNK_LEN)
  }

  /** The root node of the tree over `msg`, whose first chunk has number `first`. */
  function Tree(m: Mode, msg: seq<byte>, first: nat): Output
    decreases |msg|
  {
    if |msg| <= CHUNK_LEN then
      ChunkOutput(m, msg, first)
    else
      var c := LeftChunks(|msg|);
      ParentOutput(m,
                   ChainingValue(m.compress, Tree(m, msg[..CHUNK_LEN * c], first)),
                   ChainingValue(m.compress, Tree(m, msg[CHUNK_LEN * c..], first + c)))
  }

  /** Byte `i` of the extendable output of a root node. */
  function XofByte(f: Compress, o: Output, i: nat): byte {
    WordByte(f(o.inputChainingValue, o.blockWords, i / 64, o.blockLen, o.flags | ROOT)[i % 64 / 4], i % 4)
  }

  /** The first `n` bytes of the extendable output of a root node. */
  function Xof(f: Compress, o: Output, n: nat): (out: seq<byte>)
    ensures |out| == n
  {
    seq(n, i requires 0 <= i => XofByte(f, o, i))
  }

  /** The hash of `msg`, `n` bytes long. */
  function Hash(m: Mode, msg: seq<byte>, n: nat): (out: seq<byte>)
    ensures |out| == n
  {
    Xof(m.compress, Tree(m, msg, 0), n)
  }

  function KeyWords(key: seq<byte>): Words8
    requires |key| == 32
  {
    WordsFromBytes(key)
  }

  function HashMode(f: Compress): Mode {
    Mode(f, IV, 0)
  }

  function KeyedMode(f: Compress, key: seq<byte>): Mode
    requires |key| == 32
  {
    Mode(f, KeyWords(key), KEYED_HASH)
  }

  /** The mode that hashes key material: its key words are the hash of the context string. */
  function DeriveKeyMode(f: Compress, context: seq<byte>): Mode {
    Mode(f, KeyWords(Hash(Mode(f, IV, DERIVE_KEY_CONTEXT), context, 32)), DERIVE_KEY_MATERIAL)
  }
}
