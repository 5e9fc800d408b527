/** The tree tells messages and modes apart: equal hashes come from equal messages in equal modes, or from two different
    inputs of the compression function with equal output. */
module Blake3Collision {
  import opened Wrappers
  import opened Blake3Spec

  /** Everything that one call of the compression function is given. */
  datatype Input = Input(cv: Words8, block: Words16, counter: nat, len: nat, flags: Flags)

  function Compressed(f: Compress, x: Input): Words8 {
    First8(f(x.cv, x.block, x.counter, x.len, x.flags))
  }

  /** A node below the root. */
  function NodeInput(o: Output): Input {
    Input(o.inputChainingValue, o.blockWords, o.counter, o.blockLen, o.flags)
  }

  /** The root, for the first 64 bytes of output. */
  function RootInput(o: Output): Input {
    Input(o.inputChainingValue, o.blockWords, 0, o.blockLen, WithRoot(o.flags))
  }

  function WithRoot(x: Flags): Flags {
    x | ROOT
  }

  predicate HasRoot(x: Flags) {
    x & ROOT != 0
  }

  /** Block `k` of a chunk, not its last. */
  function BlockInput(m: Mode, chunk: seq<byte>, counter: nat, k: nat): Input
    requires BLOCK_LEN * (k + 1) <= |chunk|
  {
    Input(BlocksCv(m, chunk, counter, k), BlockWords(chunk[BLOCK_LEN * k..BLOCK_LEN * (k + 1)]), counter, BLOCK_LEN,
          m.flags | StartFlag(k))
  }

  /** The inputs of the first `k` blocks of a chunk. */
  function BlockInputs(m: Mode, chunk: seq<byte>, counter: nat, k: nat): set<Input>
    requires BLOCK_LEN * k <= |chunk|
  {
    if k == 0 then {} else BlockInputs(m, chunk, counter, k - 1) + {BlockInput(m, chunk, counter, k - 1)}
  }

  /** The inputs of a tree apart from its root. */
  function TreeInputs(m: Mode, msg: seq<byte>, first: nat): set<Input>
    decreases |msg|, 0
  {
    if |msg| <= CHUNK_LEN then
      BlockInputs(m, msg, first, BlocksBeforeLast(|msg|))
    else
      var c := LeftChunks(|msg|);
      SubtreeInputs(m, msg[..CHUNK_LEN * c], first) + SubtreeInputs(m, msg[CHUNK_LEN * c..], first + c)
  }

  /** The inputs of a tree that is not the whole. */
  function SubtreeInputs(m: Mode, msg: seq<byte>, first: nat): set<Input>
    decreases |msg|, 1
  {
    TreeInputs(m, msg, first) + {NodeInput(Tree(m, msg, first))}
  }

  /** The inputs of a hash of at most 64 bytes. */
  function HashInputs(m: Mode, msg: seq<byte>): set<Input> {
    TreeInputs(m, msg, 0) + {RootInput(Tree(m, msg, 0))}
  }

  /** Two different inputs, one from each set, with the same first eight words of output. */
  ghost predicate Collide(f: Compress, a: set<Input>, b: set<Input>) {
    exists x, y :: x in a && y in b && x != y && Compressed(f, x) == Compressed(f, y)
  }

  // ---- words and bytes ----

  lemma WordBytes(b: seq<byte>)
    requires |b| == 4
    ensures forall i :: 0 <= i < 4 ==> WordByte(LittleEndianWord(b), i) == b[i]
  {
    var b0: int, b1: int, b2: int, b3: int := b[0], b[1], b[2], b[3];
    var w := LittleEndianWord(b);
    assert w / 0x100 == b1 + 0x100 * b2 + 0x1_0000 * b3;
    assert w / 0x1_0000 == b2 + 0x100 * b3;
    assert w / 0x100_0000 == b3;
  }

  /** Byte strings with the same words are equal. */
  lemma WordsInjective(a: seq<byte>, b: seq<byte>)
    requires |a| % 4 == 0 && |b| % 4 == 0 && WordsFromBytes(a) == WordsFromBytes(b)
    ensures a == b
  {
    assert |a| == |b|;
    forall i | 0 <= i < |a| ensures a[i] == b[i] {
      var k := i / 4;
      WordBytes(a[4 * k..4 * k + 4]);
      WordBytes(b[4 * k..4 * k + 4]);
      assert WordsFromBytes(a)[k] == WordsFromBytes(b)[k];
      assert WordByte(LittleEndianWord(a[4 * k..4 * k + 4]), i % 4) == a[i];
      assert WordByte(LittleEndianWord(b[4 * k..4 * k + 4]), i % 4) == b[i];
    }
  }

  lemma WordParts(w: u32)
    ensures w == WordByte(w, 0) + 0x100 * WordByte(w, 1) + 0x1_0000 * WordByte(w, 2) + 0x100_0000 * WordByte(w, 3)
  {
    var q := w / 0x100;
    var r := q / 0x100;
    assert w / 0x1_0000 == r && w / 0x100_0000 == r / 0x100;
    assert r / 0x100 < 0x100;
  }

  lemma BytesOfWord(v: u32, w: u32)
    requires forall i :: 0 <= i < 4 ==> WordByte(v, i) == WordByte(w, i)
    ensures v == w
  {
    WordParts(v);
    WordParts(w);
    hide WordByte;
    assert WordByte(v, 0) == WordByte(w, 0) && WordByte(v, 1) == WordByte(w, 1);
    assert WordByte(v, 2) == WordByte(w, 2) && WordByte(v, 3) == WordByte(w, 3);
  }

  /** Blocks of one length that pad to the same words are equal. */
  lemma BlockInjective(a: seq<byte>, b: seq<byte>)
    requires |a| == |b| <= BLOCK_LEN && BlockWords(Padded(a)) == BlockWords(Padded(b))
    ensures a == b
  {
    WordsInjective(Padded(a), Padded(b));
    assert Padded(a)[..|a|] == a && Padded(b)[..|b|] == b;
  }

  lemma HalvesInjective(a: Words8, b: Words8, c: Words8, d: Words8)
    requires a + b == c + d
    ensures a == c && b == d
  {
    assert (a + b)[..8] == a && (a + b)[8..] == b && (c + d)[..8] == c && (c + d)[8..] == d;
  }

  // ---- flags ----

  /** The flags of the plain hash, the keyed hash, and the two steps of key derivation. */
  predicate IsMode(m: Mode) {
    m.flags == 0 || m.flags == 16 || m.flags == 32 || m.flags == 64
  }

  /** Flags tell the mode, a chunk's start, its end, and a parent. */
  lemma FlagsTell(a: Mode, b: Mode, j: nat, k: nat)
    requires IsMode(a) && IsMode(b)
    ensures a.flags | StartFlag(j) == b.flags | StartFlag(k) ==> a.flags == b.flags && (j == 0 <==> k == 0)
    ensures a.flags | StartFlag(j) | CHUNK_END == b.flags | StartFlag(k) | CHUNK_END ==>
              a.flags == b.flags && (j == 0 <==> k == 0)
    ensures PARENT | a.flags == PARENT | b.flags ==> a.flags == b.flags
    ensures a.flags | StartFlag(j) | CHUNK_END != PARENT | b.flags
  {
  }

  lemma RootFlag(x: Flags, y: Flags)
    requires !HasRoot(x) && !HasRoot(y) && WithRoot(x) == WithRoot(y)
    ensures x == y
  {
  }

  lemma NotRoot(m: Mode, k: nat)
    requires IsMode(m)
    ensures !HasRoot(m.flags | StartFlag(k) | CHUNK_END) && !HasRoot(PARENT | m.flags)
  {
  }

  // ---- equal outputs, step by step ----

  lemma CollideMore(f: Compress, a: set<Input>, b: set<Input>, a': set<Input>, b': set<Input>)
    requires Collide(f, a, b) && a <= a' && b <= b'
    ensures Collide(f, a', b')
  {
  }

  lemma CollideAt(f: Compress, a: set<Input>, b: set<Input>, x: Input, y: Input)
    requires x in a && y in b && x != y && Compressed(f, x) == Compressed(f, y)
    ensures Collide(f, a, b)
  {
  }

  /** The last of `k` blocks: its output is the chaining value, and its input is among theirs. */
  lemma LastBlock(m: Mode, a: seq<byte>, s: nat, k: nat)
    requires 0 < k && BLOCK_LEN * k <= |a|
    ensures BlocksCv(m, a, s, k) == Compressed(m.compress, BlockInput(m, a, s, k - 1))
    ensures BlockInput(m, a, s, k - 1) in BlockInputs(m, a, s, k)
    ensures BlockInputs(m, a, s, k - 1) <= BlockInputs(m, a, s, k)
  {
  }

  lemma SameBlock(m: Mode, a: seq<byte>, s: nat, j: nat, n: Mode, b: seq<byte>, t: nat, k: nat)
    requires IsMode(m) && IsMode(n) && BLOCK_LEN * (j + 1) <= |a| && BLOCK_LEN * (k + 1) <= |b|
    requires BlockInput(m, a, s, j) == BlockInput(n, b, t, k)
    ensures BlocksCv(m, a, s, j) == BlocksCv(n, b, t, k) && (j == 0 <==> k == 0)
    ensures a[BLOCK_LEN * j..BLOCK_LEN * (j + 1)] == b[BLOCK_LEN * k..BLOCK_LEN * (k + 1)]
  {
    hide StartFlag, IsMode, WordsFromBytes, BlocksCv;
    FlagsTell(m, n, j, k);
    WordsInjective(a[BLOCK_LEN * j..BLOCK_LEN * (j + 1)], b[BLOCK_LEN * k..BLOCK_LEN * (k + 1)]);
  }

  /** Equal chaining values inside two chunks come from equal blocks, or there is a collision. */
  lemma {:induction false} SameChain(m: Mode, a: seq<byte>, s: nat, j: nat, n: Mode, b: seq<byte>, t: nat, k: nat)
    requires m.compress == n.compress && IsMode(m) && IsMode(n) && m.flags == n.flags
    requires BLOCK_LEN * j <= |a| && BLOCK_LEN * k <= |b| && (j == 0 <==> k == 0)
    requires BlocksCv(m, a, s, j) == BlocksCv(n, b, t, k)
    ensures (m == n && j == k && a[..BLOCK_LEN * j] == b[..BLOCK_LEN * k])
            || Collide(m.compress, BlockInputs(m, a, s, j), BlockInputs(n, b, t, k))
  {
    if j > 0 {
      hide IsMode, Collide, BlocksCv, BlockInput, BlockInputs, Compressed;
      var x, y := BlockInput(m, a, s, j - 1), BlockInput(n, b, t, k - 1);
      var xs, ys := BlockInputs(m, a, s, j), BlockInputs(n, b, t, k);
      LastBlock(m, a, s, j);
      LastBlock(n, b, t, k);
      if x != y {
        CollideAt(m.compress, xs, ys, x, y);
      } else {
        SameBlock(m, a, s, j - 1, n, b, t, k - 1);
        SameChain(m, a, s, j - 1, n, b, t, k - 1);
        if m == n && j == k && a[..BLOCK_LEN * (j - 1)] == b[..BLOCK_LEN * (k - 1)] {
          OneBlockMore(a, b, j);
        } else {
          CollideMore(m.compress, BlockInputs(m, a, s, j - 1), BlockInputs(n, b, t, k - 1), xs, ys);
        }
      }
    }
  }

  lemma OneBlockMore(a: seq<byte>, b: seq<byte>, k: nat)
    requires k > 0 && BLOCK_LEN * k <= |a| && BLOCK_LEN * k <= |b|
    requires a[..BLOCK_LEN * (k - 1)] == b[..BLOCK_LEN * (k - 1)]
    requires a[BLOCK_LEN * (k - 1)..BLOCK_LEN * k] == b[BLOCK_LEN * (k - 1)..BLOCK_LEN * k]
    ensures a[..BLOCK_LEN * k] == b[..BLOCK_LEN * k]
  {
    assert a[..BLOCK_LEN * k] == a[..BLOCK_LEN * (k - 1)] + a[BLOCK_LEN * (k - 1)..BLOCK_LEN * k];
    assert b[..BLOCK_LEN * k] == b[..BLOCK_LEN * (k - 1)] + b[BLOCK_LEN * (k - 1)..BLOCK_LEN * k];
  }

  /** Two nodes that agree in all but the counter, which the root replaces. */
  predicate SameNode(a: Output, b: Output) {
    && a.inputChainingValue == b.inputChainingValue && a.blockWords == b.blockWords
    && a.blockLen == b.blockLen && a.flags == b.flags
  }

  /** Chunks with the same node are equal, or there is a collision. */
  lemma SameChunk(m: Mode, a: seq<byte>, s: nat, n: Mode, b: seq<byte>, t: nat)
    requires m.compress == n.compress && IsMode(m) && IsMode(n)
    requires SameNode(ChunkOutput(m, a, s), ChunkOutput(n, b, t))
    ensures (m == n && a == b)
            || Collide(m.compress, BlockInputs(m, a, s, BlocksBeforeLast(|a|)),
                       BlockInputs(n, b, t, BlocksBeforeLast(|b|)))
  {
    hide StartFlag, IsMode, BlockWords, Collide, BlocksCv, BlockInputs;
    var j, k := BlocksBeforeLast(|a|), BlocksBeforeLast(|b|);
    FlagsTell(m, n, j, k);
    SameChain(m, a, s, j, n, b, t, k);
    BlockInjective(a[BLOCK_LEN * j..], b[BLOCK_LEN * k..]);
    assert a == a[..BLOCK_LEN * j] + a[BLOCK_LEN * j..];
    assert b == b[..BLOCK_LEN * k] + b[BLOCK_LEN * k..];
  }

  lemma NodeKinds(m: Mode, a: seq<byte>, s: nat, n: Mode, b: seq<byte>, t: nat)
    requires IsMode(m) && IsMode(n) && |a| <= CHUNK_LEN < |b|
    ensures Tree(m, a, s).flags != Tree(n, b, t).flags
  {
    FlagsTell(m, n, BlocksBeforeLast(|a|), 0);
  }

  lemma RootInputs(m: Mode, a: seq<byte>, s: nat)
    requires CHUNK_LEN < |a|
    ensures var c := LeftChunks(|a|);
      && SubtreeInputs(m, a[..CHUNK_LEN * c], s) <= TreeInputs(m, a, s)
      && SubtreeInputs(m, a[CHUNK_LEN * c..], s + c) <= TreeInputs(m, a, s)
  {
    hide SubtreeInputs;
  }

  /** The root of a message of more than one chunk. */
  lemma RootBlock(m: Mode, a: seq<byte>, s: nat)
    requires CHUNK_LEN < |a|
    ensures var c := LeftChunks(|a|);
      && Tree(m, a, s).blockWords == ChainingValue(m.compress, Tree(m, a[..CHUNK_LEN * c], s))
                                     + ChainingValue(m.compress, Tree(m, a[CHUNK_LEN * c..], s + c))
      && Tree(m, a, s).flags == PARENT | m.flags && Tree(m, a, s).inputChainingValue == m.key
  {
    hide ChainingValue;
  }

  /** Messages whose trees have the same root node are equal, or there is a collision below the roots. */
  lemma {:induction false} SameTree(m: Mode, a: seq<byte>, s: nat, n: Mode, b: seq<byte>, t: nat)
    requires m.compress == n.compress && IsMode(m) && IsMode(n) && SameNode(Tree(m, a, s), Tree(n, b, t))
    ensures (m == n && a == b) || Collide(m.compress, TreeInputs(m, a, s), TreeInputs(n, b, t))
    decreases |a|, 2
  {
    hide IsMode, Collide, ChainingValue, SubtreeInputs, BlockInputs, ChunkOutput, ParentOutput, SameNode;
    if |a| <= CHUNK_LEN && |b| <= CHUNK_LEN {
      SameChunk(m, a, s, n, b, t);
    } else if |a| <= CHUNK_LEN {
      OneIsChunk(m, a, s, n, b, t);
    } else if |b| <= CHUNK_LEN {
      OneIsChunk(n, b, t, m, a, s);
    } else {
      SameParent(m, a, s, n, b, t);
    }
  }

  lemma OneIsChunk(m: Mode, a: seq<byte>, s: nat, n: Mode, b: seq<byte>, t: nat)
    requires IsMode(m) && IsMode(n) && |a| <= CHUNK_LEN < |b|
    ensures !SameNode(Tree(m, a, s), Tree(n, b, t)) && !SameNode(Tree(n, b, t), Tree(m, a, s))
  {
    NodeKinds(m, a, s, n, b, t);
  }

  lemma {:induction false} SameParent(m: Mode, a: seq<byte>, s: nat, n: Mode, b: seq<byte>, t: nat)
    requires m.compress == n.compress && IsMode(m) && IsMode(n) && SameNode(Tree(m, a, s), Tree(n, b, t))
    requires CHUNK_LEN < |a| && CHUNK_LEN < |b|
    ensures (m == n && a == b) || Collide(m.compress, TreeInputs(m, a, s), TreeInputs(n, b, t))
    decreases |a|, 1
  {
    hide IsMode, Collide, Tree, TreeInputs, SubtreeInputs, ChainingValue, LeftChunks;
    RootBlock(m, a, s);
    RootBlock(n, b, t);
    RootInputs(m, a, s);
    RootInputs(n, b, t);
    var c, d := LeftChunks(|a|), LeftChunks(|b|);
    var a0, a1, b0, b1 := a[..CHUNK_LEN * c], a[CHUNK_LEN * c..], b[..CHUNK_LEN * d], b[CHUNK_LEN * d..];
    HalvesInjective(ChainingValue(m.compress, Tree(m, a0, s)), ChainingValue(m.compress, Tree(m, a1, s + c)),
                    ChainingValue(n.compress, Tree(n, b0, t)), ChainingValue(n.compress, Tree(n, b1, t + d)));
    SameSubtree(m, a0, s, n, b0, t, TreeInputs(m, a, s), TreeInputs(n, b, t));
    SameSubtree(m, a1, s + c, n, b1, t + d, TreeInputs(m, a, s), TreeInputs(n, b, t));
    assert a == a0 + a1 && b == b0 + b1;
  }

  /** Subtrees with the same chaining value hold the same bytes, or there is a collision at or below their roots. */
  lemma {:induction false} SameSubtree(m: Mode, a: seq<byte>, s: nat, n: Mode, b: seq<byte>, t: nat,
                                       above: set<Input>, above': set<Input>)
    requires m.compress == n.compress && IsMode(m) && IsMode(n)
    requires ChainingValue(m.compress, Tree(m, a, s)) == ChainingValue(n.compress, Tree(n, b, t))
    requires SubtreeInputs(m, a, s) <= above && SubtreeInputs(n, b, t) <= above'
    ensures (m == n && a == b) || Collide(m.compress, above, above')
    decreases |a|, 3
  {
    hide IsMode, Collide, TreeInputs, Tree, Compressed, First8;
    var x, y := NodeInput(Tree(m, a, s)), NodeInput(Tree(n, b, t));
    NodeCompressed(m.compress, Tree(m, a, s));
    NodeCompressed(n.compress, Tree(n, b, t));
    if x != y {
      CollideAt(m.compress, above, above', x, y);
    } else {
      SameTree(m, a, s, n, b, t);
      if m != n || a != b {
        CollideMore(m.compress, TreeInputs(m, a, s), TreeInputs(n, b, t), above, above');
      }
    }
  }

  lemma NodeCompressed(f: Compress, o: Output)
    ensures Compressed(f, NodeInput(o)) == ChainingValue(f, o)
  {
  }

  lemma RootNotFlagged(m: Mode, a: seq<byte>, s: nat)
    requires IsMode(m)
    ensures !HasRoot(Tree(m, a, s).flags)
  {
    NotRoot(m, BlocksBeforeLast(|a|));
  }

  /** The 32 bytes of a hash are the first eight output words of the root. */
  lemma HashIsCompressed(m: Mode, a: seq<byte>, n: Mode, b: seq<byte>)
    requires Hash(m, a, OUT_LEN) == Hash(n, b, OUT_LEN)
    ensures Compressed(m.compress, RootInput(Tree(m, a, 0))) == Compressed(n.compress, RootInput(Tree(n, b, 0)))
  {
    hide Tree, WordByte;
    var v := Compressed(m.compress, RootInput(Tree(m, a, 0)));
    var w := Compressed(n.compress, RootInput(Tree(n, b, 0)));
    forall k | 0 <= k < 8 ensures v[k] == w[k] {
      forall i | 0 <= i < 4 ensures WordByte(v[k], i) == WordByte(w[k], i) {
        assert Hash(m, a, OUT_LEN)[4 * k + i] == Hash(n, b, OUT_LEN)[4 * k + i];
        assert (4 * k + i) / 4 == k && (4 * k + i) % 4 == i;
      }
      BytesOfWord(v[k], w[k]);
    }
  }

  lemma SameRoot(a: Output, b: Output)
    requires !HasRoot(a.flags) && !HasRoot(b.flags) && RootInput(a) == RootInput(b)
    ensures SameNode(a, b)
  {
    hide WithRoot, HasRoot;
    RootFlag(a.flags, b.flags);
  }

  /** In any of the modes: when two hashes are equal, so are the messages, the modes and the keys, or two different
      inputs, one of each hash, have the same first eight words of output. */
  lemma HashesTellApart(m: Mode, a: seq<byte>, n: Mode, b: seq<byte>)
    requires m.compress == n.compress && IsMode(m) && IsMode(n)
    requires Hash(m, a, OUT_LEN) == Hash(n, b, OUT_LEN)
    ensures (m == n && a == b) || Collide(m.compress, HashInputs(m, a), HashInputs(n, b))
  {
    hide Tree, TreeInputs, Collide, Hash, IsMode, Compressed, RootInput, SameNode;
    HashIsCompressed(m, a, n, b);
    var x, y := RootInput(Tree(m, a, 0)), RootInput(Tree(n, b, 0));
    if x != y {
      CollideAt(m.compress, HashInputs(m, a), HashInputs(n, b), x, y);
    } else {
      RootNotFlagged(m, a, 0);
      RootNotFlagged(n, b, 0);
      SameRoot(Tree(m, a, 0), Tree(n, b, 0));
      SameTree(m, a, 0, n, b, 0);
      if m != n || a != b {
        CollideMore(m.compress, TreeInputs(m, a, 0), TreeInputs(n, b, 0), HashInputs(m, a), HashInputs(n, b));
      }
    }
  }

  lemma PlainTellsApart(f: Compress, a: seq<byte>, b: seq<byte>)
    requires Hash(HashMode(f), a, OUT_LEN) == Hash(HashMode(f), b, OUT_LEN)
    ensures a == b || Collide(f, HashInputs(HashMode(f), a), HashInputs(HashMode(f), b))
  {
    hide Hash, HashInputs, Collide;
    HashesTellApart(HashMode(f), a, HashMode(f), b);
  }

  /** The keyed hash tells keys apart as well as messages. */
  lemma KeyedTellsApart(f: Compress, key: seq<byte>, a: seq<byte>, key': seq<byte>, b: seq<byte>)
    requires |key| == |key'| == 32
    requires Hash(KeyedMode(f, key), a, OUT_LEN) == Hash(KeyedMode(f, key'), b, OUT_LEN)
    ensures (key == key' && a == b)
            || Collide(f, HashInputs(KeyedMode(f, key), a), HashInputs(KeyedMode(f, key'), b))
  {
    hide Hash, HashInputs, Collide, WordsFromBytes;
    HashesTellApart(KeyedMode(f, key), a, KeyedMode(f, key'), b);
    if KeyWords(key) == KeyWords(key') {
      WordsInjective(key, key');
    }
  }

  /** A derived key tells contexts apart as well as material; the collision may be in the hash of the context. */
  lemma DerivedTellsApart(f: Compress, context: seq<byte>, a: seq<byte>, context': seq<byte>, b: seq<byte>)
    requires Hash(DeriveKeyMode(f, context), a, OUT_LEN) == Hash(DeriveKeyMode(f, context'), b, OUT_LEN)
    ensures
      || (context == context' && a == b)
      || Collide(f, HashInputs(DeriveKeyMode(f, context), a), HashInputs(DeriveKeyMode(f, context'), b))
      || Collide(f, HashInputs(Mode(f, IV, 32), context), HashInputs(Mode(f, IV, 32), context'))
  {
    hide Hash, HashInputs, Collide, WordsFromBytes;
    var m, n := DeriveKeyMode(f, context), DeriveKeyMode(f, context');
    HashesTellApart(m, a, n, b);
    if m == n {
      WordsInjective(Hash(Mode(f, IV, 32), context, OUT_LEN), Hash(Mode(f, IV, 32), context', OUT_LEN));
      HashesTellApart(Mode(f, IV, 32), context, Mode(f, IV, 32), context');
    }
  }

  /** The modes and what marks them (section 2.3 of the BLAKE3 specification). No two have the same flags, so equal
      hashes in different modes come from a collision too. */
  lemma ModesDiffer(f: Compress, key: seq<byte>, context: seq<byte>)
    requires |key| == 32
    ensures HashMode(f).flags == 0 && KeyedMode(f, key).flags == 16 && DeriveKeyMode(f, context).flags == 64
    ensures DeriveKeyMode(f, context).key == KeyWords(Hash(Mode(f, IV, 32), context, 32))
  {
    hide Hash, WordsFromBytes;
  }
}
