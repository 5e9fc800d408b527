/** What the hasher's stack of subtree roots means, and why folding it yields the whole tree. */
module Blake3Tree {
  import opened Wrappers
  import opened Bits
  import opened Blake3Spec

  function TreeCv(m: Mode, msg: seq<byte>, first: nat): Words8 {
    ChainingValue(m.compress, Tree(m, msg, first))
  }

  ghost predicate IsPowerOfTwo(s: nat)
  {
    s == 1 || (s > 1 && s % 2 == 0 && IsPowerOfTwo(s / 2))
  }

  lemma {:induction false} LargestPowerOfTwoUnique(n: nat, s: nat)
    requires IsPowerOfTwo(s) && s <= n < 2 * s
    ensures LargestPowerOfTwo(n) == s
  {
    if n > 1 {
      LargestPowerOfTwoUnique(n / 2, s / 2);
    }
  }

  /** `LargestPowerOfTwo` lives up to its name. */
  lemma {:induction false} LargestPowerOfTwoIsPower(n: nat)
    requires n > 0
    ensures IsPowerOfTwo(LargestPowerOfTwo(n))
  {
    if n > 1 {
      LargestPowerOfTwoIsPower(n / 2);
      assert LargestPowerOfTwo(n) % 2 == 0 && LargestPowerOfTwo(n) / 2 == LargestPowerOfTwo(n / 2);
    }
  }

  /** The left subtree of a longer input has a power of two of chunks, more than half of the input and less than all. */
  lemma LeftSubtree(n: nat)
    requires n > CHUNK_LEN
    ensures IsPowerOfTwo(LeftChunks(n))
    ensures CHUNK_LEN * LeftChunks(n) < n <= 2 * (CHUNK_LEN * LeftChunks(n))
  {
    LargestPowerOfTwoIsPower((n - 1) / CHUNK_LEN);
  }

  /** An input of more than `s` chunks and at most twice that splits after exactly `s` chunks. */
  lemma LeftChunksUnique(n: nat, s: nat)
    requires IsPowerOfTwo(s) && CHUNK_LEN * s < n <= 2 * (CHUNK_LEN * s)
    ensures n > CHUNK_LEN && LeftChunks(n) == s
  {
    LargestPowerOfTwoUnique((n - 1) / CHUNK_LEN, s);
  }

  /** The number of chunks in `q` units of `s` chunks each. */
  function Chunks(q: nat, s: nat): nat {
    if q == 0 then 0 else Chunks(q - 1, s) + s
  }

  /** Bytes in the first `q` units of `s` chunks each. */
  function UnitsLen(q: nat, s: nat): nat {
    CHUNK_LEN * Chunks(q, s)
  }

  lemma {:induction false} ChunksDouble(q: nat, s: nat)
    ensures Chunks(2 * q, s) == Chunks(q, 2 * s)
  {
    if q > 0 {
      ChunksDouble(q - 1, s);
      assert Chunks(2 * q, s) == Chunks(2 * q - 1, s) + s == Chunks(2 * q - 2, s) + s + s;
    }
  }

  lemma ChunksNext(q: nat, s: nat)
    ensures Chunks(q + 1, s) == Chunks(q, s) + s
  {
  }

  lemma {:induction false} ChunksOne(q: nat)
    ensures Chunks(q, 1) == q
  {
    if q > 0 {
      ChunksOne(q - 1);
    }
  }

  /** Root of the subtree over unit number `i`, the units being `s` chunks long. */
  function UnitCv(m: Mode, msg: seq<byte>, i: nat, s: nat): Words8
    requires UnitsLen(i + 1, s) <= |msg|
  {
    TreeCv(m, msg[UnitsLen(i, s)..UnitsLen(i + 1, s)], Chunks(i, s))
  }

  /** The stack for `q` units of `s` chunks: one root for each set bit of `q`, highest first. */
  function Stack(m: Mode, msg: seq<byte>, q: nat, s: nat): (stack: seq<Words8>)
    requires UnitsLen(q, s) <= |msg|
    ensures |stack| == PopCount(q)
    decreases q
  {
    if q == 0 then
      []
    else
      ChunksDouble(q / 2, s);
      Stack(m, msg, q / 2, 2 * s) + if q % 2 == 1 then [UnitCv(m, msg, q - 1, s)] else []
  }

  function PopCount(q: nat): nat {
    if q == 0 then 0 else PopCount(q / 2) + q % 2
  }

  /** Fewer than 2^(k+1) - 1 chunks never need more than `k` stack entries. */
  lemma {:induction false} PopCountBound(q: nat, k: nat)
    requires q < Pow2(k + 1) - 1
    ensures PopCount(q) <= k
  {
    if q > 0 {
      if q % 2 == 1 && q / 2 >= Pow2(k) - 1 {
        assert false;
      }
      if q % 2 == 0 {
        PopCountHalf(q / 2, k);
      } else {
        PopCountBound(q / 2, k - 1);
      }
    }
  }

  lemma {:induction false} PopCountHalf(q: nat, k: nat)
    requires q < Pow2(k)
    ensures PopCount(q) <= k
  {
    if q > 0 {
      PopCountHalf(q / 2, k - 1);
    }
  }

  /** The bound is sharp: 2^k - 1 chunks need `k` entries. */
  lemma {:induction false} PopCountFull(k: nat)
    ensures PopCount(Pow2(k) - 1) == k
  {
    if k > 0 {
      assert (Pow2(k) - 1) / 2 == Pow2(k - 1) - 1;
      PopCountFull(k - 1);
    }
  }

  lemma DoublePower(s: nat)
    requires IsPowerOfTwo(s)
    ensures IsPowerOfTwo(2 * s)
  {
    assert 2 * s / 2 == s;
  }

  /** Two adjacent perfect subtrees merge into one of twice the size. */
  lemma MergeUnits(m: Mode, msg: seq<byte>, j: nat, s: nat)
    requires IsPowerOfTwo(s) && UnitsLen(2 * j + 2, s) <= |msg|
    ensures IsPowerOfTwo(2 * s)
    ensures UnitsLen(2 * j + 1, s) <= |msg| && UnitsLen(j + 1, 2 * s) <= |msg|
    ensures ChainingValue(m.compress, ParentOutput(m, UnitCv(m, msg, 2 * j, s), UnitCv(m, msg, 2 * j + 1, s)))
         == UnitCv(m, msg, j, 2 * s)
  {
    hide Tree, ParentOutput, Chunks, IsPowerOfTwo;
    DoublePower(s);
    ChunksDouble(j, s);
    ChunksDouble(j + 1, s);
    ChunksNext(2 * j, s);
    ChunksNext(2 * j + 1, s);
    var a, b, c := UnitsLen(2 * j, s), UnitsLen(2 * j + 1, s), UnitsLen(2 * j + 2, s);
    assert b == a + CHUNK_LEN * s && c == b + CHUNK_LEN * s;
    SplitTree(m, msg[a..c], Chunks(2 * j, s), s);
    assert msg[a..c][..CHUNK_LEN * s] == msg[a..b] && msg[a..c][CHUNK_LEN * s..] == msg[b..c];
  }

  /** The tree over more than `s` and at most `2 * s` chunks has its first `s` chunks on the left. */
  lemma SplitTree(m: Mode, msg: seq<byte>, first: nat, s: nat)
    requires IsPowerOfTwo(s) && CHUNK_LEN * s < |msg| <= 2 * (CHUNK_LEN * s)
    ensures Tree(m, msg, first) == ParentOutput(m, TreeCv(m, msg[..CHUNK_LEN * s], first),
                                                TreeCv(m, msg[CHUNK_LEN * s..], first + s))
  {
    hide ChunkOutput, LeftChunks, ChainingValue, ParentOutput, IsPowerOfTwo;
    LeftChunksUnique(|msg|, s);
  }

  /** Later input does not change the stack for the units before it. */
  lemma {:induction false} StackPrefix(m: Mode, msg: seq<byte>, more: seq<byte>, q: nat, s: nat)
    requires UnitsLen(q, s) <= |msg|
    ensures Stack(m, msg + more, q, s) == Stack(m, msg, q, s)
    decreases q
  {
    if q > 0 {
      ChunksDouble(q / 2, s);
      StackPrefix(m, msg, more, q / 2, 2 * s);
      if q % 2 == 1 {
        assert (msg + more)[UnitsLen(q - 1, s)..UnitsLen(q, s)] == msg[UnitsLen(q - 1, s)..UnitsLen(q, s)];
      }
    }
  }

  /** Adding unit `q` when `q` is even just pushes its root. */
  lemma StackPush(m: Mode, msg: seq<byte>, q: nat, s: nat)
    requires q % 2 == 0 && UnitsLen(q + 1, s) <= |msg|
    ensures Stack(m, msg, q + 1, s) == Stack(m, msg, q, s) + [UnitCv(m, msg, q, s)]
  {
    assert (q + 1) / 2 == q / 2;
  }

  /** When `q` is odd the top of the stack is the left sibling of unit `q`, above the stack of double units. */
  lemma StackPop(m: Mode, msg: seq<byte>, j: nat, s: nat)
    requires UnitsLen(2 * j + 1, s) <= |msg|
    ensures UnitsLen(j, 2 * s) == UnitsLen(2 * j, s) <= |msg|
    ensures Stack(m, msg, 2 * j + 1, s) == Stack(m, msg, j, 2 * s) + [UnitCv(m, msg, 2 * j, s)]
  {
    ChunksDouble(j, s);
    assert (2 * j + 1) / 2 == j;
  }

  /** An even number of units stacks like half as many units of twice the size. */
  lemma StackHalve(m: Mode, msg: seq<byte>, j: nat, s: nat)
    requires UnitsLen(2 * j, s) <= |msg|
    ensures UnitsLen(j, 2 * s) == UnitsLen(2 * j, s)
    ensures Stack(m, msg, 2 * j, s) == Stack(m, msg, j, 2 * s)
  {
    hide UnitCv, PopCount;
    ChunksDouble(j, s);
    assert 2 * j / 2 == j && 2 * j % 2 == 0;
    if j == 0 {
      assert Stack(m, msg, 0, s) == [] == Stack(m, msg, 0, 2 * s);
    }
  }

  lemma TreeOfChunk(m: Mode, chunk: seq<byte>, first: nat)
    requires |chunk| <= CHUNK_LEN
    ensures Tree(m, chunk, first) == ChunkOutput(m, chunk, first)
  {
  }

  /** `q` without its `k` lowest bits. */
  function Shift(q: nat, k: nat): nat {
    if k == 0 then q else Shift(q / 2, k - 1)
  }

  /** `s` doubled `k` times. */
  function Doubled(s: nat, k: nat): nat
    decreases k
  {
    if k == 0 then s else Doubled(2 * s, k - 1)
  }

  /** The entry for set bit `k` of `q` is the root of a perfect subtree of 2^k units, the one that ends where the
      higher bits and this one say; it stands after the entries of the higher bits. */
  lemma {:induction false} EntryOfBit(m: Mode, msg: seq<byte>, q: nat, s: nat, k: nat)
    requires Shift(q, k) % 2 == 1 && UnitsLen(q, s) <= |msg|
    ensures PopCount(Shift(q, k + 1)) < PopCount(q)
    ensures UnitsLen(Shift(q, k), Doubled(s, k)) <= |msg|
    ensures Stack(m, msg, q, s)[PopCount(Shift(q, k + 1))] == UnitCv(m, msg, Shift(q, k) - 1, Doubled(s, k))
    decreases k
  {
    hide TreeCv;
    ChunksDouble(q / 2, s);
    assert Shift(q, 1) == q / 2;
    if k > 0 {
      assert Shift(q, k + 1) == Shift(q / 2, k);
      if q == 0 {
        ShiftZero(k);
      }
      EntryOfBit(m, msg, q / 2, 2 * s, k - 1);
    }
  }

  lemma {:induction false} ShiftZero(k: nat)
    ensures Shift(0, k) == 0
  {
    if k > 0 {
      ShiftZero(k - 1);
    }
  }

  /** Combine a stack of roots, top first, with the node to their right. */
  function Fold(m: Mode, stack: seq<Words8>, right: Output): Output {
    if stack == [] then
      right
    else
      Fold(m, stack[..|stack| - 1], ParentOutput(m, stack[|stack| - 1], ChainingValue(m.compress, right)))
  }

  /** The stack of the first `q` units folded with the tree over the rest. */
  ghost function FoldRest(m: Mode, msg: seq<byte>, q: nat, s: nat): Output
    requires UnitsLen(q, s) <= |msg|
  {
    Fold(m, Stack(m, msg, q, s), Tree(m, msg[UnitsLen(q, s)..], Chunks(q, s)))
  }

  /** Folding the stack of the first `q` units with the tree over the rest yields the whole tree, when the
      rest is not empty and no longer than a unit. */
  lemma {:induction false} FoldIsTree(m: Mode, msg: seq<byte>, q: nat, s: nat)
    requires IsPowerOfTwo(s)
    requires UnitsLen(q, s) <= |msg| <= UnitsLen(q, s) + CHUNK_LEN * s
    requires q > 0 ==> UnitsLen(q, s) < |msg|
    ensures FoldRest(m, msg, q, s) == Tree(m, msg, 0)
    decreases q
  {
    hide FoldRest, Tree;
    if q == 0 {
      FoldNothing(m, msg, s);
    } else {
      var j := q / 2;
      ChunksDouble(j, s);
      FoldIsTree(m, msg, j, 2 * s);
      if q % 2 == 0 {
        FoldEven(m, msg, j, s);
      } else {
        FoldOdd(m, msg, j, s);
      }
    }
  }

  lemma FoldNothing(m: Mode, msg: seq<byte>, s: nat)
    ensures FoldRest(m, msg, 0, s) == Tree(m, msg, 0)
  {
    hide Tree;
    assert msg[0..] == msg;
  }

  lemma FoldEven(m: Mode, msg: seq<byte>, j: nat, s: nat)
    requires UnitsLen(2 * j, s) <= |msg|
    ensures UnitsLen(j, 2 * s) == UnitsLen(2 * j, s)
    ensures FoldRest(m, msg, 2 * j, s) == FoldRest(m, msg, j, 2 * s)
  {
    hide Tree, PopCount, Stack, Fold;
    ChunksDouble(j, s);
    StackHalve(m, msg, j, s);
  }

  lemma FoldOdd(m: Mode, msg: seq<byte>, j: nat, s: nat)
    requires IsPowerOfTwo(s)
    requires UnitsLen(2 * j + 1, s) < |msg| <= UnitsLen(2 * j + 1, s) + CHUNK_LEN * s
    ensures UnitsLen(j, 2 * s) == UnitsLen(2 * j, s) <= |msg|
    ensures FoldRest(m, msg, 2 * j + 1, s) == FoldRest(m, msg, j, 2 * s)
  {
    hide Tree, ParentOutput, PopCount, Stack, Fold;
    ChunksDouble(j, s);
    StackPop(m, msg, j, s);
    var wide, cut := UnitsLen(2 * j, s), UnitsLen(2 * j + 1, s);
    var rest := msg[wide..];
    SplitTree(m, rest, Chunks(2 * j, s), s);
    assert rest[..CHUNK_LEN * s] == msg[wide..cut] && rest[CHUNK_LEN * s..] == msg[cut..];
    FoldTop(m, Stack(m, msg, j, 2 * s), UnitCv(m, msg, 2 * j, s), Tree(m, msg[cut..], Chunks(2 * j + 1, s)));
  }

  /** Folding starts with the top of the stack. */
  lemma FoldTop(m: Mode, below: seq<Words8>, top: Words8, right: Output)
    ensures Fold(m, below + [top], right) == Fold(m, below, ParentOutput(m, top, ChainingValue(m.compress, right)))
  {
    hide ParentOutput, ChainingValue;
    assert (below + [top])[..|below|] == below;
  }
}
