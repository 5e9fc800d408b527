/** The incremental BLAKE3 hasher: a stack machine that must agree with the tree of Blake3Spec. */
module Blake3 {
  import opened Wrappers
  import opened Bits
  import opened Blake3Spec
  import opened Blake3Tree
  import opened Blake3Chunk

  /** The longest input whose tree fits the stack: 2^55 - 1 chunks. It is 1024 bytes short of
      twice the 2^64 bytes that the BLAKE3 specification allows. */
  const MAX_CHUNKS := 0x80_0000_0000_0000 - 1
  const MAX_INPUT := CHUNK_LEN * MAX_CHUNKS

  /** A number of chunks fits the stack whenever it is below `MAX_CHUNKS`, and at `MAX_CHUNKS` a push would be
      dropped. */
  lemma StackDepth(n: nat)
    ensures n < MAX_CHUNKS ==> PopCount(n) <= MAX_DEPTH
    ensures n == MAX_CHUNKS ==> PopCount(n) == MAX_DEPTH + 1
  {
    MaxChunks();
    if n < MAX_CHUNKS {
      PopCountBound(n, MAX_DEPTH);
    } else {
      PopCountFull(MAX_DEPTH + 1);
    }
  }

  lemma MaxChunks()
    ensures Pow2(55) == MAX_CHUNKS + 1
  {
    assert Pow2(7) == 128;
    Pow2Eight(7);
    Pow2Eight(15);
    Pow2Eight(23);
    Pow2Eight(31);
    Pow2Eight(39);
    Pow2Eight(47);
  }

  lemma Pow2Eight(k: nat)
    ensures Pow2(k + 8) == 256 * Pow2(k)
  {
    assert Pow2(k + 2) == 2 * Pow2(k + 1) == 4 * Pow2(k);
    assert Pow2(k + 4) == 2 * Pow2(k + 3) == 4 * Pow2(k + 2);
    assert Pow2(k + 6) == 2 * Pow2(k + 5) == 4 * Pow2(k + 4);
    assert Pow2(k + 8) == 2 * Pow2(k + 7) == 4 * Pow2(k + 6);
  }

  /** One more chunk is one more unit, and leaves the stack of those before it as it is. */
  lemma OneMoreChunk(m: Mode, completed: seq<byte>, chunk: seq<byte>, n: nat)
    requires |completed| == UnitsLen(n, 1) && |chunk| == CHUNK_LEN
    ensures UnitsLen(n, 1) <= UnitsLen(n + 1, 1) == |completed + chunk| && |completed + chunk| / CHUNK_LEN == n + 1
    ensures Stack(m, completed + chunk, n, 1) == Stack(m, completed, n, 1)
    ensures UnitCv(m, completed + chunk, n, 1) == TreeCv(m, chunk, n)
  {
    hide Stack, TreeCv;
    ChunksOne(n);
    ChunksOne(n + 1);
    StackPrefix(m, completed, chunk, n, 1);
    assert (completed + chunk)[|completed|..|completed + chunk|] == chunk;
  }

  class Hasher {
    const mode: Mode
    var chunkState: ChunkState
    const cvStack: array<Words8>
    var cvStackLen: nat

    /** The bytes of all completed chunks. */
    ghost var completed: seq<byte>

    /** Every byte absorbed so far. */
    ghost function Message(): seq<byte>
      reads this, chunkState
    {
      completed + chunkState.content
    }

    ghost predicate Framed()
      reads this, cvStack, chunkState, chunkState.block
    {
      && chunkState.Valid()
      && chunkState.mode == mode
      && |completed| == CHUNK_LEN * chunkState.chunkCounter
      && StackValid()
    }

    /** A full chunk stays in the chunk state until more input shows that it is not the last. */
    ghost predicate Valid()
      reads this, cvStack, chunkState, chunkState.block
    {
      Framed() && (completed != [] ==> chunkState.content != [])
    }

    /** The stack holds one subtree root for each set bit of the number of completed chunks. */
    ghost predicate StackValid()
      reads this, cvStack
    {
      && cvStack.Length == MAX_DEPTH
      && cvStackLen <= MAX_DEPTH
      && var n := |completed| / CHUNK_LEN;
         && |completed| == UnitsLen(n, 1)
         && n < MAX_CHUNKS
         && cvStack[..cvStackLen] == Stack(mode, completed, n, 1)
    }

    constructor (mode: Mode)
      ensures Valid() && fresh(cvStack) && fresh(chunkState) && fresh(chunkState.block)
      ensures Message() == [] && this.mode == mode
    {
      this.mode := mode;
      chunkState := new ChunkState(mode, 0);
      cvStack := new Words8[MAX_DEPTH](_ => [0, 0, 0, 0, 0, 0, 0, 0]);
      cvStackLen := 0;
      completed := [];
    }

    /** Push a root; a full stack drops it. */
    method PushStack(cv: Words8)
      requires cvStack.Length == MAX_DEPTH && cvStackLen <= MAX_DEPTH
      modifies this`cvStackLen, cvStack
      ensures cvStackLen <= MAX_DEPTH
      ensures old(cvStackLen) < MAX_DEPTH ==> cvStack[..cvStackLen] == old(cvStack[..cvStackLen]) + [cv]
      ensures old(cvStackLen) == MAX_DEPTH ==> cvStack[..cvStackLen] == old(cvStack[..cvStackLen])
    {
      if cvStackLen < MAX_DEPTH {
        cvStack[cvStackLen] := cv;
        cvStackLen := cvStackLen + 1;
      }
    }

    /** Pop a root; an empty stack yields zeros. */
    method PopStack() returns (cv: Words8)
      requires cvStack.Length == MAX_DEPTH && cvStackLen <= MAX_DEPTH
      modifies this`cvStackLen
      ensures cvStackLen <= MAX_DEPTH
      ensures old(cvStackLen) > 0 ==> old(cvStack[..cvStackLen]) == cvStack[..cvStackLen] + [cv]
      ensures old(cvStackLen) == 0 ==> cvStackLen == 0 && cv == [0, 0, 0, 0, 0, 0, 0, 0]
    {
      if cvStackLen == 0 {
        return [0, 0, 0, 0, 0, 0, 0, 0];
      }
      cvStackLen := cvStackLen - 1;
      cv := cvStack[cvStackLen];
    }

    /** Join the top of the stack, the left sibling, with the root `cv` of a new unit. */
    method MergeTop(cv: Words8, ghost msg: seq<byte>, ghost j: nat, ghost s: nat) returns (merged: Words8)
      requires cvStack.Length == MAX_DEPTH && cvStackLen <= MAX_DEPTH
      requires IsPowerOfTwo(s) && UnitsLen(2 * j + 2, s) <= |msg|
      requires UnitsLen(2 * j + 1, s) <= |msg| && cvStack[..cvStackLen] == Stack(mode, msg, 2 * j + 1, s)
      requires cv == UnitCv(mode, msg, 2 * j + 1, s)
      modifies this`cvStackLen
      ensures cvStackLen <= MAX_DEPTH && IsPowerOfTwo(2 * s)
      ensures UnitsLen(j, 2 * s) <= UnitsLen(j + 1, 2 * s) <= |msg|
      ensures cvStack[..cvStackLen] == Stack(mode, msg, j, 2 * s)
      ensures merged == UnitCv(mode, msg, j, 2 * s)
    {
      hide Stack, UnitCv, ParentOutput, ChainingValue, PopCount;
      StackPop(mode, msg, j, s);
      MergeUnits(mode, msg, j, s);
      ghost var roots := Stack(mode, msg, j, 2 * s);
      var left := PopStack();
      assert cvStack[..cvStackLen] == (roots + [left])[..|roots|] == roots;
      merged := ChainingValue(mode.compress, ParentOutput(mode, left, cv));
    }

    /** Merge completed subtrees: as many times as the new chunk count has trailing zero bits. */
    method AddChunkChainingValue(newCv: Words8, totalChunks: nat, ghost chunk: seq<byte>)
      requires StackValid()
      requires totalChunks == |completed| / CHUNK_LEN + 1 < MAX_CHUNKS
      requires |chunk| == CHUNK_LEN && newCv == TreeCv(mode, chunk, totalChunks - 1)
      modifies this`cvStackLen, this`completed, cvStack
      ensures completed == old(completed) + chunk
      ensures StackValid()
    {
      hide Tree, TreeCv, Stack, PopCount, ParentOutput, ChainingValue;
      ghost var msg := completed + chunk;
      ghost var s: nat := 1;
      var cv, t: nat := newCv, totalChunks;
      OneMoreChunk(mode, completed, chunk, t - 1);
      StackDepth(t);
      assert IsPowerOfTwo(s);
      hide UnitCv, IsPowerOfTwo, Chunks;
      while t % 2 == 0
        invariant t > 0 && IsPowerOfTwo(s) && UnitsLen(t - 1, s) <= UnitsLen(t, s) <= |msg|
        invariant cvStackLen <= MAX_DEPTH && cvStack[..cvStackLen] == Stack(mode, msg, t - 1, s)
        invariant cv == UnitCv(mode, msg, t - 1, s)
        invariant Stack(mode, msg, t, s) == Stack(mode, msg, totalChunks, 1)
        decreases t
      {
        StackHalve(mode, msg, t / 2, s);
        cv := MergeTop(cv, msg, t / 2 - 1, s);
        t := t / 2;
        s := 2 * s;
      }
      StackPush(mode, msg, t - 1, s);
      PushStack(cv);
      completed := msg;
    }

    /** Absorb more input. */
    method Update(input: seq<byte>)
      requires Valid()
      requires |Message()| + |input| <= MAX_INPUT
      modifies this, cvStack, chunkState, chunkState.block
      ensures Valid()
      ensures Message() == old(Message()) + input
      ensures chunkState == old(chunkState) || fresh(chunkState)
      ensures chunkState.block == old(chunkState.block) || fresh(chunkState.block)
    {
      var rest := input;
      while rest != []
        invariant Valid()
        invariant Message() + rest == old(Message()) + input
        invariant chunkState == old(chunkState) || fresh(chunkState)
        invariant chunkState.block == old(chunkState.block) || fresh(chunkState.block)
        decreases |rest|
      {
        hide StackValid, ChunkState.Valid;
        if chunkState.Len() == CHUNK_LEN {
          FinishChunk();
        }
        var want := CHUNK_LEN - chunkState.Len();
        var take := if want < |rest| then want else |rest|;
        AbsorbPiece([], Message(), rest, take);
        FeedChunk(rest[..take]);
        rest := rest[take..];
      }
    }

    /** Move the full current chunk onto the stack and start the next one. */
    method FinishChunk()
      requires Framed() && |chunkState.content| == CHUNK_LEN
      requires |Message()| < MAX_INPUT
      modifies this, cvStack
      ensures Framed() && chunkState.content == []
      ensures Message() == old(Message())
      ensures fresh(chunkState) && fresh(chunkState.block)
    {
      var node := chunkState.ChunkNode();
      var totalChunks := chunkState.chunkCounter + 1;
      AddChunkChainingValue(ChainingValue(mode.compress, node), totalChunks, chunkState.content);
      chunkState := new ChunkState(mode, totalChunks);
    }

    /** Absorb a piece that fits in the current chunk. */
    method FeedChunk(piece: seq<byte>)
      requires Framed()
      requires piece != [] && |chunkState.content| + |piece| <= CHUNK_LEN
      modifies chunkState, chunkState.block
      ensures Valid() && Message() == old(Message()) + piece
      ensures chunkState.block == old(chunkState.block) || fresh(chunkState.block)
    {
      hide Stack;
      chunkState.Update(piece);
    }

    /** Write the hash of everything absorbed so far; the hasher can go on afterwards. */
    method Finalize(out: array<byte>)
      requires Valid()
      requires out != chunkState.block
      modifies out
      ensures out[..] == Hash(mode, Message(), out.Length)
    {
      hide Stack, PopCount, Tree, BlocksCv, ChunkOutput, ParentOutput, ChainingValue;
      var output := chunkState.ChunkNode();
      var n: nat := cvStackLen;
      ghost var node := output;
      while n > 0
        invariant n <= cvStackLen
        invariant Fold(mode, cvStack[..n], output) == Fold(mode, cvStack[..cvStackLen], node)
      {
        n := n - 1;
        assert cvStack[..n + 1][..n] == cvStack[..n];
        output := ParentOutput(mode, cvStack[n], ChainingValue(mode.compress, output));
      }
      ghost var chunks := |completed| / CHUNK_LEN;
      ChunksOne(chunks);
      TreeOfChunk(mode, chunkState.content, chunks);
      assert Message()[|completed|..] == chunkState.content;
      StackPrefix(mode, completed, chunkState.content, chunks, 1);
      FoldIsTree(mode, Message(), chunks, 1);
      RootOutputBytes(mode.compress, output, out);
    }
  }

  /** Extendable output, one compression for each 64 bytes. */
  method RootOutputBytes(f: Compress, o: Output, out: array<byte>)
    modifies out
    ensures out[..] == Xof(f, o, out.Length)
  {
    hide XofByte, WordByte;
    var start: nat, counter: nat := 0, 0;
    while start < out.Length
      invariant start == 64 * counter || start == out.Length
      invariant start <= out.Length
      invariant forall i :: 0 <= i < start ==> out[i] == XofByte(f, o, i)
      decreases out.Length - start
    {
      var words := f(o.inputChainingValue, o.blockWords, counter, o.blockLen, o.flags | ROOT);
      var end := if start + 64 < out.Length then start + 64 else out.Length;
      WriteWords(out, start, end, words);
      forall i | start <= i < end ensures out[i] == XofByte(f, o, i) {
        BlockByte(f, o, counter, i);
      }
      start, counter := end, counter + 1;
    }
  }

  /** Byte `i` of the output comes from block number `i / 64`. */
  lemma BlockByte(f: Compress, o: Output, counter: nat, i: nat)
    requires 64 * counter <= i < 64 * counter + 64
    ensures var words := f(o.inputChainingValue, o.blockWords, counter, o.blockLen, o.flags | ROOT);
      WordByte(words[(i - 64 * counter) / 4], (i - 64 * counter) % 4) == XofByte(f, o, i)
  {
    hide WordByte;
    var r := i - 64 * counter;
    assert i / 64 == counter && i % 64 == r by { QuotientUnique(i, 64, counter, r); }
  }

  /** Write `words` little-endian over one stretch of the output, cutting the last word to fit. */
  method WriteWords(out: array<byte>, start: nat, end: nat, words: Words16)
    requires start <= end <= out.Length && end - start <= 64
    modifies out
    ensures forall i :: start <= i < end ==> out[i] == WordByte(words[(i - start) / 4], (i - start) % 4)
    ensures forall i :: 0 <= i < out.Length && !(start <= i < end) ==> out[i] == old(out[i])
  {
    var p: nat, w: nat := start, 0;
    while p < end
      invariant p <= end
      invariant p == start + 4 * w || p == end
      invariant forall i :: start <= i < p ==> out[i] == WordByte(words[(i - start) / 4], (i - start) % 4)
      invariant forall i :: 0 <= i < out.Length && !(start <= i < end) ==> out[i] == old(out[i])
      decreases end - p
    {
      var len := if 4 < end - p then 4 else end - p;
      forall i | 0 <= i < len {
        out[p + i] := WordByte(words[w], i);
      }
      forall i | p <= i < p + len ensures out[i] == WordByte(words[(i - start) / 4], (i - start) % 4) {
        assert (i - start) / 4 == w && (i - start) % 4 == i - p;
        assert out[p + (i - p)] == WordByte(words[w], i - p);
      }
      p, w := p + len, w + 1;
    }
  }

  /** In every reachable state the entry for set bit `k` of the number of completed chunks is the root of a perfect
      subtree of 2^k chunks. */
  lemma StackEntry(h: Hasher, k: nat)
    requires h.Valid() && Shift(h.chunkState.chunkCounter, k) % 2 == 1
    ensures h.cvStackLen == PopCount(h.chunkState.chunkCounter) <= MAX_DEPTH
    ensures PopCount(Shift(h.chunkState.chunkCounter, k + 1)) < h.cvStackLen
    ensures UnitsLen(Shift(h.chunkState.chunkCounter, k), Doubled(1, k)) <= |h.completed|
    ensures h.cvStack[PopCount(Shift(h.chunkState.chunkCounter, k + 1))]
         == UnitCv(h.mode, h.completed, Shift(h.chunkState.chunkCounter, k) - 1, Doubled(1, k))
  {
    var n := h.chunkState.chunkCounter;
    EntryOfBit(h.mode, h.completed, n, 1, k);
    StackDepth(n);
    assert h.cvStack[..h.cvStackLen] == Stack(h.mode, h.completed, n, 1);
  }

  /** Every shorter output is a prefix of every longer one. */
  lemma XofPrefix(f: Compress, o: Output, m: nat, n: nat)
    requires m <= n
    ensures Xof(f, o, n)[..m] == Xof(f, o, m)
  {
  }

  /** However the input is cut into pieces, the result is the hash of the whole. */
  method HashPieces(mode: Mode, pieces: seq<seq<byte>>, n: nat) returns (out: seq<byte>)
    requires |Concat(pieces)| <= MAX_INPUT
    ensures out == Hash(mode, Concat(pieces), n)
  {
    var h := new Hasher(mode);
    for i := 0 to |pieces|
      invariant fresh(h) && fresh(h.cvStack) && fresh(h.chunkState) && fresh(h.chunkState.block)
      invariant h.Valid() && h.mode == mode
      invariant h.Message() == Concat(pieces[..i])
    {
      assert pieces[..i + 1] == pieces[..i] + [pieces[i]];
      assert pieces == pieces[..i + 1] + pieces[i + 1..];
      ConcatSnoc(pieces[..i], pieces[i]);
      ConcatAppend(pieces[..i + 1], pieces[i + 1..]);
      h.Update(pieces[i]);
    }
    assert pieces[..|pieces|] == pieces;
    var buffer := new byte[n];
    h.Finalize(buffer);
    out := buffer[..];
  }

  /** One-shot hash in a given mode. */
  method HashOnce(mode: Mode, input: seq<byte>) returns (out: seq<byte>)
    requires |input| <= MAX_INPUT
    ensures out == Hash(mode, input, OUT_LEN)
  {
    assert Concat([input]) == input;
    out := HashPieces(mode, [input], OUT_LEN);
  }

  /** The plain hash. */
  method PlainHash(f: Compress, input: seq<byte>) returns (out: seq<byte>)
    requires |input| <= MAX_INPUT
    ensures out == Hash(HashMode(f), input, OUT_LEN)
  {
    out := HashOnce(Mode(f, IV, 0), input);
  }

  /** The keyed hash. */
  method KeyedHash(f: Compress, key: seq<byte>, input: seq<byte>) returns (out: seq<byte>)
    requires |key| == 32 && |input| <= MAX_INPUT
    ensures out == Hash(KeyedMode(f, key), input, OUT_LEN)
  {
    out := HashOnce(Mode(f, WordsFromBytes(key), KEYED_HASH), input);
  }

  /** Derive a key: the context string is hashed in its own mode, and the result keys the hash of the material. */
  method DeriveKey(f: Compress, context: seq<byte>, material: seq<byte>) returns (out: seq<byte>)
    requires |context| <= MAX_INPUT && |material| <= MAX_INPUT
    ensures out == Hash(DeriveKeyMode(f, context), material, OUT_LEN)
  {
    var contextKey := HashOnce(Mode(f, IV, DERIVE_KEY_CONTEXT), context);
    out := HashOnce(Mode(f, KeyWords(contextKey), DERIVE_KEY_MATERIAL), material);
  }
}
