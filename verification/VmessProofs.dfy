/** Framing does not depend on how the wire is cut, and decoding undoes encoding. */
module VmessProofs {
  import opened Wrappers
  import opened Bits
  import opened Aead
  import opened VmessSpec

  // ---- how the wire is cut does not matter ----

  /** Input that arrives later continues where the decoder stopped. */
  lemma {:induction false} RunAppend(k: Key, s: DecState, more: Bytes)
    requires |k.iv| == 16 && !s.finished
    ensures var o := Run(k, s);
      if o.error.Some? || o.state.finished then SameOutcome(Run(k, Fed(s, more)), o)
      else Run(k, Fed(s, more)) == Prepend(o.chunks, Run(k, Fed(o.state, more)))
    decreases |s.pending|
  {
    hide SizeAllowed, SizeOf, Opened;
    if |s.pending| >= 2 {
      var s1 := Peek(k, s);
      var t1 := Peek(k, Fed(s, more));
      assert t1 == Fed(s1, more);
      FrontKept(k, s1, more);
      if SizeAllowed(s1) && |s1.pending| >= 2 + SizeOf(s1) && Opened(k, s1).Some? && Opened(k, s1).value != [] {
        var next := Committed(s1);
        assert Committed(t1) == Fed(next, more);
        RunAppend(k, next, more);
        var p, o := Opened(k, s1).value, Run(k, next);
        if o.error.None? && !o.state.finished {
          PrependTwice([p], o.chunks, Run(k, Fed(o.state, more)));
        }
      }
    }
  }

  /** More input does not change the chunk at the front. */
  lemma FrontKept(k: Key, s: DecState, more: Bytes)
    requires |k.iv| == 16 && |s.pending| >= 2 && s.peeked.Some?
    ensures SizeOf(Fed(s, more)) == SizeOf(s) && SizeAllowed(Fed(s, more)) == SizeAllowed(s)
    ensures |s.pending| >= 2 + SizeOf(s) && SizeAllowed(s) ==>
      Opened(k, Fed(s, more)) == Opened(k, s) && Committed(Fed(s, more)) == Fed(Committed(s), more)
  {
    hide Xor16;
    if |s.pending| >= 2 + SizeOf(s) && SizeAllowed(s) {
      var end := 2 + SizeOf(s);
      assert (s.pending + more)[2..end - s.peeked.value.0] == s.pending[2..end - s.peeked.value.0];
      assert (s.pending + more)[end..] == s.pending[end..] + more;
    }
  }

  /** Decoding `a` and then `b` is decoding `a + b`: same chunks, same first error, equivalent state. */
  lemma DecodeSplit(k: Key, s: DecState, a: Bytes, b: Bytes)
    requires |k.iv| == 16
    ensures SameOutcome(DecodeAll(k, s, [a, b]), Decode(k, s, a + b))
  {
    hide Run;
    assert [a, b][1..] == [b] && [b][1..] == [];
    var first := Decode(k, s, a);
    if !s.finished {
      RunAppend(k, Fed(s, a), b);
      assert Fed(Fed(s, a), b) == Fed(s, a + b) by { assert s.pending + a + b == s.pending + (a + b); }
    }
    if first.error.None? {
      var second := Decode(k, first.state, b);
      assert DecodeAll(k, first.state, [b]) == second by { NothingMore(k, first.state, b); }
    }
  }

  lemma NothingMore(k: Key, s: DecState, b: Bytes)
    requires |k.iv| == 16
    ensures DecodeAll(k, s, [b]) == Decode(k, s, b)
  {
    hide Decode;
    var o := Decode(k, s, b);
    assert [b][1..] == [];
    assert DecodeAll(k, o.state, []) == Outcome(o.state, [], None);
  }

  /** However the wire is cut, the decoder puts out the same chunks and fails the same way. */
  lemma {:induction false} DecodeAnySplit(k: Key, s: DecState, inputs: seq<Bytes>)
    requires |k.iv| == 16 && inputs != []
    ensures SameOutcome(DecodeAll(k, s, inputs), Decode(k, s, Concat(inputs)))
    decreases |inputs|
  {
    hide Run;
    var a, rest := inputs[0], inputs[1..];
    if s.finished {
      FinishedStays(k, s, inputs);
    } else if rest == [] {
      assert inputs == [a];
      NothingMore(k, s, a);
      assert Concat(inputs) == a;
    } else {
      var b := Concat(rest);
      var first := Decode(k, s, a);
      RunAppend(k, Fed(s, a), b);
      assert Fed(Fed(s, a), b) == Fed(s, a + b) by { assert s.pending + a + b == s.pending + (a + b); }
      if first.error.None? {
        DecodeAnySplit(k, first.state, rest);
      }
    }
  }

  lemma {:induction false} FinishedStays(k: Key, s: DecState, inputs: seq<Bytes>)
    requires |k.iv| == 16 && s.finished
    ensures DecodeAll(k, s, inputs) == Outcome(s, [], None)
    decreases |inputs|
  {
    if inputs != [] {
      FinishedStays(k, s, inputs[1..]);
    }
  }

  /** What is kept between calls is bounded while the stream goes on. */
  lemma {:induction false} PendingBounded(k: Key, s: DecState)
    requires |k.iv| == 16
    ensures var o := Run(k, s);
      o.error.None? && !o.state.finished ==> |o.state.pending| <= 17409
    decreases |s.pending|
  {
    hide SizeOf, Opened;
    if |s.pending| >= 2 {
      var s1 := Peek(k, s);
      if SizeAllowed(s1) && |s1.pending| >= 2 + SizeOf(s1) && Opened(k, s1).Some? && Opened(k, s1).value != [] {
        PendingBounded(k, Committed(s1));
      }
    }
  }

  /** Over a whole session, whatever arrives, no more than one chunk is kept between calls until the end. */
  lemma {:induction false} SessionPendingBounded(k: Key, s: DecState, inputs: seq<Bytes>)
    requires |k.iv| == 16 && (!s.finished ==> |s.pending| <= 17409)
    ensures var o := DecodeAll(k, s, inputs);
      o.error.None? && !o.state.finished ==> |o.state.pending| <= 17409
    decreases |inputs|
  {
    hide Run;
    if inputs != [] {
      PendingBounded(k, Fed(s, inputs[0]));
      var first := Decode(k, s, inputs[0]);
      if first.error.None? {
        SessionPendingBounded(k, first.state, inputs[1..]);
      }
    }
  }

  // ---- decoding undoes encoding ----

  /** A decoder in step with an encoder, between chunks. */
  function InStep(e: EncState, pending: Bytes): DecState {
    DecState(e.words, e.counter, pending, None, false)
  }

  /** One chunk is opened to its piece: its size passes the checks and it is not the end marker. */
  lemma OneChunk(k: Key, e: EncState, piece: Bytes, rest: Bytes)
    requires k.Valid() && 0 < |piece| <= MAX_PLAINTEXT
    ensures Run(k, InStep(e, Chunk(k, e, piece) + rest)) == Prepend([piece], Run(k, InStep(NextEnc(k, e), rest)))
  {
    hide Run, NonceFor, Xor16, FramingAt;
    var (padding, mask) := FramingAt(k, e.words);
    var nonce := NonceFor(k, e.counter);
    var sealed := k.cipher.seal(nonce, piece);
    var size := |sealed| + padding;
    var wire := Be16(Xor16(size, mask)) + sealed + Zeros(padding);
    assert wire == Chunk(k, e, piece);
    var s := InStep(e, wire + rest);
    var s1 := Peek(k, s);
    XorTwice(size, mask);
    assert s1.pending[0] == Be16(Xor16(size, mask))[0] && s1.pending[1] == Be16(Xor16(size, mask))[1];
    assert SizeOf(s1) == size;
    assert s1.pending[2..2 + size - padding] == sealed;
    assert s1.pending[2 + size..] == rest;
    assert Opened(k, s1) == k.cipher.open(nonce, sealed) == Some(piece);
    RunStep(k, s);
  }

  /** `Run` opened once. */
  lemma RunStep(k: Key, s: DecState)
    requires |k.iv| == 16 && |s.pending| >= 2
    requires var s1 := Peek(k, s);
      SizeAllowed(s1) && |s1.pending| >= 2 + SizeOf(s1) && Opened(k, s1).Some? && Opened(k, s1).value != []
    ensures Run(k, s) == Prepend([Opened(k, Peek(k, s)).value], Run(k, Committed(Peek(k, s))))
  {
    hide SizeAllowed, SizeOf, Opened, Committed, Peek;
  }

  /** The decoder puts out exactly the pieces that the encoder sealed, and goes on with what follows them. */
  lemma {:induction false} ChunksDecode(k: Key, e: EncState, pieces: seq<Bytes>, rest: Bytes)
    requires k.Valid() && forall i :: 0 <= i < |pieces| ==> 0 < |pieces[i]| <= MAX_PLAINTEXT
    ensures Run(k, InStep(e, EncodePieces(k, e, pieces) + rest))
         == Prepend(pieces, Run(k, InStep(EncAfter(k, e, |pieces|), rest)))
  {
    hide Run, Chunk, NextEnc;
    if pieces == [] {
      assert EncodePieces(k, e, pieces) + rest == rest;
    } else {
      var n := |pieces| - 1;
      var before, last := pieces[..n], pieces[n];
      var chunk := Chunk(k, EncAfter(k, e, n), last);
      ChunksDecode(k, e, before, chunk + rest);
      assert EncodePieces(k, e, before) + chunk + rest == EncodePieces(k, e, before) + (chunk + rest);
      OneChunk(k, EncAfter(k, e, n), last, rest);
      PrependTwice(before, [last], Run(k, InStep(EncAfter(k, e, n + 1), rest)));
      assert pieces == before + [last];
    }
  }

  /** The wire of a sequence of writes, one call of the encoder after another. */
  function EncodeCalls(k: Key, e: EncState, writes: seq<Bytes>): Bytes
    requires k.Valid()
    decreases |writes|
  {
    if writes == [] then
      []
    else
      var pieces := Pieces(writes[0], MAX_PLAINTEXT);
      EncodePieces(k, e, pieces) + EncodeCalls(k, EncAfter(k, e, |pieces|), writes[1..])
  }

  lemma {:induction false} EncAfterTwice(k: Key, e: EncState, m: nat, n: nat)
    ensures EncAfter(k, EncAfter(k, e, m), n) == EncAfter(k, e, m + n)
  {
    hide NextEnc;
    if n > 0 {
      EncAfterTwice(k, e, m, n - 1);
    }
  }

  lemma {:induction false} EncodeAppend(k: Key, e: EncState, a: seq<Bytes>, b: seq<Bytes>)
    requires k.Valid()
    requires forall i :: 0 <= i < |a| ==> |a[i]| <= MAX_PLAINTEXT
    requires forall i :: 0 <= i < |b| ==> |b[i]| <= MAX_PLAINTEXT
    ensures EncodePieces(k, e, a + b) == EncodePieces(k, e, a) + EncodePieces(k, EncAfter(k, e, |a|), b)
  {
    hide Chunk, EncAfter, Cipher.Lawful;
    if b == [] {
      assert a + b == a;
    } else {
      var n := |b| - 1;
      EncodeAppend(k, e, a, b[..n]);
      EncAfterTwice(k, e, |a|, n);
      assert (a + b)[..|a| + n] == a + b[..n];
      var x, y := EncodePieces(k, e, a), EncodePieces(k, EncAfter(k, e, |a|), b[..n]);
      var last := Chunk(k, EncAfter(k, e, |a| + n), b[n]);
      assert x + y + last == x + (y + last);
    }
  }

  /** Calls of the encoder one after another put one chunk on the wire for each piece of each write. */
  lemma {:induction false} EncodeCallsArePieces(k: Key, e: EncState, writes: seq<Bytes>)
    requires k.Valid()
    ensures EncodeCalls(k, e, writes) == EncodePieces(k, e, AllPieces(writes, MAX_PLAINTEXT))
    decreases |writes|
  {
    hide EncodePieces, EncAfter, Pieces, Cipher.Lawful;
    if writes == [] {
      EncodeNothing(k, e);
    } else {
      var pieces := Pieces(writes[0], MAX_PLAINTEXT);
      EncodeCallsArePieces(k, EncAfter(k, e, |pieces|), writes[1..]);
      EncodeAppend(k, e, pieces, AllPieces(writes[1..], MAX_PLAINTEXT));
    }
  }

  lemma EncodeNothing(k: Key, e: EncState)
    requires k.Valid()
    ensures EncodePieces(k, e, []) == []
  {
  }

  /** For any writes and any cutting of the wire, a decoder keyed like the encoder puts out exactly what was
      written, never fails and never takes a chunk for the end of the stream. */
  lemma RoundTrip(k: Key, writes: seq<Bytes>, inputs: seq<Bytes>)
    requires k.Valid() && inputs != []
    requires Concat(inputs) == EncodeCalls(k, EncState(0, 0), writes)
    ensures var o := DecodeAll(k, Start([]), inputs);
      && o.error.None? && !o.state.finished && o.state.pending == []
      && o.chunks == AllPieces(writes, MAX_PLAINTEXT)
      && Concat(o.chunks) == Concat(writes)
  {
    hide EncodeCalls;
    var e := EncState(0, 0);
    var pieces := AllPieces(writes, MAX_PLAINTEXT);
    var wire := Concat(inputs);
    DecodeAnySplit(k, Start([]), inputs);
    EncodeCallsArePieces(k, e, writes);
    ChunksDecode(k, e, pieces, []);
    assert wire + [] == wire && [] + wire == wire;
    assert Run(k, InStep(EncAfter(k, e, |pieces|), [])) == Outcome(InStep(EncAfter(k, e, |pieces|), []), [], None);
    assert pieces + [] == pieces;
    AllPiecesConcat(writes, MAX_PLAINTEXT);
  }

  /** The decoder has opened `n` chunks, and drawn one more framing exactly if it remembers it. */
  ghost predicate Synced(k: Key, s: DecState, n: nat) {
    && s.counter == EncAfter(k, EncState(0, 0), n).counter
    && s.words == EncAfter(k, EncState(0, 0), if s.peeked.Some? then n + 1 else n).words
    && (s.peeked.Some? ==> s.peeked.value == FramingAt(k, EncAfter(k, EncState(0, 0), n).words))
  }

  /** On any input at all, keystream position, counter and half-read chunk stay in step with the chunks opened. */
  lemma {:induction false} RunKeepsSync(k: Key, s: DecState, n: nat)
    requires |k.iv| == 16 && Synced(k, s, n) && !s.finished
    ensures var o := Run(k, s);
      o.error != Some(Auth) ==> Synced(k, o.state, n + |o.chunks| + if o.state.finished then 1 else 0)
    decreases |s.pending|
  {
    hide SizeOf, SizeAllowed, Opened, FramingAt;
    if |s.pending| >= 2 {
      var s1 := Peek(k, s);
      if SizeAllowed(s1) && |s1.pending| >= 2 + SizeOf(s1) {
        assert Synced(k, Committed(s1), n + 1);
        if Opened(k, s1).Some? && Opened(k, s1).value != [] {
          RunKeepsSync(k, Committed(s1), n + 1);
        }
      }
    }
  }

  // ---- nonces ----

  /** After `n` chunks the counter is `n` modulo 2^16. */
  lemma {:induction false} CounterAfter(k: Key, n: nat)
    ensures EncAfter(k, EncState(0, 0), n).counter == n % 0x1_0000
  {
    if n > 0 {
      CounterAfter(k, n - 1);
    }
  }

  /** The nonce of chunk number `n` of a session. */
  function ChunkNonce(k: Key, n: nat): Bytes
    requires |k.iv| == 16
  {
    NonceFor(k, EncAfter(k, EncState(0, 0), n).counter)
  }

  /** Two chunks of a session share a nonce exactly when their numbers agree modulo 2^16: no repetition in the
      first 65536 chunks, and repetition from then on. */
  lemma NonceRepeats(k: Key, i: nat, j: nat)
    requires |k.iv| == 16
    ensures ChunkNonce(k, i) == ChunkNonce(k, j) <==> i % 0x1_0000 == j % 0x1_0000
  {
    CounterAfter(k, i);
    CounterAfter(k, j);
    if ChunkNonce(k, i) == ChunkNonce(k, j) {
      NonceInjective(k, i % 0x1_0000, j % 0x1_0000);
    }
  }

  // ---- the wire, chunk by chunk ----

  /** Word `w` of the keystream, its first byte the high one. */
  function StreamWord(k: Key, w: nat): nat {
    256 * k.stream(2 * w) + k.stream(2 * w + 1)
  }

  /** Padding of chunk number `n`: with padding it takes the even words of the keystream. */
  function PaddingOf(k: Key, n: nat): nat {
    if k.framing.padding then StreamWord(k, if k.framing.masking then 2 * n else n) % 64 else 0
  }

  /** Length mask of chunk number `n`: the odd words, or every word when there is no padding. */
  function MaskOf(k: Key, n: nat): nat {
    if k.framing.masking then StreamWord(k, if k.framing.padding then 2 * n + 1 else n) else 0
  }

  /** Chunk number `n` of a stream: the length of what follows, masked and high byte first; the piece sealed under the
      low 16 bits of its number in front of bytes 2 to 11 of the IV; and the padding. */
  function NumberedChunk(k: Key, n: nat, piece: Bytes): Bytes
    requires k.Valid() && |piece| <= MAX_PLAINTEXT
  {
    var sealed := k.cipher.seal([n / 256 % 256, n % 256] + k.iv[2..12], piece);
    var size := XorBits(|sealed| + PaddingOf(k, n), MaskOf(k, n), 16);
    [size / 256 % 256, size % 256] + sealed + Zeros(PaddingOf(k, n))
  }

  /** The stream of some pieces from number `n` on. */
  function NumberedChunks(k: Key, n: nat, pieces: seq<Bytes>): Bytes
    requires k.Valid() && forall i :: 0 <= i < |pieces| ==> |pieces[i]| <= MAX_PLAINTEXT
    decreases |pieces|
  {
    if pieces == [] then [] else NumberedChunk(k, n, pieces[0]) + NumberedChunks(k, n + 1, pieces[1..])
  }

  lemma {:induction false} WordsDrawn(k: Key, n: nat)
    ensures EncAfter(k, EncState(0, 0), n).words
         == if k.framing.padding && k.framing.masking then 2 * n
            else if k.framing.padding || k.framing.masking then n
            else 0
  {
    hide NextCounter;
    if n > 0 {
      WordsDrawn(k, n - 1);
    }
  }

  lemma NumberedFraming(k: Key, n: nat)
    ensures FramingAt(k, EncAfter(k, EncState(0, 0), n).words) == (PaddingOf(k, n), MaskOf(k, n))
  {
    WordsDrawn(k, n);
    hide EncAfter;
  }

  lemma NumberedNonce(k: Key, n: nat)
    requires |k.iv| == 16
    ensures NonceFor(k, EncAfter(k, EncState(0, 0), n).counter) == [n / 256 % 256, n % 256] + k.iv[2..12]
  {
    CounterAfter(k, n);
    hide EncAfter;
    LowBytes(n);
  }

  lemma LowBytes(n: nat)
    ensures n % 0x1_0000 / 256 == n / 256 % 256 && n % 0x1_0000 % 256 == n % 256
  {
    var q, r := n / 0x1_0000, n % 0x1_0000;
    QuotientUnique(n, 256, 256 * q + r / 256, r % 256);
    QuotientUnique(256 * q + r / 256, 256, q, r / 256);
  }

  lemma ChunkIsNumbered(k: Key, n: nat, piece: Bytes)
    requires k.Valid() && |piece| <= MAX_PLAINTEXT
    ensures Chunk(k, EncAfter(k, EncState(0, 0), n), piece) == NumberedChunk(k, n, piece)
  {
    hide EncAfter, FramingAt, NonceFor, PaddingOf, MaskOf, XorBits, Xor16, Be16;
    NumberedFraming(k, n);
    NumberedNonce(k, n);
    MaskedLength(|piece| + TAG + PaddingOf(k, n), MaskOf(k, n));
  }

  lemma MaskedLength(size: u16, mask: u16)
    ensures var x := XorBits(size, mask, 16); Be16(Xor16(size, mask)) == [x / 256 % 256, x % 256]
  {
    hide XorBits;
    SmallPowers();
  }

  /** What the encoder puts out, chunk by chunk and without its state. */
  lemma {:induction false} StreamIsNumbered(k: Key, n: nat, pieces: seq<Bytes>)
    requires k.Valid() && forall i :: 0 <= i < |pieces| ==> |pieces[i]| <= MAX_PLAINTEXT
    ensures EncodePieces(k, EncAfter(k, EncState(0, 0), n), pieces) == NumberedChunks(k, n, pieces)
    decreases |pieces|
  {
    hide Chunk, NumberedChunk, EncAfter, EncodePieces;
    if pieces == [] {
      EncodeNothing(k, EncAfter(k, EncState(0, 0), n));
    } else {
      StreamIsNumbered(k, n + 1, pieces[1..]);
      assert pieces == [pieces[0]] + pieces[1..];
      EncodeAppend(k, EncAfter(k, EncState(0, 0), n), [pieces[0]], pieces[1..]);
      EncAfterTwice(k, EncState(0, 0), n, 1);
      EncodeOne(k, EncAfter(k, EncState(0, 0), n), pieces[0]);
      ChunkIsNumbered(k, n, pieces[0]);
    }
  }

  lemma EncodeOne(k: Key, e: EncState, piece: Bytes)
    requires k.Valid() && |piece| <= MAX_PLAINTEXT
    ensures EncodePieces(k, e, [piece]) == Chunk(k, e, piece)
  {
    hide Chunk;
    assert [piece][..0] == [];
    assert EncAfter(k, e, 0) == e;
    assert EncodePieces(k, e, []) == [];
  }

  /** The whole wire of a session. */
  lemma WireIsNumbered(k: Key, writes: seq<Bytes>)
    requires k.Valid()
    ensures EncodeCalls(k, EncState(0, 0), writes) == NumberedChunks(k, 0, AllPieces(writes, MAX_PLAINTEXT))
  {
    assert EncAfter(k, EncState(0, 0), 0) == EncState(0, 0);
    hide EncodeCalls, EncodePieces, NumberedChunks, EncAfter;
    EncodeCallsArePieces(k, EncState(0, 0), writes);
    StreamIsNumbered(k, 0, AllPieces(writes, MAX_PLAINTEXT));
  }
}
