/** Framing does not depend on how the wire is cut, a client reads back what was written, and no nonce repeats. */
module ShadowsocksProofs {
  import opened Wrappers
  import opened Bits
  import opened Aead
  import opened ShadowsocksSpec

  // ---- how the wire is cut does not matter ----

  lemma {:induction false} RunAppend(c: Cipher, s: DecState, more: Bytes)
    requires c.LengthsMatch()
    ensures var o := Run(c, s);
      if o.error.Some? then SameOutcome(Run(c, Fed(s, more)), o)
      else Run(c, Fed(s, more)) == Prepend(o.chunks, Run(c, Fed(o.state, more)))
    decreases |s.pending|
  {
    hide Open, LengthAllowed, LengthOf, Cipher.LengthsMatch;
    if |s.pending| >= Wanted(s) {
      assert (s.pending + more)[..Wanted(s)] == s.pending[..Wanted(s)];
      assert (s.pending + more)[Wanted(s)..] == s.pending[Wanted(s)..] + more;
      var plain := Opened(c, s);
      if plain.Some? {
        OpenedLength(c, s);
        var next := Taken(s).(counter := s.counter + 1);
        if s.pendingLen.Some? {
          var after := next.(pendingLen := None);
          RunAppend(c, after, more);
          var o := Run(c, after);
          PrependTwice([plain.value], o.chunks, Run(c, Fed(o.state, more)));
        } else if LengthAllowed(LengthOf(plain.value)) {
          RunAppend(c, next.(pendingLen := Some(LengthOf(plain.value))), more);
        }
      }
    }
  }

  /** What is opened is shorter than what is taken off by the tag. */
  lemma OpenedLength(c: Cipher, s: DecState)
    requires c.LengthsMatch() && |s.pending| >= Wanted(s) && Opened(c, s).Some?
    ensures |Opened(c, s).value| + TAG == Wanted(s)
  {
  }

  /** Decoding `a` and then `b` is decoding `a + b`: same chunks, same first error, same state. */
  lemma DecodeSplit(c: Cipher, s: DecState, a: Bytes, b: Bytes)
    requires c.LengthsMatch()
    ensures SameOutcome(DecodeAll(c, s, [a, b]), Decode(c, s, a + b))
  {
    DecodeAnySplit(c, s, [a, b]);
    assert [a, b][1..] == [b] && [b][1..] == [];
    assert Concat([b]) == b + Concat<byte>([]) == b;
  }

  /** However the wire is cut, the decoder puts out the same chunks and fails the same way. */
  lemma {:induction false} DecodeAnySplit(c: Cipher, s: DecState, inputs: seq<Bytes>)
    requires c.LengthsMatch() && inputs != []
    ensures SameOutcome(DecodeAll(c, s, inputs), Decode(c, s, Concat(inputs)))
    decreases |inputs|
  {
    hide Run, Cipher.LengthsMatch;
    var a, rest := inputs[0], inputs[1..];
    var first := Decode(c, s, a);
    if rest == [] {
      assert inputs == [a];
      assert Concat(inputs) == a;
      assert DecodeAll(c, first.state, []) == Outcome(first.state, [], None);
    } else {
      var b := Concat(rest);
      RunAppend(c, Fed(s, a), b);
      assert Fed(Fed(s, a), b) == Fed(s, a + b) by { assert s.pending + a + b == s.pending + (a + b); }
      if first.error.None? {
        DecodeAnySplit(c, first.state, rest);
      }
    }
  }

  /** Less than one sealed chunk is kept, and an awaited body is not longer than a chunk. */
  predicate Bounded(s: DecState) {
    |s.pending| <= 65550 && (s.pendingLen.Some? ==> s.pendingLen.value <= 65535)
  }

  /** What is kept between calls is bounded. */
  lemma {:induction false} PendingBounded(c: Cipher, s: DecState)
    requires c.LengthsMatch() && (s.pendingLen.Some? ==> s.pendingLen.value <= MAX_CHUNK)
    ensures Run(c, s).error.None? ==> Bounded(Run(c, s).state)
    decreases |s.pending|
  {
    hide Open, LengthOf, Cipher.LengthsMatch;
    if |s.pending| >= Wanted(s) && Opened(c, s).Some? {
      OpenedLength(c, s);
      var next := Taken(s).(counter := s.counter + 1);
      if s.pendingLen.Some? {
        PendingBounded(c, next.(pendingLen := None));
      } else if LengthAllowed(LengthOf(Opened(c, s).value)) {
        PendingBounded(c, next.(pendingLen := Some(LengthOf(Opened(c, s).value))));
      }
    }
  }

  /** Over a whole session, whatever arrives, what is kept between calls is bounded. */
  lemma {:induction false} SessionBounded(c: Cipher, s: DecState, inputs: seq<Bytes>)
    requires c.LengthsMatch() && Bounded(s)
    ensures DecodeAll(c, s, inputs).error.None? ==> Bounded(DecodeAll(c, s, inputs).state)
    decreases |inputs|
  {
    hide Run;
    if inputs != [] {
      PendingBounded(c, Fed(s, inputs[0]));
      var first := Decode(c, s, inputs[0]);
      if first.error.None? {
        SessionBounded(c, first.state, inputs[1..]);
      }
    }
  }

  /** Operations spent: two for each chunk, and one more while a body is awaited. */
  function Spent(chunks: nat, s: DecState): nat {
    2 * chunks + if s.pendingLen.Some? then 1 else 0
  }

  /** On any input at all the counter is the number of operations since the start, whatever the cutting. */
  lemma {:induction false} CounterCounts(c: Cipher, s: DecState)
    requires c.LengthsMatch()
    ensures var o := Run(c, s);
      o.error.None? ==> o.state.counter + Spent(0, s) == s.counter + Spent(|o.chunks|, o.state)
    decreases |s.pending|
  {
    hide Open, LengthOf, LengthAllowed, Cipher.LengthsMatch;
    if |s.pending| >= Wanted(s) && Opened(c, s).Some? {
      OpenedLength(c, s);
      var next := Taken(s).(counter := s.counter + 1);
      if s.pendingLen.Some? {
        CounterCounts(c, next.(pendingLen := None));
      } else if LengthAllowed(LengthOf(Opened(c, s).value)) {
        CounterCounts(c, next.(pendingLen := Some(LengthOf(Opened(c, s).value))));
      }
    }
  }

  /** Over a whole session: a decoder that starts at `counter` and has put out n chunks has done 2n operations, and
      one more while a body is awaited, however the wire was cut. */
  lemma {:induction false} SessionCounter(c: Cipher, s: DecState, inputs: seq<Bytes>)
    requires c.LengthsMatch()
    ensures var o := DecodeAll(c, s, inputs);
      o.error.None? ==> o.state.counter + Spent(0, s) == s.counter + Spent(|o.chunks|, o.state)
    decreases |inputs|
  {
    hide Run;
    if inputs != [] {
      CounterCounts(c, Fed(s, inputs[0]));
      var first := Decode(c, s, inputs[0]);
      if first.error.None? {
        SessionCounter(c, first.state, inputs[1..]);
      }
    }
  }

  // ---- a client reads back what was written ----

  /** `Run` opened once, for a length and for a body. */
  lemma RunStep(c: Cipher, s: DecState)
    requires c.LengthsMatch() && |s.pending| >= Wanted(s) && Opened(c, s).Some?
    ensures |Opened(c, s).value| + TAG == Wanted(s)
    ensures s.pendingLen.Some? ==>
      Run(c, s) == Prepend([Opened(c, s).value], Run(c, Taken(s).(counter := s.counter + 1, pendingLen := None)))
    ensures s.pendingLen.None? && LengthAllowed(LengthOf(Opened(c, s).value)) ==>
      Run(c, s) == Run(c, Taken(s).(counter := s.counter + 1, pendingLen := Some(LengthOf(Opened(c, s).value))))
  {
    hide Open, LengthOf, LengthAllowed;
    OpenedLength(c, s);
  }

  lemma LengthBack(n: u16)
    ensures LengthOf(Be16(n)) == n
  {
  }

  /** Both operations of one chunk. */
  lemma OneChunk(c: Cipher, counter: nat, piece: Bytes, rest: Bytes)
    requires c.Lawful() && 0 < |piece| <= MAX_CHUNK
    ensures c.LengthsMatch()
    ensures Run(c, DecState(counter, Chunk(c, counter, piece) + rest, None))
         == Prepend([piece], Run(c, DecState(counter + 2, rest, None)))
  {
    hide Run, NonceFor, LengthOf;
    var length, body := Seal(c, counter, Be16(|piece|)), Seal(c, counter + 1, piece);
    var s := DecState(counter, length + body + rest, None);
    assert s.pending[..2 + TAG] == length && s.pending[2 + TAG..] == body + rest;
    LengthBack(|piece|);
    RunStep(c, s);
    var s1 := DecState(counter + 1, body + rest, Some(|piece|));
    assert s1.pending[..|piece| + TAG] == body && s1.pending[|piece| + TAG..] == rest;
    RunStep(c, s1);
  }

  /** The chunk machine puts out exactly the pieces that the encoder sealed, and goes on with what follows them. */
  lemma {:induction false} ChunksDecode(c: Cipher, counter: nat, pieces: seq<Bytes>, rest: Bytes)
    requires c.Lawful() && forall i :: 0 <= i < |pieces| ==> 0 < |pieces[i]| <= MAX_CHUNK
    ensures c.LengthsMatch()
    ensures Run(c, DecState(counter, EncodePieces(c, counter, pieces) + rest, None))
         == Prepend(pieces, Run(c, DecState(counter + 2 * |pieces|, rest, None)))
  {
    hide Run, Chunk;
    if pieces == [] {
      assert EncodePieces(c, counter, pieces) + rest == rest;
    } else {
      var n := |pieces| - 1;
      var before, chunk := EncodePieces(c, counter, pieces[..n]), Chunk(c, counter + 2 * n, pieces[n]);
      ChunksDecode(c, counter, pieces[..n], chunk + rest);
      assert before + chunk + rest == before + (chunk + rest);
      OneChunk(c, counter + 2 * n, pieces[n], rest);
      PrependTwice(pieces[..n], [pieces[n]], Run(c, DecState(counter + 2 * n + 2, rest, None)));
      assert pieces == pieces[..n] + [pieces[n]];
    }
  }

  lemma {:induction false} EncodeAppend(c: Cipher, counter: nat, a: seq<Bytes>, b: seq<Bytes>)
    requires forall i :: 0 <= i < |a| ==> |a[i]| < 0x1_0000
    requires forall i :: 0 <= i < |b| ==> |b[i]| < 0x1_0000
    ensures EncodePieces(c, counter, a + b) == EncodePieces(c, counter, a) + EncodePieces(c, counter + 2 * |a|, b)
  {
    hide Chunk;
    if b == [] {
      assert a + b == a;
    } else {
      var n := |b| - 1;
      EncodeAppend(c, counter, a, b[..n]);
      assert (a + b)[..|a| + n] == a + b[..n];
      var x, y := EncodePieces(c, counter, a), EncodePieces(c, counter + 2 * |a|, b[..n]);
      var last := Chunk(c, counter + 2 * |a| + 2 * n, b[n]);
      assert x + y + last == x + (y + last);
    }
  }

  /** After the header, calls of the encoder put one chunk on the wire for each piece of each write. */
  lemma {:induction false} CallsAfterHeader(c: Cipher, o: Opening, counter: nat, writes: seq<Bytes>)
    ensures EncodeCalls(c, o, EncState(counter, true), writes)
         == EncodePieces(c, counter, AllPieces(writes, MAX_PLAINTEXT))
    decreases |writes|
  {
    hide EncodePieces, Pieces, Header;
    NoPieces(c, counter);
    if writes != [] {
      var pieces := Pieces(writes[0], MAX_PLAINTEXT);
      var rest := AllPieces(writes[1..], MAX_PLAINTEXT);
      CallsAfterHeader(c, o, counter + 2 * |pieces|, writes[1..]);
      if pieces == [] {
        assert pieces + rest == rest;
      } else {
        EncodeAppend(c, counter, pieces, rest);
      }
    }
  }

  lemma NoPieces(c: Cipher, counter: nat)
    ensures EncodePieces(c, counter, []) == []
  {
  }

  /** All calls together: the header carries the first piece, chunks carry the rest. */
  lemma {:induction false} CallsFromStart(c: Cipher, o: Opening, writes: seq<Bytes>)
    ensures var pieces := AllPieces(writes, MAX_PLAINTEXT);
      EncodeCalls(c, o, EncState(0, false), writes)
      == if pieces == [] then [] else Header(c, o, pieces[0]) + EncodePieces(c, 2, pieces[1..])
    decreases |writes|
  {
    hide EncodePieces, Pieces, Header;
    if writes != [] {
      var pieces := Pieces(writes[0], MAX_PLAINTEXT);
      var rest := AllPieces(writes[1..], MAX_PLAINTEXT);
      if pieces == [] {
        CallsFromStart(c, o, writes[1..]);
        assert pieces + rest == rest;
      } else {
        CallsAfterHeader(c, o, 2 * |pieces|, writes[1..]);
        EncodeAppend(c, 2, pieces[1..], rest);
        assert (pieces + rest)[1..] == pieces[1..] + rest;
        var h, x, y := Header(c, o, pieces[0]), EncodePieces(c, 2, pieces[1..]), EncodePieces(c, 2 * |pieces|, rest);
        assert h + x + y == h + (x + y);
      }
    }
  }

  /** The client reads salt, echoed salt, time and first payload out of the header. */
  lemma HeaderReads(c: Cipher, o: Opening, first: Bytes, rest: Bytes)
    requires c.Lawful() && |o.responseSalt| == |o.requestSalt| && |first| <= MAX_PLAINTEXT
    ensures c.LengthsMatch()
    ensures ReadResponse(c, |o.responseSalt|, Header(c, o, first) + rest)
         == Some(Response(o.responseSalt, o.requestSalt, BeBytes(o.now, 8), first, Run(c, DecState(2, rest, None))))
  {
    hide Run, NonceFor, LengthOf, BeBytes;
    var n := |o.responseSalt|;
    var text := HeaderText(o, |first|);
    var header, body := Seal(c, 0, text), Seal(c, 1, first);
    var wire := o.responseSalt + header + body + rest;
    assert wire == Header(c, o, first) + rest;
    var headerEnd := n + 11 + n + TAG;
    assert wire[..n] == o.responseSalt && wire[n..headerEnd] == header && wire[headerEnd..] == body + rest;
    assert (body + rest)[..|first| + TAG] == body && (body + rest)[|first| + TAG..] == rest;
    assert text[1..9] == BeBytes(o.now, 8) && text[9..9 + n] == o.requestSalt && text[9 + n..] == Be16(|first|);
    LengthBack(|first|);
  }

  lemma RunNothing(c: Cipher, counter: nat)
    requires c.LengthsMatch()
    ensures Run(c, DecState(counter, [], None)) == Outcome(DecState(counter, [], None), [], None)
  {
  }

  /** For any writes, a client reading the wire recovers the writes, the echoed request salt and the time. */
  lemma RoundTrip(c: Cipher, o: Opening, writes: seq<Bytes>)
    requires c.Lawful() && |o.responseSalt| == |o.requestSalt|
    ensures c.LengthsMatch()
    ensures var wire := EncodeCalls(c, o, EncState(0, false), writes);
      if Concat(writes) == [] then wire == []
      else
        var r := ReadResponse(c, |o.responseSalt|, wire);
        && r.Some? && r.value.rest.error.None? && r.value.rest.state.pending == []
        && r.value.salt == o.responseSalt && r.value.requestSalt == o.requestSalt && r.value.now == BeBytes(o.now, 8)
        && [r.value.first] + r.value.rest.chunks == AllPieces(writes, MAX_PLAINTEXT)
        && Concat([r.value.first] + r.value.rest.chunks) == Concat(writes)
  {
    hide ReadResponse, Header, EncodePieces, EncodeCalls, Run, BeBytes;
    var pieces := AllPieces(writes, MAX_PLAINTEXT);
    CallsFromStart(c, o, writes);
    AllPiecesConcat(writes, MAX_PLAINTEXT);
    if pieces != [] {
      var rest := EncodePieces(c, 2, pieces[1..]);
      HeaderReads(c, o, pieces[0], rest);
      ChunksDecode(c, 2, pieces[1..], []);
      RunNothing(c, 2 * |pieces|);
      assert rest + [] == rest;
      assert pieces[1..] + [] == pieces[1..];
      assert [pieces[0]] + pieces[1..] == pieces;
      assert Concat(pieces) == pieces[0] + Concat(pieces[1..]);
    }
  }

  // ---- nonces ----

  lemma {:induction false} LeBytesInjective(a: nat, b: nat, n: nat)
    requires LeBytes(a, n) == LeBytes(b, n) && a < Pow256(n) && b < Pow256(n)
    ensures a == b
  {
    if n > 0 {
      assert LeBytes(a, n)[0] == a % 256 && LeBytes(b, n)[0] == b % 256;
      assert LeBytes(a, n)[1..] == LeBytes(a / 256, n - 1) && LeBytes(b, n)[1..] == LeBytes(b / 256, n - 1);
      LeBytesInjective(a / 256, b / 256, n - 1);
    }
  }

  /** Different operations use different nonces, up to 2^64 of them. */
  lemma NonceInjective(i: nat, j: nat)
    requires i < Pow256(8) && j < Pow256(8) && i != j
    ensures NonceFor(i) != NonceFor(j)
  {
    hide Pow256, LeBytes;
    if NonceFor(i) == NonceFor(j) {
      assert NonceFor(i)[..8] == LeBytes(i, 8) && NonceFor(j)[..8] == LeBytes(j, 8);
      LeBytesInjective(i, j, 8);
    }
  }

  // ---- the wire, operation by operation ----

  /** The nonce of an operation is its number: eight bytes, the lowest first, and four zeros. */
  function NumberedNonce(n: nat): Bytes {
    [n % 256, n / 0x100 % 256, n / 0x1_0000 % 256, n / 0x100_0000 % 256, n / 0x1_0000_0000 % 256,
     n / 0x100_0000_0000 % 256, n / 0x1_0000_0000_0000 % 256, n / 0x100_0000_0000_0000 % 256, 0, 0, 0, 0]
  }

  lemma {:induction false} LeBytesAt(n: nat, width: nat, i: nat)
    requires i < width
    ensures LeBytes(n, width)[i] == ByteShift(n, i) % 256
  {
    if i > 0 {
      LeBytesAt(n / 256, width - 1, i - 1);
      ShiftFirst(n, i);
    }
  }

  lemma {:induction false} ShiftFirst(n: nat, i: nat)
    requires i > 0
    ensures ByteShift(n, i) == ByteShift(n / 256, i - 1)
  {
    if i > 1 {
      ShiftFirst(n, i - 1);
    } else {
      assert ByteShift(n, 0) == n;
    }
  }

  lemma NonceIsNumbered(n: nat)
    ensures NonceFor(n) == NumberedNonce(n)
  {
    hide LeBytes;
    ByteShifts(n);
    assert ByteShift(n, 0) == n;
    hide ByteShift;
    forall i | 0 <= i < 8 ensures LeBytes(n, 8)[i] == ByteShift(n, i) % 256 {
      LeBytesAt(n, 8, i);
    }
  }

  /** A chunk whose first operation has number `n`: the length, high byte first, sealed under this number, and the piece
      under the next. */
  function NumberedChunk(c: Cipher, n: nat, piece: Bytes): Bytes
    requires |piece| < 0x1_0000
  {
    c.seal(NumberedNonce(n), [|piece| / 256, |piece| % 256]) + c.seal(NumberedNonce(n + 1), piece)
  }

  /** The chunks of some pieces, two operations for each. */
  function NumberedChunks(c: Cipher, n: nat, pieces: seq<Bytes>): Bytes
    requires forall i :: 0 <= i < |pieces| ==> |pieces[i]| < 0x1_0000
    decreases |pieces|
  {
    if pieces == [] then [] else NumberedChunk(c, n, pieces[0]) + NumberedChunks(c, n + 2, pieces[1..])
  }

  lemma ChunkIsNumbered(c: Cipher, n: nat, piece: Bytes)
    requires |piece| < 0x1_0000
    ensures Chunk(c, n, piece) == NumberedChunk(c, n, piece)
  {
    hide NonceFor, NumberedNonce;
    NonceIsNumbered(n);
    NonceIsNumbered(n + 1);
  }

  /** What the encoder puts out, operation by operation. */
  lemma {:induction false} StreamIsNumbered(c: Cipher, n: nat, pieces: seq<Bytes>)
    requires forall i :: 0 <= i < |pieces| ==> |pieces[i]| < 0x1_0000
    ensures EncodePieces(c, n, pieces) == NumberedChunks(c, n, pieces)
    decreases |pieces|
  {
    hide Chunk, NumberedChunk;
    if pieces != [] {
      StreamIsNumbered(c, n + 2, pieces[1..]);
      assert pieces == [pieces[0]] + pieces[1..];
      EncodeAppend(c, n, [pieces[0]], pieces[1..]);
      EncodeOne(c, n, pieces[0]);
      ChunkIsNumbered(c, n, pieces[0]);
    }
  }

  lemma EncodeOne(c: Cipher, n: nat, piece: Bytes)
    requires |piece| < 0x1_0000
    ensures EncodePieces(c, n, [piece]) == Chunk(c, n, piece)
  {
    hide Chunk;
    assert [piece][..0] == [];
    assert EncodePieces(c, n, []) == [];
  }

  /** The head of a response: the salt; then 1, the time, the client's salt and the length of the first payload, sealed
      under number 0; then the first payload under number 1. */
  function NumberedHead(c: Cipher, o: Opening, first: Bytes): Bytes
    requires |first| < 0x1_0000
  {
    o.responseSalt
    + c.seal(NumberedNonce(0), [1] + BeBytes(o.now, 8) + o.requestSalt + [|first| / 256, |first| % 256])
    + c.seal(NumberedNonce(1), first)
  }

  /** The whole wire of a response: the head with the first piece, and chunks from number 2 on; nothing for nothing. */
  lemma WireIsNumbered(c: Cipher, o: Opening, writes: seq<Bytes>)
    ensures var pieces := AllPieces(writes, MAX_PLAINTEXT);
      EncodeCalls(c, o, EncState(0, false), writes)
      == if pieces == [] then [] else NumberedHead(c, o, pieces[0]) + NumberedChunks(c, 2, pieces[1..])
  {
    hide EncodeCalls, EncodePieces, NumberedChunks, NonceFor, NumberedNonce, BeBytes;
    var pieces := AllPieces(writes, MAX_PLAINTEXT);
    CallsFromStart(c, o, writes);
    NonceIsNumbered(0);
    NonceIsNumbered(1);
    if pieces != [] {
      StreamIsNumbered(c, 2, pieces[1..]);
    }
  }
}
