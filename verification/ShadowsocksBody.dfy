/** The Shadowsocks-2022 body codec: both directions of a session. */
module ShadowsocksBody {
  import opened Wrappers
  import opened Aead
  import opened ShadowsocksSpec
  import opened ShadowsocksProofs

  class SsDecoder {
    const cipher: Cipher
    var counter: nat
    var pending: Bytes
    var pendingLen: Option<nat>
    var initial: Option<Bytes>

    ghost predicate Valid() {
      cipher.LengthsMatch()
    }

    ghost function State(): DecState
      reads this
    {
      DecState(counter, pending, pendingLen)
    }

    constructor (cipher: Cipher, counter: nat, initial: Bytes)
      requires cipher.LengthsMatch()
      ensures Valid() && this.cipher == cipher && State() == DecState(counter, [], None)
      ensures this.initial == if initial == [] then None else Some(initial)
    {
      this.cipher, this.counter, pending, pendingLen := cipher, counter, [], None;
      this.initial := if initial == [] then None else Some(initial);
    }

    /** Unwrap as many whole chunks as `input` completes; the request header's own payload goes first, once. */
    method Decode(input: Bytes, out: seq<Bytes>) returns (out': seq<Bytes>, error: Option<CodecError>)
      requires Valid()
      modifies this
      ensures Valid() && initial == None
      ensures var owed := if old(initial).Some? then [old(initial).value] else [];
        Outcome(State(), out', error) == Prepend(out + owed, ShadowsocksSpec.Decode(cipher, old(State()), input))
    {
      hide Run, Cipher.LengthsMatch, Open;
      out' := out;
      if initial.Some? {
        out' := out' + [initial.value];
        initial := None;
      }
      ghost var start := out';
      pending := pending + input;
      ghost var s0 := State();
      while true
        invariant Valid() && initial == None
        invariant Prepend(start, Run(cipher, s0)) == Prepend(out', Run(cipher, State()))
        decreases |pending|
      {
        RunCases(cipher, State());
        assert out' + [] == out';
        ghost var s := State();
        match pendingLen {
          case None =>
            if |pending| < 2 + TAG {
              return out', None;
            }
            var sealed := pending[..2 + TAG];
            pending := pending[2 + TAG..];
            assert State() == Taken(s);
            var plain := Open(cipher, counter, sealed);
            assert plain == Opened(cipher, s);
            if plain.None? {
              return out', Some(Auth);
            }
            counter := counter + 1;
            OpenedLength(cipher, s);
            var n: nat := FromBe16(plain.value[0], plain.value[1]);
            if n == 0 || n > MAX_CHUNK {
              return out', Some(LengthExceeded);
            }
            pendingLen := Some(n);
          case Some(n) =>
            if |pending| < n + TAG {
              return out', None;
            }
            var sealed := pending[..n + TAG];
            pending := pending[n + TAG..];
            assert State() == Taken(s);
            var plain := Open(cipher, counter, sealed);
            assert plain == Opened(cipher, s);
            if plain.None? {
              return out', Some(Auth);
            }
            counter := counter + 1;
            pendingLen := None;
            PrependTwice(out', [plain.value], Run(cipher, State()));
            out' := out' + [plain.value];
        }
      }
    }
  }

  /** The cases of one step of the decoder. */
  lemma RunCases(c: Cipher, s: DecState)
    requires c.LengthsMatch()
    ensures |s.pending| < Wanted(s) ==> Run(c, s) == Outcome(s, [], None)
    ensures |s.pending| >= Wanted(s) && Opened(c, s).None? ==> Run(c, s) == Outcome(Taken(s), [], Some(Auth))
    ensures |s.pending| >= Wanted(s) && Opened(c, s).Some? ==>
      var plain, next := Opened(c, s).value, Taken(s).(counter := s.counter + 1);
      && |plain| + TAG == Wanted(s)
      && Run(c, s) ==
         if s.pendingLen.Some? then Prepend([plain], Run(c, next.(pendingLen := None)))
         else if !LengthAllowed(LengthOf(plain)) then Outcome(next, [], Some(LengthExceeded))
         else Run(c, next.(pendingLen := Some(LengthOf(plain))))
  {
    hide Open, LengthOf, LengthAllowed;
    if |s.pending| >= Wanted(s) && Opened(c, s).Some? {
      OpenedLength(c, s);
    }
  }

  class SsEncoder {
    const cipher: Cipher
    const opening: Opening
    var counter: nat
    var sentHeader: bool
    /** The counters of all AEAD operations so far. */
    ghost var operations: seq<nat>

    /** Operation number k used counter k. */
    ghost predicate Valid()
      reads this
    {
      |operations| == counter && forall k :: 0 <= k < counter ==> operations[k] == k
    }

    ghost function State(): EncState
      reads this
    {
      EncState(counter, sentHeader)
    }

    constructor (cipher: Cipher, opening: Opening)
      ensures Valid() && this.cipher == cipher && this.opening == opening && State() == EncState(0, false)
    {
      this.cipher, this.opening, counter, sentHeader := cipher, opening, 0, false;
      operations := [];
    }

    method SealNext(plaintext: Bytes) returns (sealed: Bytes)
      requires Valid()
      modifies this
      ensures Valid() && sealed == Seal(cipher, old(counter), plaintext)
      ensures counter == old(counter) + 1 && sentHeader == old(sentHeader)
    {
      sealed := Seal(cipher, counter, plaintext);
      operations := operations + [counter];
      counter := counter + 1;
    }

    /** Salt, header and first payload; the first call only. */
    method SendHeader(first: Bytes) returns (out: Bytes)
      requires Valid() && !sentHeader && counter == 0 && |first| < 0x1_0000
      modifies this
      ensures Valid() && State() == EncState(2, true) && out == Header(cipher, opening, first)
    {
      hide Seal, BeBytes;
      var header := [TYPE_RESPONSE] + BeBytes(opening.now, 8);
      header := header + opening.requestSalt;
      header := header + Be16(|first|);
      out := opening.responseSalt;
      var sealed := SealNext(header);
      out := out + sealed;
      sealed := SealNext(first);
      out := out + sealed;
      sentHeader := true;
    }

    /** Wrap `input`, prefixing the session header on the first call that has data. */
    method Encode(input: Bytes) returns (out: Bytes)
      requires Valid() && (!sentHeader ==> counter == 0)
      modifies this
      ensures Valid() && (!sentHeader ==> counter == 0)
      ensures (State(), out) == ShadowsocksSpec.Encode(cipher, opening, old(State()), input)
    {
      hide Seal, Header, EncodePieces, Pieces;
      NoPieceOfNothing(input);
      NoPieces(cipher, 2);
      out := [];
      if input == [] {
        return out;
      }
      var rest := input;
      if !sentHeader {
        var first := Take(rest, MAX_PLAINTEXT);
        rest := rest[|first|..];
        out := SendHeader(first);
      }
      var chunks := EncodeChunks(rest);
      assert [] + chunks == chunks;
      out := out + chunks;
    }

    /** Two operations for each piece: its length and itself. */
    method EncodeChunks(input: Bytes) returns (out: Bytes)
      requires Valid()
      modifies this
      ensures Valid() && sentHeader == old(sentHeader)
      ensures var pieces := Pieces(input, MAX_PLAINTEXT);
        && counter == old(counter) + 2 * |pieces|
        && out == EncodePieces(cipher, old(counter), pieces)
    {
      hide Seal, EncodePieces;
      ghost var c0, pieces := counter, Pieces(input, MAX_PLAINTEXT);
      ghost var n := 0;
      out := [];
      var rest := input;
      NoPieces(cipher, c0);
      while rest != []
        invariant Valid() && sentHeader == old(sentHeader)
        invariant n <= |pieces| && Pieces(rest, MAX_PLAINTEXT) == pieces[n..]
        invariant counter == c0 + 2 * n && out == EncodePieces(cipher, c0, pieces[..n])
        decreases |rest|
      {
        ghost var before := out;
        var piece := Take(rest, MAX_PLAINTEXT);
        rest := rest[|piece|..];
        EncodeNext(cipher, c0, pieces, n);
        assert piece == pieces[n];
        var length := SealNext(Be16(|piece|));
        out := out + length;
        var body := SealNext(piece);
        out := out + body;
        assert out == before + (length + body);
        n := n + 1;
      }
      assert pieces[..n] == pieces;
    }
  }

  lemma NoPieceOfNothing(input: Bytes)
    ensures var pieces := Pieces(input, MAX_PLAINTEXT);
      if input == [] then pieces == []
      else
        && pieces != [] && pieces[0] == Take(input, MAX_PLAINTEXT)
        && pieces[1..] == Pieces(input[|pieces[0]|..], MAX_PLAINTEXT)
  {
  }

  lemma EncodeNext(c: Cipher, counter: nat, pieces: seq<Bytes>, n: nat)
    requires n < |pieces| && forall i :: 0 <= i < |pieces| ==> |pieces[i]| < 0x1_0000
    ensures EncodePieces(c, counter, pieces[..n + 1])
         == EncodePieces(c, counter, pieces[..n])
           + (Seal(c, counter + 2 * n, Be16(|pieces[n]|)) + Seal(c, counter + 2 * n + 1, pieces[n]))
  {
    hide Seal;
    assert pieces[..n + 1][..n] == pieces[..n];
  }

  /** No two operations of an encoder share a nonce, up to 2^64 of them. */
  lemma NoNonceRepeats(e: SsEncoder, i: nat, j: nat)
    requires e.Valid() && e.counter <= Pow256(8) && i < j < e.counter
    ensures NonceFor(e.operations[i]) != NonceFor(e.operations[j])
  {
    NonceInjective(i, j);
  }

  datatype Session = Session(suite: Suite, psk: Bytes, requestSalt: Bytes, requestSubkey: Bytes, initial: Bytes,
                             nextCounter: nat, now: nat) {
    /** Keys and salts fill 32 bytes. */
    predicate Valid() {
      |psk| == |requestSalt| == |requestSubkey| == 32
    }
  }

  /** Both halves of a session. `cipher` and `subkey` stand for the suite's cipher and key derivation. */
  method Split(cipher: (Suite, Bytes) -> Cipher, subkey: (Bytes, Bytes) -> Bytes, s: Session, entropy: Bytes)
    returns (decoder: SsDecoder, encoder: SsEncoder)
    requires forall u, k :: cipher(u, k).LengthsMatch()
    requires forall p, t :: |subkey(p, t)| == 32
    requires s.Valid() && |entropy| == 32
    ensures var n := KeyLen(s.suite);
      && fresh(decoder) && decoder.Valid() && decoder.cipher == cipher(s.suite, s.requestSubkey[..n])
      && decoder.State() == DecState(s.nextCounter, [], None)
      && decoder.initial == (if s.initial == [] then None else Some(s.initial))
      && fresh(encoder) && encoder.Valid() && encoder.State() == EncState(0, false)
      && encoder.cipher == cipher(s.suite, subkey(s.psk[..n], entropy[..n])[..n])
      && encoder.opening == Opening(entropy[..n], s.requestSalt[..n], s.now)
  {
    var n := KeyLen(s.suite);
    var responseSalt := entropy[..n];
    decoder := new SsDecoder(cipher(s.suite, s.requestSubkey[..n]), s.nextCounter, s.initial);
    encoder := new SsEncoder(cipher(s.suite, subkey(s.psk[..n], responseSalt)[..n]),
      Opening(responseSalt, s.requestSalt[..n], s.now));
  }
}
