/** The VMess body codec: both directions of a session. */
module VmessBody {
  import opened Wrappers
  import opened Aead
  import opened VmessSpec
  import opened VmessProofs

  /** One direction's keystream position and counter. */
  class Direction {
    const key: Key
    var words: nat
    var counter: u16

    ghost predicate Valid() {
      key.Valid()
    }

    constructor (key: Key)
      requires key.Valid()
      ensures Valid() && this.key == key && words == 0 && counter == 0
    {
      this.key := key;
      words, counter := 0, 0;
    }

    /** The next two bytes of the keystream. */
    method NextU16() returns (x: u16)
      modifies this
      ensures x == Word(key, old(words)) && words == old(words) + 1 && counter == old(counter)
    {
      var hi, lo := key.stream(2 * words), key.stream(2 * words + 1);
      words := words + 1;
      x := FromBe16(hi, lo);
    }

    /** This chunk's padding length and length mask, in that order. */
    method NextFraming() returns (padding: nat, mask: u16)
      modifies this
      ensures (padding, mask) == FramingAt(key, old(words))
      ensures words == old(words) + WordsPerChunk(key.framing) && counter == old(counter)
    {
      padding, mask := 0, 0;
      if key.framing.padding {
        var x := NextU16();
        padding := x % PADDING_MODULUS;
      }
      if key.framing.masking {
        mask := NextU16();
      }
    }

    /** The nonce of the current chunk; the counter wraps. */
    method NextNonce() returns (nonce: Bytes)
      requires Valid()
      modifies this
      ensures nonce == NonceFor(key, old(counter)) && counter == NextCounter(old(counter)) && words == old(words)
    {
      nonce := Be16(counter) + key.iv[2..12];
      counter := (counter + 1) % 0x1_0000;
    }
  }

  class VmessDecoder {
    const dir: Direction
    var pending: Bytes
    var peeked: Option<(nat, u16)>
    var finished: bool

    ghost predicate Valid() {
      dir.Valid()
    }

    ghost function State(): DecState
      reads this, dir
    {
      DecState(dir.words, dir.counter, pending, peeked, finished)
    }

    constructor (key: Key)
      requires key.Valid()
      ensures Valid() && fresh(dir) && dir.key == key && State() == Start([])
    {
      dir := new Direction(key);
      pending, peeked, finished := [], None, false;
    }

    /** Unwrap as many whole chunks as `input` completes. */
    method Decode(input: Bytes, out: seq<Bytes>) returns (out': seq<Bytes>, error: Option<CodecError>)
      requires Valid()
      modifies this, dir
      ensures Valid()
      ensures Outcome(State(), out', error) == Prepend(out, VmessSpec.Decode(dir.key, old(State()), input))
    {
      hide Xor16, Run, FramingAt, NonceFor, FromBe16, Cipher.Lawful, Cipher.LengthsMatch, WordsPerChunk;
      out' := out;
      if finished {
        return out', None;
      }
      pending := pending + input;
      ghost var s0, k := State(), dir.key;
      while true
        invariant Valid() && !finished
        invariant Prepend(out, Run(k, s0)) == Prepend(out', Run(k, State()))
        decreases |pending|
      {
        RunCases(k, State());
        if |pending| < 2 {
          return out', None;
        }
        var v: (nat, u16);
        ghost var s1 := Peek(k, State());
        match peeked {
          case Some(drawn) =>
            v := drawn;
          case None =>
            var padding, mask := dir.NextFraming();
            v := (padding, mask);
            peeked := Some(v);
        }
        assert State() == s1;
        var (padding, mask) := v;
        var size := Xor16(FromBe16(pending[0], pending[1]), mask);
        if size < TAG + padding || size > MAX_CHUNK {
          return out', Some(LengthExceeded);
        }
        if |pending| < 2 + size {
          return out', None;
        }
        peeked := None;
        var chunk := pending[2..2 + size];
        pending := pending[2 + size..];
        var nonce := dir.NextNonce();
        assert State() == Committed(s1);
        Sealed(s1.pending, size, padding);
        var plaintext := dir.key.cipher.open(nonce, chunk[..size - padding]);
        assert plaintext == Opened(k, s1);
        if plaintext.None? {
          return out', Some(Auth);
        }
        if plaintext.value == [] {
          finished := true;
          return out', None;
        }
        PrependTwice(out', [plaintext.value], Run(k, State()));
        out' := out' + [plaintext.value];
      }
    }
  }

  /** The sealed part of a chunk is the chunk without its padding. */
  lemma Sealed(pending: Bytes, size: nat, padding: nat)
    requires padding <= size && 2 + size <= |pending|
    ensures pending[2..2 + size][..size - padding] == pending[2..2 + size - padding]
  {
  }

  /** The cases of one step of the decoder. */
  lemma RunCases(k: Key, s: DecState)
    requires |k.iv| == 16
    ensures Run(k, s) ==
      if |s.pending| < 2 then Outcome(s, [], None)
      else
        var s1 := Peek(k, s);
        if !SizeAllowed(s1) then Outcome(s1, [], Some(LengthExceeded))
        else if |s1.pending| < 2 + SizeOf(s1) then Outcome(s1, [], None)
        else if Opened(k, s1).None? then Outcome(Committed(s1), [], Some(Auth))
        else if Opened(k, s1).value == [] then Outcome(Committed(s1).(finished := true), [], None)
        else Prepend([Opened(k, s1).value], Run(k, Committed(s1)))
  {
    hide SizeAllowed, SizeOf, Opened, Committed, Peek;
  }

  class VmessEncoder {
    const dir: Direction
    var prologue: Option<Bytes>

    ghost predicate Valid() {
      dir.Valid()
    }

    ghost function State(): EncState
      reads dir
    {
      EncState(dir.words, dir.counter)
    }

    constructor (key: Key, prologue: Bytes)
      requires key.Valid()
      ensures Valid() && fresh(dir) && dir.key == key && State() == EncState(0, 0) && this.prologue == Some(prologue)
    {
      dir := new Direction(key);
      this.prologue := Some(prologue);
    }

    /** The response header, once. */
    method TakePrologue() returns (owed: Bytes)
      modifies this
      ensures owed == (if old(prologue).Some? then old(prologue).value else []) && prologue == None
    {
      owed := if prologue.Some? then prologue.value else [];
      prologue := None;
    }

    /** Wrap `input` in chunks. A sealed length always fits its two bytes, so there is no error to return. */
    method Encode(input: Bytes) returns (out: Bytes)
      requires Valid()
      modifies dir
      ensures Valid()
      ensures out == EncodePieces(dir.key, old(State()), Pieces(input, MAX_PLAINTEXT))
      ensures State() == EncAfter(dir.key, old(State()), |Pieces(input, MAX_PLAINTEXT)|)
    {
      hide Xor16, NonceFor, FramingAt, EncodePieces, Zeros;
      ghost var k, e, pieces := dir.key, State(), Pieces(input, MAX_PLAINTEXT);
      out := [];
      var rest := input;
      ghost var n := 0;
      EncodeNothing(k, e);
      while rest != []
        invariant n <= |pieces| && Pieces(rest, MAX_PLAINTEXT) == pieces[n..]
        invariant State() == EncAfter(k, e, n)
        invariant out == EncodePieces(k, e, pieces[..n])
        decreases |rest|
      {
        ghost var before := out;
        var piece := Take(rest, MAX_PLAINTEXT);
        rest := rest[|piece|..];
        EncodeNext(k, e, pieces, n);
        assert piece == pieces[n];
        var padding, mask := dir.NextFraming();
        var nonce := dir.NextNonce();
        var sealed := dir.key.cipher.seal(nonce, piece);
        var size := |sealed| + padding;
        out := out + Be16(Xor16(size, mask));
        out := out + sealed;
        out := out + Zeros(padding);
        Joined(before, Be16(Xor16(size, mask)), sealed, Zeros(padding));
        n := n + 1;
      }
      assert pieces[..n] == pieces;
    }
  }

  lemma EncodeNext(k: Key, e: EncState, pieces: seq<Bytes>, n: nat)
    requires k.Valid() && n < |pieces| && forall i :: 0 <= i < |pieces| ==> |pieces[i]| <= MAX_PLAINTEXT
    ensures EncodePieces(k, e, pieces[..n + 1])
         == EncodePieces(k, e, pieces[..n]) + Chunk(k, EncAfter(k, e, n), pieces[n])
  {
    hide Chunk, EncAfter, Cipher.Lawful;
    assert pieces[..n + 1][..n] == pieces[..n];
  }

  lemma Joined(a: Bytes, b: Bytes, c: Bytes, d: Bytes)
    ensures a + b + c + d == a + (b + c + d)
  {
  }

  /** Every cryptographic primitive of a session. */
  datatype Crypto = Crypto(cipher: (Security, Bytes) -> Cipher, shake: Bytes -> (nat -> byte), digest: Bytes -> Bytes,
                           responseHeader: (Bytes, Bytes, byte) -> Bytes) {
    ghost predicate Valid() {
      && (forall s, k :: cipher(s, k).Lawful())
      && (forall b :: |digest(b)| == 16)
    }
  }

  datatype Params = Params(bodyKey: Bytes, bodyIv: Bytes, security: byte, options: bv8, responseV: byte)

  /** The keys of one direction. */
  function DirectionKey(c: Crypto, security: Security, key: Bytes, iv: Bytes, framing: Framing): Key {
    Key(c.cipher(security, key), iv, c.shake(iv), framing)
  }

  /** Both halves of a session, or a refusal of what is not implemented. */
  method Split(c: Crypto, p: Params) returns (r: Result<(VmessDecoder, VmessEncoder), CodecError>)
    requires c.Valid() && |p.bodyIv| == 16
    ensures r.Ok? <==> p.security in {3, 4} && p.options in {1, 5, 13}
    ensures r.Err? ==> r.error == Unsupported
    ensures r.Ok? ==>
      var (decoder, encoder) := r.value;
      && fresh(decoder) && fresh(decoder.dir) && fresh(encoder) && fresh(encoder.dir) && decoder.dir != encoder.dir
      && decoder.Valid() && encoder.Valid()
      && decoder.State() == Start([]) && encoder.State() == EncState(0, 0)
      && var security, framing := SecurityFromByte(p.security).value, FramingFromOptions(p.options).value;
         && decoder.dir.key == DirectionKey(c, security, p.bodyKey, p.bodyIv, framing)
         && encoder.dir.key == DirectionKey(c, security, c.digest(p.bodyKey), c.digest(p.bodyIv), framing)
         && encoder.prologue == Some(c.responseHeader(c.digest(p.bodyKey), c.digest(p.bodyIv), p.responseV))
  {
    hide FramingFromOptions;
    AcceptedOptions(p.options);
    var security := SecurityFromByte(p.security);
    if security.Err? {
      return Err(security.error);
    }
    var framing := FramingFromOptions(p.options);
    if framing.Err? {
      OnlyUnsupported(p.options);
      return Err(framing.error);
    }
    var respKey, respIv := c.digest(p.bodyKey), c.digest(p.bodyIv);
    var decoder := new VmessDecoder(DirectionKey(c, security.value, p.bodyKey, p.bodyIv, framing.value));
    var encoder := new VmessEncoder(DirectionKey(c, security.value, respKey, respIv, framing.value),
      c.responseHeader(respKey, respIv, p.responseV));
    return Ok((decoder, encoder));
  }

  lemma OnlyUnsupported(options: bv8)
    ensures FramingFromOptions(options).Err? ==> FramingFromOptions(options).error == Unsupported
  {
  }
}
