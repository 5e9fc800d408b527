/** The VMess chunk stream as a state machine on values. */
module VmessSpec {
  import opened Wrappers
  import opened Aead

  const MAX_CHUNK := 17 * 1024
  const MAX_PLAINTEXT := 8192
  const PADDING_MODULUS := 64

  datatype Security = Aes128Gcm | ChaCha20Poly1305

  function SecurityFromByte(b: byte): Result<Security, CodecError> {
    match b
    case 3 => Ok(Aes128Gcm)
    case 4 => Ok(ChaCha20Poly1305)
    case _ => Err(Unsupported)
  }

  datatype Framing = Framing(masking: bool, padding: bool)

  const OPT_CHUNK_STREAM: bv8 := 1
  const OPT_CHUNK_MASKING: bv8 := 4
  const OPT_GLOBAL_PADDING: bv8 := 8

  function FramingFromOptions(options: bv8): Result<Framing, CodecError> {
    var known := OPT_CHUNK_STREAM | OPT_CHUNK_MASKING | OPT_GLOBAL_PADDING;
    if options & !known != 0 then
      Err(Unsupported)
    else if options & OPT_CHUNK_STREAM == 0 then
      Err(Unsupported)
    else
      var masking, padding := options & OPT_CHUNK_MASKING != 0, options & OPT_GLOBAL_PADDING != 0;
      if padding && !masking then Err(Unsupported) else Ok(Framing(masking, padding))
  }

  /** Exactly three option bytes are accepted. */
  lemma AcceptedOptions(options: bv8)
    ensures FramingFromOptions(options).Ok? <==> options in {1, 5, 13}
    ensures FramingFromOptions(1) == Ok(Framing(false, false))
    ensures FramingFromOptions(5) == Ok(Framing(true, false))
    ensures FramingFromOptions(13) == Ok(Framing(true, true))
  {
    assert !(OPT_CHUNK_STREAM | OPT_CHUNK_MASKING | OPT_GLOBAL_PADDING) == 0xF2;
  }

  /** What is fixed for one direction: cipher, IV, keystream and framing. */
  datatype Key = Key(cipher: Cipher, iv: Bytes, stream: nat -> byte, framing: Framing) {
    ghost predicate Valid() {
      cipher.Lawful() && |iv| == 16
    }
  }

  /** Word number `w` of the keystream. */
  function Word(k: Key, w: nat): u16 {
    FromBe16(k.stream(2 * w), k.stream(2 * w + 1))
  }

  /** Padding length and length mask of the next chunk, the padding drawn first. */
  function FramingAt(k: Key, w: nat): (r: (nat, u16))
    ensures r.0 < PADDING_MODULUS
  {
    var padding := if k.framing.padding then Word(k, w) % PADDING_MODULUS else 0;
    var w' := if k.framing.padding then w + 1 else w;
    (padding, if k.framing.masking then Word(k, w') else 0)
  }

  /** Keystream words that one chunk uses. */
  function WordsPerChunk(f: Framing): nat {
    (if f.padding then 1 else 0) + (if f.masking then 1 else 0)
  }

  function NextCounter(c: u16): u16 {
    (c + 1) % 0x1_0000
  }

  /** The nonce for a counter: two counter bytes, then bytes 2 to 11 of the IV. */
  function NonceFor(k: Key, c: u16): (n: Bytes)
    requires |k.iv| == 16
    ensures |n| == 12
  {
    Be16(c) + k.iv[2..12]
  }

  /** Two counters give the same nonce only if they are the same. */
  lemma NonceInjective(k: Key, c: u16, d: u16)
    requires |k.iv| == 16 && NonceFor(k, c) == NonceFor(k, d)
    ensures c == d
  {
    assert NonceFor(k, c)[0] == c / 256 && NonceFor(k, c)[1] == c % 256;
    assert NonceFor(k, d)[0] == d / 256 && NonceFor(k, d)[1] == d % 256;
  }

  // ---- the decoder ----

  /** Keystream words drawn, chunks opened modulo 2^16, bytes not yet used, the framing drawn for them, and the end. */
  datatype DecState = DecState(words: nat, counter: u16, pending: Bytes, peeked: Option<(nat, u16)>, finished: bool)

  function Start(pending: Bytes): DecState {
    DecState(0, 0, pending, None, false)
  }

  /** Draw the framing of the chunk at the front, unless it has been drawn. */
  function Peek(k: Key, s: DecState): DecState {
    if s.peeked.Some? then s else s.(words := s.words + WordsPerChunk(k.framing), peeked := Some(FramingAt(k, s.words)))
  }

  /** The length of the chunk at the front, unmasked. */
  function SizeOf(s: DecState): u16
    requires |s.pending| >= 2 && s.peeked.Some?
  {
    Xor16(FromBe16(s.pending[0], s.pending[1]), s.peeked.value.1)
  }

  predicate SizeAllowed(s: DecState)
    requires |s.pending| >= 2 && s.peeked.Some?
  {
    TAG + s.peeked.value.0 <= SizeOf(s) <= MAX_CHUNK
  }

  /** The state once the chunk at the front has been taken off. */
  function Committed(s: DecState): DecState
    requires |s.pending| >= 2 && s.peeked.Some? && |s.pending| >= 2 + SizeOf(s)
  {
    s.(pending := s.pending[2 + SizeOf(s)..], peeked := None, counter := NextCounter(s.counter))
  }

  /** The plaintext of the chunk at the front. */
  function Opened(k: Key, s: DecState): Option<Bytes>
    requires |k.iv| == 16
    requires |s.pending| >= 2 && s.peeked.Some? && |s.pending| >= 2 + SizeOf(s) && SizeAllowed(s)
  {
    k.cipher.open(NonceFor(k, s.counter), s.pending[2..2 + SizeOf(s) - s.peeked.value.0])
  }

  /** Open chunks until the input is used up, the end marker or an error. */
  function Run(k: Key, s: DecState): Outcome<DecState>
    requires |k.iv| == 16
    decreases |s.pending|
  {
    if |s.pending| < 2 then
      Outcome(s, [], None)
    else
      var s1 := Peek(k, s);
      if !SizeAllowed(s1) then
        Outcome(s1, [], Some(LengthExceeded))
      else if |s1.pending| < 2 + SizeOf(s1) then
        Outcome(s1, [], None)
      else
        match Opened(k, s1)
        case None => Outcome(Committed(s1), [], Some(Auth))
        case Some(plaintext) =>
          if plaintext == [] then
            Outcome(Committed(s1).(finished := true), [], None)
          else
            Prepend([plaintext], Run(k, Committed(s1)))
  }

  /** `s` with more input at the end. */
  function Fed(s: DecState, input: Bytes): DecState {
    s.(pending := s.pending + input)
  }

  /** One call of the decoder. */
  function Decode(k: Key, s: DecState, input: Bytes): Outcome<DecState>
    requires |k.iv| == 16
  {
    if s.finished then Outcome(s, [], None) else Run(k, Fed(s, input))
  }

  /** A sequence of calls, stopping at the first error. */
  function DecodeAll(k: Key, s: DecState, inputs: seq<Bytes>): Outcome<DecState>
    requires |k.iv| == 16
    decreases |inputs|
  {
    if inputs == [] then
      Outcome(s, [], None)
    else
      var first := Decode(k, s, inputs[0]);
      if first.error.Some? then first else Prepend(first.chunks, DecodeAll(k, first.state, inputs[1..]))
  }

  /** The same to the outside: chunks, error, and state unless the stream has ended. */
  predicate SameOutcome(a: Outcome<DecState>, b: Outcome<DecState>) {
    && a.chunks == b.chunks && a.error == b.error && a.state.finished == b.state.finished
    && (a.error.None? && !a.state.finished ==> a.state == b.state)
  }

  // ---- the encoder ----

  datatype EncState = EncState(words: nat, counter: u16)

  /** One chunk on the wire: masked length, sealed piece, padding. */
  function Chunk(k: Key, s: EncState, piece: Bytes): Bytes
    requires k.Valid() && |piece| <= MAX_PLAINTEXT
  {
    var (padding, mask) := FramingAt(k, s.words);
    var sealed := k.cipher.seal(NonceFor(k, s.counter), piece);
    Be16(Xor16(|sealed| + padding, mask)) + sealed + Zeros(padding)
  }

  function NextEnc(k: Key, s: EncState): EncState {
    EncState(s.words + WordsPerChunk(k.framing), NextCounter(s.counter))
  }

  /** The state after `n` more chunks. */
  function EncAfter(k: Key, s: EncState, n: nat): EncState {
    if n == 0 then s else NextEnc(k, EncAfter(k, s, n - 1))
  }

  /** Chunks for a sequence of pieces. */
  function EncodePieces(k: Key, s: EncState, pieces: seq<Bytes>): Bytes
    requires k.Valid() && forall i :: 0 <= i < |pieces| ==> |pieces[i]| <= MAX_PLAINTEXT
  {
    if pieces == [] then
      []
    else
      EncodePieces(k, s, pieces[..|pieces| - 1]) + Chunk(k, EncAfter(k, s, |pieces| - 1), pieces[|pieces| - 1])
  }
}
