/** The Shadowsocks-2022 chunk stream as a state machine on values. */
module ShadowsocksSpec {
  import opened Wrappers
  import opened Aead

  const MAX_PLAINTEXT := 16 * 1024
  const MAX_CHUNK := 65535
  const TYPE_RESPONSE := 1

  datatype Suite = Aes128Gcm | Aes256Gcm | ChaCha20Poly1305

  /** Length of key and salt. */
  function KeyLen(s: Suite): nat {
    if s.Aes128Gcm? then 16 else 32
  }

  /** The `n` low bytes, least significant first. */
  function LeBytes(x: nat, n: nat): (b: Bytes)
    ensures |b| == n
  {
    if n == 0 then [] else [x % 256] + LeBytes(x / 256, n - 1)
  }

  /** The `n` low bytes, most significant first. */
  function BeBytes(x: nat, n: nat): (b: Bytes)
    ensures |b| == n
  {
    if n == 0 then [] else BeBytes(x / 256, n - 1) + [x % 256]
  }

  function Pow256(n: nat): nat {
    if n == 0 then 1 else 256 * Pow256(n - 1)
  }

  /** The nonce of AEAD operation number `counter`: the counter in eight bytes, then four zeros. */
  function NonceFor(counter: nat): (n: Bytes)
    ensures |n| == 12
  {
    LeBytes(counter, 8) + [0, 0, 0, 0]
  }

  function Seal(c: Cipher, counter: nat, plaintext: Bytes): Bytes {
    c.seal(NonceFor(counter), plaintext)
  }

  function Open(c: Cipher, counter: nat, sealed: Bytes): Option<Bytes> {
    c.open(NonceFor(counter), sealed)
  }

  // ---- the decoder ----

  /** AEAD operations done, bytes not yet used, and the length of a chunk whose body is awaited. */
  datatype DecState = DecState(counter: nat, pending: Bytes, pendingLen: Option<nat>)

  /** How many bytes the next operation opens. */
  function Wanted(s: DecState): nat {
    if s.pendingLen.Some? then s.pendingLen.value + TAG else 2 + TAG
  }

  predicate LengthAllowed(n: nat) {
    0 < n <= MAX_CHUNK
  }

  /** The length that an opened length chunk states. */
  function LengthOf(plain: Bytes): nat
    requires |plain| == 2
  {
    FromBe16(plain[0], plain[1])
  }

  /** The state after taking off what the next operation opens. */
  function Taken(s: DecState): DecState
    requires |s.pending| >= Wanted(s)
  {
    s.(pending := s.pending[Wanted(s)..])
  }

  function Opened(c: Cipher, s: DecState): Option<Bytes>
    requires |s.pending| >= Wanted(s)
  {
    Open(c, s.counter, s.pending[..Wanted(s)])
  }

  /** Open lengths and chunks until the input is used up or an error. */
  function Run(c: Cipher, s: DecState): Outcome<DecState>
    requires c.LengthsMatch()
    decreases |s.pending|
  {
    if |s.pending| < Wanted(s) then
      Outcome(s, [], None)
    else
      match Opened(c, s)
      case None => Outcome(Taken(s), [], Some(Auth))
      case Some(plain) =>
        var next := Taken(s).(counter := s.counter + 1);
        if s.pendingLen.Some? then
          Prepend([plain], Run(c, next.(pendingLen := None)))
        else if !LengthAllowed(LengthOf(plain)) then
          Outcome(next, [], Some(LengthExceeded))
        else
          Run(c, next.(pendingLen := Some(LengthOf(plain))))
  }

  function Fed(s: DecState, input: Bytes): DecState {
    s.(pending := s.pending + input)
  }

  /** One call of the decoder, apart from the payload of the request header. */
  function Decode(c: Cipher, s: DecState, input: Bytes): Outcome<DecState>
    requires c.LengthsMatch()
  {
    Run(c, Fed(s, input))
  }

  /** A sequence of calls, stopping at the first error. */
  function DecodeAll(c: Cipher, s: DecState, inputs: seq<Bytes>): Outcome<DecState>
    requires c.LengthsMatch()
    decreases |inputs|
  {
    if inputs == [] then
      Outcome(s, [], None)
    else
      var first := Decode(c, s, inputs[0]);
      if first.error.Some? then first else Prepend(first.chunks, DecodeAll(c, first.state, inputs[1..]))
  }

  /** The same chunks and error, and the same state while there is no error. */
  predicate SameOutcome(a: Outcome<DecState>, b: Outcome<DecState>) {
    a.chunks == b.chunks && a.error == b.error && (a.error.None? ==> a.state == b.state)
  }

  // ---- the encoder ----

  /** One chunk on the wire: sealed length, sealed piece; two operations. */
  function Chunk(c: Cipher, counter: nat, piece: Bytes): Bytes
    requires |piece| < 0x1_0000
  {
    Seal(c, counter, Be16(|piece|)) + Seal(c, counter + 1, piece)
  }

  function EncodePieces(c: Cipher, counter: nat, pieces: seq<Bytes>): Bytes
    requires forall i :: 0 <= i < |pieces| ==> |pieces[i]| < 0x1_0000
  {
    if pieces == [] then
      []
    else
      EncodePieces(c, counter, pieces[..|pieces| - 1]) + Chunk(c, counter + 2 * (|pieces| - 1), pieces[|pieces| - 1])
  }

  /** What the response header says before its length field. */
  datatype Opening = Opening(responseSalt: Bytes, requestSalt: Bytes, now: nat)

  function HeaderText(o: Opening, firstLen: u16): Bytes {
    [TYPE_RESPONSE] + BeBytes(o.now, 8) + o.requestSalt + Be16(firstLen)
  }

  /** Salt, sealed header and sealed first payload. */
  function Header(c: Cipher, o: Opening, first: Bytes): Bytes
    requires |first| < 0x1_0000
  {
    o.responseSalt + Seal(c, 0, HeaderText(o, |first|)) + Seal(c, 1, first)
  }

  datatype EncState = EncState(counter: nat, sentHeader: bool)

  /** One call of the encoder. The first piece ever written rides in the header. */
  function Encode(c: Cipher, o: Opening, s: EncState, input: Bytes): (r: (EncState, Bytes)) {
    var pieces := Pieces(input, MAX_PLAINTEXT);
    if pieces == [] then
      (s, [])
    else if s.sentHeader then
      (s.(counter := s.counter + 2 * |pieces|), EncodePieces(c, s.counter, pieces))
    else
      (EncState(s.counter + 2 * |pieces|, true), Header(c, o, pieces[0]) + EncodePieces(c, s.counter + 2, pieces[1..]))
  }

  /** The wire of a sequence of writes, one call of the encoder after another. */
  function EncodeCalls(c: Cipher, o: Opening, s: EncState, writes: seq<Bytes>): Bytes
    decreases |writes|
  {
    if writes == [] then
      []
    else
      var (s', wire) := Encode(c, o, s, writes[0]);
      wire + EncodeCalls(c, o, s', writes[1..])
  }

  // ---- a client that reads the response ----

  /** What a client learns: the echoed salt, the time, the first payload, and the chunks after it. */
  datatype Response = Response(salt: Bytes, requestSalt: Bytes, now: Bytes, first: Bytes, rest: Outcome<DecState>)

  /** Read salt, header, first payload, then chunks with counters from 2 on. */
  function ReadResponse(c: Cipher, keyLen: nat, wire: Bytes): Option<Response>
    requires c.LengthsMatch()
  {
    var headerEnd := keyLen + 11 + keyLen + TAG;
    if |wire| < headerEnd then
      None
    else
      match Open(c, 0, wire[keyLen..headerEnd])
      case None => None
      case Some(header) =>
        if header[0] != 1 then
          None
        else
          var hi: nat, lo: nat := header[9 + keyLen], header[10 + keyLen];
          var firstLen := 256 * hi + lo;
          var body := wire[headerEnd..];
          if |body| < firstLen + TAG then
            None
          else
            match Open(c, 1, body[..firstLen + TAG])
            case None => None
            case Some(first) =>
              Some(Response(wire[..keyLen], header[9..9 + keyLen], header[1..9], first,
                            Run(c, DecState(2, body[firstLen + TAG..], None))))
  }
}
