/** The Trojan request header. */
module Trojan {
  import opened Wrappers
  import opened Reader
  import opened Addr

  const CRLF: Bytes := [13, 10]
  const HEADER_LIMIT := 318

  datatype Command = Connect | UdpAssociate

  function CommandFromByte(b: byte): Result<Command, ProtocolError> {
    match b
    case 1 => Ok(Connect)
    case 3 => Ok(UdpAssociate)
    case other => Err(UnsupportedCommand(other))
  }

  datatype Header = Header(user: nat, command: Command, target: Target)

  datatype Request = Request(header: Header, payload: Bytes)

  // ---- keys ----

  function HexDigit(n: nat): byte
    requires n < 16
  {
    if n < 10 then 48 + n else 87 + n
  }

  predicate IsHexDigit(b: byte) {
    48 <= b <= 57 || 97 <= b <= 102
  }

  /** What a digest looks like in lower-case hexadecimal. */
  function Hex(digest: Bytes): (key: Bytes)
    ensures |key| == 2 * |digest|
    ensures forall i :: 0 <= i < |key| ==> IsHexDigit(key[i])
  {
    if digest == [] then [] else
      var last := digest[|digest| - 1];
      Hex(digest[..|digest| - 1]) + [HexDigit(last / 16), HexDigit(last % 16)]
  }

  /** The wire key of a password, from its SHA-224 digest. */
  method KeyFor(digest: Bytes) returns (key: array<byte>)
    requires |digest| == 28
    ensures fresh(key) && key[..] == Hex(digest) && key.Length == 56
  {
    key := new byte[56](_ => 0);
    for i := 0 to 28
      invariant key[..2 * i] == Hex(digest[..i])
    {
      assert digest[..i + 1][..i] == digest[..i];
      key[2 * i] := HexDigit(digest[i] / 16);
      key[2 * i + 1] := HexDigit(digest[i] % 16);
      assert key[..2 * i + 2] == key[..2 * i] + [key[2 * i], key[2 * i + 1]];
    }
    assert digest[..28] == digest && key[..56] == key[..];
  }

  /** The digits in which keys are written. */
  const DIGITS := "0123456789abcdef"

  /** Byte `i` of a digest is written in its two digits, the high one first. */
  lemma {:induction false} HexAt(digest: Bytes, i: nat)
    requires i < |digest|
    ensures Hex(digest)[2 * i] == DIGITS[digest[i] / 16] as int
    ensures Hex(digest)[2 * i + 1] == DIGITS[digest[i] % 16] as int
  {
    var n := |digest| - 1;
    if i < n {
      HexAt(digest[..n], i);
    } else {
      DigitIs(digest[n] / 16);
      DigitIs(digest[n] % 16);
    }
  }

  lemma DigitIs(n: nat)
    requires n < 16
    ensures HexDigit(n) == DIGITS[n] as int
  {
  }

  lemma HexDigitInjective(m: nat, n: nat)
    requires m < 16 && n < 16 && HexDigit(m) == HexDigit(n)
    ensures m == n
  {
  }

  /** Different digests have different keys. */
  lemma {:induction false} HexInjective(a: Bytes, b: Bytes)
    requires Hex(a) == Hex(b)
    ensures a == b
  {
    hide HexDigit, IsHexDigit;
    assert |a| == |b|;
    if a != [] {
      var n := |a| - 1;
      assert Hex(a)[..2 * n] == Hex(a[..n]) && Hex(b)[..2 * n] == Hex(b[..n]);
      HexInjective(a[..n], b[..n]);
      assert Hex(a)[2 * n] == HexDigit(a[n] / 16) && Hex(b)[2 * n] == HexDigit(b[n] / 16);
      assert Hex(a)[2 * n + 1] == HexDigit(a[n] % 16) && Hex(b)[2 * n + 1] == HexDigit(b[n] % 16);
      HexDigitInjective(a[n] / 16, b[n] / 16);
      HexDigitInjective(a[n] % 16, b[n] % 16);
      assert a == a[..n] + [a[n]] && b == b[..n] + [b[n]];
    }
  }

  // ---- parsing ----

  /** The header and where it ends. */
  function HeaderAt(buf: Bytes, keys: seq<Bytes>, names: Names): (r: Read<Header>)
    ensures r.Ok? ==> r.value.1 <= |buf|
  {
    var (presented, p1) :- TakeAt(buf, 0, 56);
    var (sep, p2) :- TakeAt(buf, p1, 2);
    match LastMatch(presented, keys)
    case None => Err(AuthFailed)
    case Some(user) => if sep != CRLF then Err(MalformedAddress) else AfterUser(buf, p2, user, names)
  }

  /** From the command on. */
  function AfterUser(buf: Bytes, p2: nat, user: nat, names: Names): (r: Read<Header>)
    ensures r.Ok? ==> r.value.1 <= |buf|
  {
    var (c, p3) :- U8At(buf, p2);
    var command :- CommandFromByte(c);
    var (target, p4) :- Socks5TargetAt(buf, p3, names);
    var (end, p5) :- TakeAt(buf, p4, 2);
    if end != CRLF then Err(MalformedAddress) else Ok((Header(user, command, target), p5))
  }

  function ParseSpec(buf: Bytes, keys: seq<Bytes>, names: Names): Result<Request, ProtocolError> {
    var (header, end) :- HeaderAt(buf, keys, names);
    Ok(Request(header, buf[end..]))
  }

  method Parse(buf: Bytes, keys: seq<Bytes>, names: Names) returns (request: Result<Request, ProtocolError>)
    ensures request == ParseSpec(buf, keys, names)
  {
    hide Socks5TargetAt, TakeAt;
    var r := new Cursor(buf);
    var presented :- r.Take(56);
    var sep :- r.Take(2);
    var found := Authenticate(presented, keys);
    if found.None? {
      return Err(AuthFailed);
    }
    if sep != CRLF {
      return Err(MalformedAddress);
    }
    var c :- r.U8();
    var command :- CommandFromByte(c);
    var target :- ReadTargetSocks5(r, names);
    var end :- r.Take(2);
    if end != CRLF {
      return Err(MalformedAddress);
    }
    var payload := r.Rest();
    return Ok(Request(Header(found.value, command, target), payload));
  }

  // ---- more bytes do not change a verdict ----

  lemma AfterUserSettled(buf: Bytes, ext: Bytes, p2: nat, user: nat, names: Names)
    ensures Settled(AfterUser(buf, p2, user, names), AfterUser(buf + ext, p2, user, names))
  {
    hide Socks5TargetAt, TakeAt;
    U8Settled(buf, ext, p2);
    Socks5TargetSettled(buf, ext, p2 + 1, names);
    var target := Socks5TargetAt(buf, p2 + 1, names);
    if target.Ok? {
      TakeSettled(buf, ext, target.value.1, 2);
    }
  }

  lemma HeaderSettled(buf: Bytes, ext: Bytes, keys: seq<Bytes>, names: Names)
    ensures Settled(HeaderAt(buf, keys, names), HeaderAt(buf + ext, keys, names))
  {
    hide AfterUser, TakeAt;
    TakeSettled(buf, ext, 0, 56);
    TakeSettled(buf, ext, 56, 2);
    var presented := TakeAt(buf, 0, 56);
    if presented.Ok? && LastMatch(presented.value.0, keys).Some? {
      AfterUserSettled(buf, ext, 58, LastMatch(presented.value.0, keys).value, names);
    }
  }

  /** With more bytes a request is the same request with more payload, and a refusal the same refusal. */
  lemma ParseMonotone(buf: Bytes, ext: Bytes, keys: seq<Bytes>, names: Names)
    ensures match ParseSpec(buf, keys, names)
      case Ok(r) => ParseSpec(buf + ext, keys, names) == Ok(r.(payload := r.payload + ext))
      case Err(e) => e != Incomplete ==> ParseSpec(buf + ext, keys, names) == Err(e)
  {
    hide HeaderAt;
    HeaderSettled(buf, ext, keys, names);
    var header := HeaderAt(buf, keys, names);
    if header.Ok? {
      assert (buf + ext)[header.value.1..] == buf[header.value.1..] + ext;
    }
  }

  /** Cutting a request anywhere inside its header leaves it incomplete. */
  lemma StrictPrefixIncomplete(buf: Bytes, keys: seq<Bytes>, names: Names, k: nat)
    requires ParseSpec(buf, keys, names).Ok?
    requires k < |buf| - |ParseSpec(buf, keys, names).value.payload|
    ensures ParseSpec(buf[..k], keys, names) == Err(Incomplete)
  {
    assert buf == buf[..k] + buf[k..];
    ParseMonotone(buf[..k], buf[k..], keys, names);
  }

  /** 318 bytes always get a verdict. */
  lemma Decided(buf: Bytes, keys: seq<Bytes>, names: Names)
    requires |buf| >= HEADER_LIMIT
    ensures ParseSpec(buf, keys, names) != Err(Incomplete)
  {
    hide HostAt;
    HostDecided(buf, 59, Socks5Kind, names);
  }

  // ---- written headers read back ----

  datatype Wire = Wire(key: Bytes, command: Command, address: Address, port: nat) {
    predicate Writable(names: Names) {
      |key| == 56 && port < 0x1_0000 && address.Writable(names)
    }
  }

  function CommandByte(c: Command): byte {
    if c.Connect? then 1 else 3
  }

  function PrintFront(w: Wire): Bytes {
    w.key + [13, 10] + [CommandByte(w.command)]
  }

  function Print(w: Wire): Bytes
    requires w.port < 0x1_0000 && (w.address.Name? ==> |w.address.name| < 256)
  {
    PrintFront(w) + PrintAddress(w.address, Socks5Kind) + PrintPort(w.port) + [13, 10]
  }

  lemma FrontReads(w: Wire, after: Bytes)
    requires |w.key| == 56
    ensures var buf := PrintFront(w) + after;
      && TakeAt(buf, 0, 56) == Ok((w.key, 56)) && TakeAt(buf, 56, 2) == Ok((CRLF, 58))
      && U8At(buf, 58) == Ok((CommandByte(w.command), 59)) && |PrintFront(w)| == 59
  {
    var buf := PrintFront(w) + after;
    assert buf[0..56] == w.key && buf[56..58] == CRLF;
  }

  /** A written header with any payload parses to the last user with that key, its command, its normalised target
      and exactly the payload. */
  lemma RoundTrip(w: Wire, keys: seq<Bytes>, names: Names, payload: Bytes)
    requires w.Writable(names) && w.key in keys
    ensures LastMatch(w.key, keys).Some?
    ensures ParseSpec(Print(w) + payload, keys, names)
         == Ok(Request(Header(LastMatch(w.key, keys).value, w.command, Target(w.address.Meaning(names), w.port)),
                       payload))
  {
    hide PrintFront, PrintAddress, PrintPort, U8At, U16At, TakeAt, HostAt;
    var front, address, port := PrintFront(w), PrintAddress(w.address, Socks5Kind), PrintPort(w.port);
    var buf := Print(w) + payload;
    assert CommandFromByte(CommandByte(w.command)) == Ok(w.command);
    FrontReads(w, address + port + CRLF + payload);
    assert buf == front + (address + port + CRLF + payload);
    AddressRoundTrip(front, w.address, port + CRLF + payload, Socks5Kind, names);
    assert buf == front + address + (port + CRLF + payload);
    PortRoundTrip(front + address, w.port, CRLF + payload);
    assert buf == front + address + port + (CRLF + payload);
    EndReads(front + address + port, payload);
    assert buf == front + address + port + CRLF + payload;
    assert buf[|Print(w)|..] == payload;
  }

  lemma EndReads(before: Bytes, payload: Bytes)
    ensures TakeAt(before + CRLF + payload, |before|, 2) == Ok((CRLF, |before| + 2))
  {
    assert (before + CRLF + payload)[|before|..|before| + 2] == CRLF;
  }

  /** The limit is sharp: the longest header is 318 bytes long, and 317 of them are not enough. */
  lemma LimitIsSharp(w: Wire, keys: seq<Bytes>, names: Names)
    requires w.Writable(names) && w.key in keys && w.address.Name? && |w.address.name| == MAX_DOMAIN_LEN
    ensures |Print(w)| == HEADER_LIMIT
    ensures ParseSpec(Print(w)[..HEADER_LIMIT - 1], keys, names) == Err(Incomplete)
  {
    hide ParseSpec;
    RoundTrip(w, keys, names, []);
    assert Print(w) + [] == Print(w);
    StrictPrefixIncomplete(Print(w), keys, names, HEADER_LIMIT - 1);
  }

  /** Whatever parses was written: the wire is found again in the buffer. */
  lemma OnlyPrinted(buf: Bytes, keys: seq<Bytes>, names: Names) returns (w: Wire, payload: Bytes)
    requires ParseSpec(buf, keys, names).Ok?
    ensures w.Writable(names) && w.key in keys && buf == Print(w) + payload
  {
    hide HostAt, U16At, PrintAddress, PrintPort;
    var key, command := buf[0..56], CommandFromByte(buf[58]).value;
    assert buf[58] == CommandByte(command);
    assert buf[..59] == key + CRLF + [CommandByte(command)];
    var address := HostIsPrinted(buf, 59, Socks5Kind, names);
    var p := HostAt(buf, 59, Socks5Kind, names).value.1;
    PortIsPrinted(buf, p);
    w, payload := Wire(key, command, address, U16At(buf, p).value.0), buf[p + 4..];
    assert buf == buf[..59] + buf[59..p] + buf[p..p + 2] + buf[p + 2..p + 4] + buf[p + 4..];
  }

  /** A buffer is a request exactly when it is a written header with a known key and some payload, and then it means
      what was written. */
  lemma ParsedIff(buf: Bytes, keys: seq<Bytes>, names: Names)
    ensures ParseSpec(buf, keys, names).Ok?
       <==> exists w: Wire, payload :: w.Writable(names) && w.key in keys && buf == Print(w) + payload
    ensures forall w: Wire, payload :: w.Writable(names) && w.key in keys && buf == Print(w) + payload ==>
              LastMatch(w.key, keys).Some?
              && ParseSpec(buf, keys, names)
                 == Ok(Request(Header(LastMatch(w.key, keys).value, w.command,
                                      Target(w.address.Meaning(names), w.port)), payload))
  {
    hide ParseSpec, Print, LastMatch;
    if ParseSpec(buf, keys, names).Ok? {
      var w, payload := OnlyPrinted(buf, keys, names);
    }
    forall w: Wire, payload: Bytes | w.Writable(names) && w.key in keys && buf == Print(w) + payload
      ensures LastMatch(w.key, keys).Some?
              && ParseSpec(buf, keys, names)
                 == Ok(Request(Header(LastMatch(w.key, keys).value, w.command,
                                      Target(w.address.Meaning(names), w.port)), payload)) {
      RoundTrip(w, keys, names, payload);
    }
  }
}
