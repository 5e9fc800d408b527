/** The VMess request header, with its cryptography as parameters. */
module VmessHeader {
  import opened Wrappers
  import opened Bits
  import opened Reader
  import opened Addr
  import Aead

  const PREFIX := 42
  const MAX_HEADER_LEN := 2048
  const MAX_CLOCK_SKEW := 120

  datatype Command = Tcp | Udp

  function CommandFromByte(b: byte): Result<Command, ProtocolError> {
    match b
    case 1 => Ok(Tcp)
    case 2 => Ok(Udp)
    case other => Err(UnsupportedCommand(other))
  }

  /** Key material of one user. */
  datatype Credential = Credential(cmdKey: Bytes, authKey: Bytes)

  /** The primitives: block cipher, checksums, and the two sealed header parts, which
      open to `None` when authentication fails. */
  datatype Crypto = Crypto(
    decryptBlock: (Bytes, Bytes) -> Bytes,
    crc32: Bytes -> Bytes,
    fnv1a: Bytes -> Bytes,
    openLength: (Bytes, Bytes, Bytes, Bytes) -> Option<Bytes>,
    openHeader: (Bytes, Bytes, Bytes, Bytes) -> Option<Bytes>)
  {
    ghost predicate Valid() {
      forall c, b :: |decryptBlock(c, b)| == 16
    }
  }

  datatype Fields = Fields(command: Command, target: Target, bodyKey: Bytes, bodyIv: Bytes, security: byte,
                           options: byte, responseV: byte)

  datatype Request = Request(user: nat, fields: Fields, payload: Bytes)

  /** The time stamp of an identifier that decrypts consistently under a credential. */
  function OpenAuthId(x: Crypto, cred: Credential, encrypted: Bytes): Option<nat>
    requires x.Valid()
  {
    var block := x.decryptBlock(cred.authKey, encrypted);
    if block[12..16] != x.crc32(block[..12]) then None else Some(BeNat(block[..8]))
  }

  /** The last credential under which the identifier opens, and its time stamp. */
  function FindUser(x: Crypto, creds: seq<Credential>, eauth: Bytes): (r: Option<(nat, nat)>)
    requires x.Valid()
    ensures r.Some? ==> r.value.0 < |creds|
  {
    if creds == [] then
      None
    else
      match OpenAuthId(x, creds[|creds| - 1], eauth)
      case Some(ts) => Some((|creds| - 1, ts))
      case None => FindUser(x, creds[..|creds| - 1], eauth)
  }

  /** The fields of an opened header. */
  function DecodeHeaderSpec(x: Crypto, header: Bytes, names: Names): Result<Fields, ProtocolError> {
    if |header| < 4 then
      Err(Incomplete)
    else
      var body, checksum := header[..|header| - 4], header[|header| - 4..];
      if checksum != x.fnv1a(body) then Err(AuthFailed) else FieldsAt(body, names)
  }

  function FieldsAt(body: Bytes, names: Names): Result<Fields, ProtocolError> {
    var (version, p1) :- U8At(body, 0);
    if version != 1 then Err(UnsupportedVersion(1))
    else
      var (iv, p2) :- TakeAt(body, p1, 16);
      var (key, p3) :- TakeAt(body, p2, 16);
      var (responseV, p4) :- U8At(body, p3);
      var (options, p5) :- U8At(body, p4);
      var (padSec, p6) :- U8At(body, p5);
      var (_, p7) :- U8At(body, p6);
      var (c, p8) :- U8At(body, p7);
      var command :- CommandFromByte(c);
      var (port, p9) :- U16At(body, p8);
      var (host, p10) :- HostAt(body, p9, VlessKind, names);
      var (_, _) :- TakeAt(body, p10, padSec / 16);
      Ok(Fields(command, Target(host, port), key, iv, padSec % 16, options, responseV))
  }

  method DecodeHeader(x: Crypto, header: Bytes, names: Names) returns (fields: Result<Fields, ProtocolError>)
    ensures fields == DecodeHeaderSpec(x, header, names)
  {
    hide HostAt, TakeAt, U16At;
    if |header| < 4 {
      return Err(Incomplete);
    }
    var split := |header| - 4;
    var body, checksum := header[..split], header[split..];
    var intact := CtEq(checksum, x.fnv1a(body));
    if !intact {
      return Err(AuthFailed);
    }
    var r := new Cursor(body);
    var version :- r.U8();
    if version != 1 {
      return Err(UnsupportedVersion(1));
    }
    var bodyIv :- r.Take(16);
    var bodyKey :- r.Take(16);
    var responseV :- r.U8();
    var options :- r.U8();
    var padSec :- r.U8();
    var _ :- r.U8();
    var c :- r.U8();
    var command :- CommandFromByte(c);
    var port :- r.U16Be();
    var host :- ReadHost(r, VlessKind, names);
    var _ :- r.Take(padSec / 16);
    return Ok(Fields(command, Target(host, port), bodyKey, bodyIv, padSec % 16, options, responseV));
  }

  /** The length that the sealed length states. */
  function HeaderLen(x: Crypto, cred: Credential, buf: Bytes): Result<nat, ProtocolError>
    requires |buf| >= PREFIX
  {
    match x.openLength(cred.cmdKey, buf[..16], buf[34..42], buf[16..34])
    case None => Err(AuthFailed)
    case Some(plain) => if |plain| < 2 then Err(AuthFailed) else Ok(BeNat(plain[..2]))
  }

  /** Who sent the prefix and how long the header is. */
  function PrefixAt(x: Crypto, buf: Bytes, creds: seq<Credential>, now: nat): (r: Result<(nat, nat), ProtocolError>)
    requires x.Valid() && |buf| >= PREFIX
    ensures r.Ok? ==> r.value.0 < |creds| && r.value.1 <= MAX_HEADER_LEN
  {
    match FindUser(x, creds, buf[..16])
    case None => Err(AuthFailed)
    case Some((user, ts)) =>
      if AbsDiff(ts, now) > MAX_CLOCK_SKEW then Err(AuthFailed)
      else
        var len :- HeaderLen(x, creds[user], buf);
        if len > MAX_HEADER_LEN then Err(LengthExceeded) else Ok((user, len))
  }

  /** Where a header of `len` bytes ends. */
  function BodyEnd(len: nat): nat {
    PREFIX + len + 16
  }

  function ParseSpec(x: Crypto, buf: Bytes, creds: seq<Credential>, now: nat, names: Names):
      Result<Request, ProtocolError>
    requires x.Valid()
  {
    if |buf| < PREFIX then
      Err(Incomplete)
    else
      var (user, len) :- PrefixAt(x, buf, creds, now);
      if |buf| < BodyEnd(len) then Err(Incomplete)
      else match x.openHeader(creds[user].cmdKey, buf[..16], buf[34..42], buf[PREFIX..BodyEnd(len)])
        case None => Err(AuthFailed)
        case Some(header) =>
          var fields :- DecodeHeaderSpec(x, header, names);
          Ok(Request(user, fields, buf[BodyEnd(len)..]))
  }

  method Parse(x: Crypto, buf: Bytes, creds: seq<Credential>, now: nat, names: Names)
    returns (request: Result<Request, ProtocolError>)
    requires x.Valid()
    ensures request == ParseSpec(x, buf, creds, now, names)
  {
    hide OpenAuthId, DecodeHeaderSpec, HeaderLen, BeNat;
    if |buf| < PREFIX {
      return Err(Incomplete);
    }
    var eauth, encLen, nonce := buf[..16], buf[16..34], buf[34..42];
    var found: Option<(nat, nat)> := None;
    for i := 0 to |creds|
      invariant found == FindUser(x, creds[..i], eauth)
    {
      assert creds[..i + 1][..i] == creds[..i];
      var ts := OpenAuthId(x, creds[i], eauth);
      if ts.Some? {
        found := Some((i, ts.value));
      }
    }
    assert creds[..|creds|] == creds;
    if found.None? {
      return Err(AuthFailed);
    }
    var (user, ts) := found.value;
    if AbsDiff(ts, now) > MAX_CLOCK_SKEW {
      return Err(AuthFailed);
    }
    var len :- HeaderLen(x, creds[user], buf);
    if len > MAX_HEADER_LEN {
      return Err(LengthExceeded);
    }
    var bodyEnd := PREFIX + len + 16;
    if |buf| < bodyEnd {
      return Err(Incomplete);
    }
    var header := x.openHeader(creds[user].cmdKey, eauth, nonce, buf[PREFIX..bodyEnd]);
    if header.None? {
      return Err(AuthFailed);
    }
    var fields :- DecodeHeader(x, header.value, names);
    return Ok(Request(user, fields, buf[bodyEnd..]));
  }

  lemma IvLength(x: Crypto, buf: Bytes, creds: seq<Credential>, now: nat, names: Names)
    requires x.Valid() && ParseSpec(x, buf, creds, now, names).Ok?
    ensures |ParseSpec(x, buf, creds, now, names).value.fields.bodyIv| == 16
  {
    hide HostAt, PrefixAt;
  }

  // ---- more bytes do not change a verdict ----

  lemma PrefixKept(x: Crypto, buf: Bytes, ext: Bytes, creds: seq<Credential>, now: nat)
    requires x.Valid() && |buf| >= PREFIX
    ensures PrefixAt(x, buf + ext, creds, now) == PrefixAt(x, buf, creds, now)
  {
    hide FindUser, BeNat;
    var more := buf + ext;
    assert more[..16] == buf[..16] && more[16..34] == buf[16..34] && more[34..42] == buf[34..42];
  }

  /** With more bytes a request is the same request with more payload, and a refusal the same refusal. */
  lemma ParseMonotone(x: Crypto, buf: Bytes, ext: Bytes, creds: seq<Credential>, now: nat, names: Names)
    requires x.Valid()
    ensures match ParseSpec(x, buf, creds, now, names)
      case Ok(r) => ParseSpec(x, buf + ext, creds, now, names) == Ok(r.(payload := r.payload + ext))
      case Err(e) => e != Incomplete ==> ParseSpec(x, buf + ext, creds, now, names) == Err(e)
  {
    hide PrefixAt, DecodeHeaderSpec;
    if |buf| >= PREFIX {
      PrefixKept(x, buf, ext, creds, now);
      var prefix := PrefixAt(x, buf, creds, now);
      if prefix.Ok? && |buf| >= BodyEnd(prefix.value.1) {
        var end, more := BodyEnd(prefix.value.1), buf + ext;
        assert more[..16] == buf[..16] && more[34..42] == buf[34..42] && more[PREFIX..end] == buf[PREFIX..end];
        assert more[end..] == buf[end..] + ext;
      }
    }
  }

  /** The whole header has arrived. */
  predicate Complete(x: Crypto, buf: Bytes, creds: seq<Credential>, now: nat)
    requires x.Valid()
  {
    |buf| >= PREFIX && (PrefixAt(x, buf, creds, now).Ok? ==> |buf| >= BodyEnd(PrefixAt(x, buf, creds, now).value.1))
  }

  /** The header that a complete buffer opens to. */
  function OpenedHeader(x: Crypto, buf: Bytes, creds: seq<Credential>, now: nat): Option<Bytes>
    requires x.Valid() && Complete(x, buf, creds, now)
  {
    var prefix := PrefixAt(x, buf, creds, now);
    if prefix.Err? then None
    else x.openHeader(creds[prefix.value.0].cmdKey, buf[..16], buf[34..42], buf[PREFIX..BodyEnd(prefix.value.1)])
  }

  /** Less is there than the fields announce: 38 bytes to the command, then port, address and padding. */
  predicate FieldsShort(body: Bytes, names: Names) {
    || body == []
    || (body[0] == 1
        && (|body| < 38
            || (body[37] in {1, 2}
                && (|body| < 40 || HostShort(body, 40, VlessKind)
                    || (HostSound(body, 40, VlessKind, names)
                        && |body| < HostEnd(body, 40, VlessKind) + body[35] / 16)))))
  }

  /** The fields are `Incomplete` exactly when they are short. */
  lemma FieldsShortIff(body: Bytes, names: Names)
    ensures FieldsAt(body, names) == Err(Incomplete) <==> FieldsShort(body, names)
  {
    hide HostAt, HostShort, HostSound, HostEnd;
    if |body| >= 40 {
      HostCases(body, 40, VlessKind, names);
    }
  }

  /** A header shorter than its checksum, or intact and shorter than its fields. */
  predicate CutShort(x: Crypto, header: Bytes, names: Names) {
    || |header| < 4
    || (header[|header| - 4..] == x.fnv1a(header[..|header| - 4]) && FieldsShort(header[..|header| - 4], names))
  }

  lemma CutShortIff(x: Crypto, header: Bytes, names: Names)
    ensures DecodeHeaderSpec(x, header, names) == Err(Incomplete) <==> CutShort(x, header, names)
  {
    hide FieldsAt, FieldsShort;
    if |header| >= 4 {
      FieldsShortIff(header[..|header| - 4], names);
    }
  }

  /** Once the whole header is there, `Incomplete` means that an authenticated header is itself cut short, and no
      further byte will change it; otherwise a complete buffer has its verdict. */
  lemma CompleteIncomplete(x: Crypto, buf: Bytes, ext: Bytes, creds: seq<Credential>, now: nat, names: Names)
    requires x.Valid() && Complete(x, buf, creds, now)
    ensures var header := OpenedHeader(x, buf, creds, now);
      ParseSpec(x, buf, creds, now, names) == Err(Incomplete) <==> header.Some? && CutShort(x, header.value, names)
    ensures ParseSpec(x, buf, creds, now, names) == Err(Incomplete) ==>
            ParseSpec(x, buf + ext, creds, now, names) == Err(Incomplete)
  {
    hide DecodeHeaderSpec, CutShort;
    PrefixKept(x, buf, ext, creds, now);
    PrefixErrors(x, buf, creds, now);
    hide PrefixAt;
    var prefix := PrefixAt(x, buf, creds, now);
    if prefix.Ok? {
      var end, more := BodyEnd(prefix.value.1), buf + ext;
      assert more[..16] == buf[..16] && more[34..42] == buf[34..42] && more[PREFIX..end] == buf[PREFIX..end];
      var header := OpenedHeader(x, buf, creds, now);
      if header.Some? {
        CutShortIff(x, header.value, names);
      }
    }
  }

  lemma PrefixErrors(x: Crypto, buf: Bytes, creds: seq<Credential>, now: nat)
    requires x.Valid() && |buf| >= PREFIX
    ensures PrefixAt(x, buf, creds, now) != Err(Incomplete)
  {
    hide FindUser, BeNat;
  }

  /** 2106 bytes are always a complete header. */
  lemma EnoughIsComplete(x: Crypto, buf: Bytes, creds: seq<Credential>, now: nat)
    requires x.Valid() && |buf| >= 2106
    ensures Complete(x, buf, creds, now)
  {
    hide PrefixAt;
  }

  // ---- a written header reads back ----

  /** A header as it is written; what stands behind the padding, in `rest`, is not read. */
  datatype Wire = Wire(bodyIv: Bytes, bodyKey: Bytes, responseV: byte, options: byte, padding: Bytes, security: nat,
                       reserved: byte, command: Command, port: nat, address: Address, rest: Bytes) {
    predicate Writable(names: Names) {
      |bodyIv| == 16 && |bodyKey| == 16 && |padding| < 16 && security < 16 && port < 0x1_0000 && address.Writable(names)
    }
  }

  function CommandByte(c: Command): byte {
    if c.Tcp? then 1 else 2
  }

  /** Version, IV, key, the five single bytes; then port, address and padding. */
  function PrintFront(w: Wire): Bytes
    requires |w.padding| < 16 && w.security < 16
  {
    [1] + w.bodyIv + w.bodyKey
      + [w.responseV, w.options, 16 * |w.padding| + w.security, w.reserved, CommandByte(w.command)]
  }

  function Print(w: Wire): Bytes
    requires |w.padding| < 16 && w.security < 16 && w.port < 0x1_0000 && (w.address.Name? ==> |w.address.name| < 256)
  {
    PrintFront(w) + PrintPort(w.port) + PrintAddress(w.address, VlessKind) + w.padding + w.rest
  }

  function Meaning(w: Wire, names: Names): Fields
    requires w.security < 16
  {
    Fields(w.command, Target(w.address.Meaning(names), w.port), w.bodyKey, w.bodyIv, w.security, w.options, w.responseV)
  }

  lemma FrontReads(w: Wire, after: Bytes)
    requires |w.bodyIv| == 16 && |w.bodyKey| == 16 && |w.padding| < 16 && w.security < 16
    ensures var b := PrintFront(w) + after;
      && U8At(b, 0) == Ok((1, 1)) && TakeAt(b, 1, 16) == Ok((w.bodyIv, 17)) && TakeAt(b, 17, 16) == Ok((w.bodyKey, 33))
      && U8At(b, 33) == Ok((w.responseV, 34)) && U8At(b, 34) == Ok((w.options, 35))
      && U8At(b, 35) == Ok((16 * |w.padding| + w.security, 36)) && U8At(b, 36) == Ok((w.reserved, 37))
      && U8At(b, 37) == Ok((CommandByte(w.command), 38)) && |PrintFront(w)| == 38
  {
    var b := PrintFront(w) + after;
    assert b[1..17] == w.bodyIv && b[17..33] == w.bodyKey;
  }

  /** Every field of a written header is read back where it belongs. */
  lemma FieldsRoundTrip(w: Wire, names: Names)
    requires w.Writable(names)
    ensures FieldsAt(Print(w), names) == Ok(Meaning(w, names))
  {
    hide PrintFront, PrintAddress, PrintPort, U8At, U16At, TakeAt, HostAt;
    var front, port, address := PrintFront(w), PrintPort(w.port), PrintAddress(w.address, VlessKind);
    var b := Print(w);
    assert CommandFromByte(CommandByte(w.command)) == Ok(w.command);
    var after := w.padding + w.rest;
    FrontReads(w, port + address + after);
    assert b == front + (port + address + after);
    PortRoundTrip(front, w.port, address + after);
    assert b == front + port + (address + after);
    AddressRoundTrip(front + port, w.address, after, VlessKind, names);
    assert b == front + port + address + after;
    EndReads(front + port + address, w.padding, w.rest);
    assert b == front + port + address + w.padding + w.rest;
    assert (16 * |w.padding| + w.security) / 16 == |w.padding| && (16 * |w.padding| + w.security) % 16 == w.security;
  }

  lemma EndReads(before: Bytes, padding: Bytes, rest: Bytes)
    requires |padding| < 16
    ensures TakeAt(before + padding + rest, |before|, |padding|) == Ok((padding, |before| + |padding|))
  {
    assert (before + padding + rest)[|before|..|before| + |padding|] == padding;
  }

  /** A header with its checksum. */
  function Checked(x: Crypto, body: Bytes): Bytes {
    body + x.fnv1a(body)
  }

  lemma CheckedDecodes(x: Crypto, w: Wire, names: Names)
    requires w.Writable(names) && |x.fnv1a(Print(w))| == 4
    ensures DecodeHeaderSpec(x, Checked(x, Print(w)), names) == Ok(Meaning(w, names))
  {
    hide FieldsAt, Print;
    var body := Print(w);
    assert Checked(x, body)[..|body|] == body && Checked(x, body)[|body|..] == x.fnv1a(body);
    FieldsRoundTrip(w, names);
  }

  /** A time stamp as a client writes it: eight bytes, the most significant first. */
  function TimeBytes(ts: nat): Bytes
    requires ts < 0x1_0000_0000_0000_0000
  {
    [ts / 0x100_0000_0000_0000, ts / 0x1_0000_0000_0000 % 256, ts / 0x100_0000_0000 % 256, ts / 0x1_0000_0000 % 256,
     ts / 0x100_0000 % 256, ts / 0x1_0000 % 256, ts / 0x100 % 256, ts % 256]
  }

  /** The identifier of a request before it is encrypted: the time, then four random bytes. */
  datatype AuthId = AuthId(time: nat, random: Bytes) {
    predicate Writable() {
      time < 0x1_0000_0000_0000_0000 && |random| == 4
    }

    function Bytes(): seq<byte>
      requires Writable()
    {
      TimeBytes(time) + random
    }
  }

  lemma BeNatNext(b: Bytes, n: nat)
    requires n < |b|
    ensures BeNat(b[..n + 1]) == 256 * BeNat(b[..n]) + b[n]
  {
    assert b[..n + 1][..n] == b[..n];
  }

  /** The bytes of a time are its digits. */
  lemma TimeDigits(ts: nat)
    requires ts < 0x1_0000_0000_0000_0000
    ensures |TimeBytes(ts)| == 8 && ByteShift(ts, 8) == 0
    ensures forall n :: 0 <= n < 8 ==> TimeBytes(ts)[n] == ByteShift(ts, 7 - n) % 256
  {
    ByteShifts(ts);
    assert ByteShift(ts, 7) % 256 == ByteShift(ts, 7);
    hide ByteShift;
  }

  /** The time is read back. */
  lemma TimeBack(ts: nat)
    requires ts < 0x1_0000_0000_0000_0000
    ensures BeNat(TimeBytes(ts)) == ts
  {
    hide TimeBytes;
    TimeDigits(ts);
    var b := TimeBytes(ts);
    assert b[..8] == b && BeNat(b[..0]) == 0 && ByteShift(ts, 0) == ts;
    hide BeNat;
    for n: nat := 0 to 8
      invariant BeNat(b[..n]) == ByteShift(ts, 8 - n)
    {
      BeNatNext(b, n);
      assert ByteShift(ts, 8 - n) == ByteShift(ts, 7 - n) / 256;
    }
  }

  /** The credential's key decrypts `eauth` to the identifier and its checksum. */
  ghost predicate Encrypts(x: Crypto, cred: Credential, id: AuthId, eauth: Bytes) {
    && id.Writable() && |x.crc32(id.Bytes())| == 4
    && x.decryptBlock(cred.authKey, eauth) == id.Bytes() + x.crc32(id.Bytes())
  }

  /** What the key decrypts `eauth` to does not end with its checksum. */
  ghost predicate Rejects(x: Crypto, cred: Credential, eauth: Bytes)
    requires x.Valid()
  {
    var block := x.decryptBlock(cred.authKey, eauth);
    block[12..16] != x.crc32(block[..12])
  }

  /** An identifier that a client has written opens to its time. */
  lemma AuthIdOpens(x: Crypto, cred: Credential, id: AuthId, eauth: Bytes)
    requires x.Valid() && Encrypts(x, cred, id, eauth)
    ensures OpenAuthId(x, cred, eauth) == Some(id.time)
  {
    hide BeNat, TimeBytes;
    TimeDigits(id.time);
    var block := x.decryptBlock(cred.authKey, eauth);
    assert block[..12] == id.Bytes() && block[12..16] == x.crc32(id.Bytes()) && block[..8] == TimeBytes(id.time);
    TimeBack(id.time);
  }

  /** The user is the last one whose key accepts the identifier. */
  lemma {:induction false} UserFound(x: Crypto, creds: seq<Credential>, id: AuthId, eauth: Bytes, user: nat)
    requires x.Valid() && user < |creds| && Encrypts(x, creds[user], id, eauth)
    requires forall j :: user < j < |creds| ==> Rejects(x, creds[j], eauth)
    ensures FindUser(x, creds, eauth) == Some((user, id.time))
    decreases |creds|
  {
    var last := |creds| - 1;
    if user == last {
      AuthIdOpens(x, creds[user], id, eauth);
    } else {
      assert Rejects(x, creds[last], eauth);
      UserFound(x, creds[..last], id, eauth, user);
    }
  }

  /** What a client sends before its payload: its identifier and the bytes. */
  datatype Sent = Sent(id: AuthId, eauth: Bytes, sealedLen: Bytes, nonce: Bytes, sealedHeader: Bytes) {
    function Bytes(): seq<byte> {
      eauth + sealedLen + nonce + sealedHeader
    }
  }

  /** The identifier is that of the user, and no later key accepts it. */
  ghost predicate Identifies(x: Crypto, creds: seq<Credential>, s: Sent, user: nat)
    requires x.Valid()
  {
    && |s.eauth| == 16 && |s.sealedLen| == 18 && |s.nonce| == 8
    && user < |creds| && Encrypts(x, creds[user], s.id, s.eauth)
    && forall j :: user < j < |creds| ==> Rejects(x, creds[j], s.eauth)
  }

  /** It is not more than two minutes old, and not more than two minutes ahead. */
  predicate Timely(s: Sent, now: nat) {
    s.id.time <= now + 120 && now <= s.id.time + 120
  }

  /** The first two bytes of an opened length are this one, the high byte first. */
  predicate SaysLength(plain: Option<Bytes>, len: nat) {
    plain.Some? && |plain.value| >= 2 && plain.value[..2] == [len / 256 % 256, len % 256]
  }

  /** The identifier is the user's and timely, and the sealed parts open to `header` and its length. */
  ghost predicate Opens(x: Crypto, creds: seq<Credential>, now: nat, s: Sent, user: nat, header: Bytes)
    requires x.Valid()
  {
    && Identifies(x, creds, s, user) && Timely(s, now)
    && 16 <= |s.sealedHeader| <= 2064
    && SaysLength(x.openLength(creds[user].cmdKey, s.eauth, s.nonce, s.sealedLen), |s.sealedHeader| - 16)
    && x.openHeader(creds[user].cmdKey, s.eauth, s.nonce, s.sealedHeader) == Some(header)
  }

  /** An identifier of any other time is refused, whatever follows it. */
  lemma UntimelyRefused(x: Crypto, creds: seq<Credential>, now: nat, names: Names, s: Sent, user: nat, more: Bytes)
    requires x.Valid() && Identifies(x, creds, s, user) && !Timely(s, now)
    ensures ParseSpec(x, s.Bytes() + more, creds, now, names) == Err(AuthFailed)
  {
    hide FindUser, HeaderLen, Encrypts, Rejects;
    var buf := s.Bytes() + more;
    assert |buf| >= PREFIX;
    assert buf[..16] == s.eauth;
    UserFound(x, creds, s.id, s.eauth, user);
  }

  /** So is one that no key accepts. */
  lemma NobodyRefused(x: Crypto, creds: seq<Credential>, now: nat, names: Names, buf: Bytes)
    requires x.Valid() && |buf| >= 42 && forall j :: 0 <= j < |creds| ==> Rejects(x, creds[j], buf[..16])
    ensures ParseSpec(x, buf, creds, now, names) == Err(AuthFailed)
  {
    hide Rejects, FindUser;
    NobodyFound(x, creds, buf[..16]);
  }

  lemma {:induction false} NobodyFound(x: Crypto, creds: seq<Credential>, eauth: Bytes)
    requires x.Valid() && forall j :: 0 <= j < |creds| ==> Rejects(x, creds[j], eauth)
    ensures FindUser(x, creds, eauth) == None
    decreases |creds|
  {
    if creds != [] {
      assert Rejects(x, creds[|creds| - 1], eauth);
      NobodyFound(x, creds[..|creds| - 1], eauth);
    }
  }

  /** A header that says it is longer than 2048 bytes is refused as soon as it says so. */
  lemma TooLongRefused(x: Crypto, creds: seq<Credential>, now: nat, names: Names, s: Sent, user: nat, len: nat,
                       more: Bytes)
    requires x.Valid() && Identifies(x, creds, s, user) && Timely(s, now) && 2048 < len < 0x1_0000
    requires SaysLength(x.openLength(creds[user].cmdKey, s.eauth, s.nonce, s.sealedLen), len)
    ensures ParseSpec(x, s.eauth + s.sealedLen + s.nonce + more, creds, now, names) == Err(LengthExceeded)
  {
    hide FindUser, Encrypts, Rejects, BeNat;
    var buf := s.eauth + s.sealedLen + s.nonce + more;
    assert buf[..16] == s.eauth && buf[16..34] == s.sealedLen && buf[34..42] == s.nonce;
    UserFound(x, creds, s.id, s.eauth, user);
    LengthBack(len);
  }

  /** What is sent parses as its header decodes, with everything after it as payload. */
  lemma SentParses(x: Crypto, creds: seq<Credential>, now: nat, names: Names, s: Sent, user: nat, header: Bytes,
                   payload: Bytes)
    requires x.Valid() && Opens(x, creds, now, s, user, header)
    ensures ParseSpec(x, s.Bytes() + payload, creds, now, names) == match DecodeHeaderSpec(x, header, names)
      case Ok(f) => Ok(Request(user, f, payload))
      case Err(e) => Err(e)
  {
    hide FindUser, DecodeHeaderSpec, BeNat, PrintPort, Encrypts, Rejects;
    UserFound(x, creds, s.id, s.eauth, user);
    var buf, len := s.Bytes() + payload, |s.sealedHeader| - 16;
    assert buf[..16] == s.eauth && buf[16..34] == s.sealedLen && buf[34..42] == s.nonce;
    assert buf[PREFIX..BodyEnd(len)] == s.sealedHeader && buf[BodyEnd(len)..] == payload;
    LengthBack(len);
    assert PrefixAt(x, buf, creds, now) == Ok((user, len));
  }

  /** What a client sends parses to its user, the fields of its header and exactly the payload. */
  lemma RoundTrip(x: Crypto, creds: seq<Credential>, now: nat, names: Names, s: Sent, user: nat, w: Wire,
                  payload: Bytes)
    requires x.Valid() && w.Writable(names) && |x.fnv1a(Print(w))| == 4
    requires Opens(x, creds, now, s, user, Checked(x, Print(w)))
    ensures ParseSpec(x, s.Bytes() + payload, creds, now, names) == Ok(Request(user, Meaning(w, names), payload))
  {
    hide ParseSpec, Opens, DecodeHeaderSpec, Print, Checked;
    SentParses(x, creds, now, names, s, user, Checked(x, Print(w)), payload);
    CheckedDecodes(x, w, names);
  }

  /** Cutting a request anywhere inside its header leaves it incomplete. */
  lemma StrictPrefixIncomplete(x: Crypto, buf: Bytes, creds: seq<Credential>, now: nat, names: Names, k: nat)
    requires x.Valid() && ParseSpec(x, buf, creds, now, names).Ok?
    requires k < |buf| - |ParseSpec(x, buf, creds, now, names).value.payload|
    ensures ParseSpec(x, buf[..k], creds, now, names) == Err(Incomplete)
  {
    hide ParseSpec;
    assert buf == buf[..k] + buf[k..];
    ParseMonotone(x, buf[..k], buf[k..], creds, now, names);
  }

  /** Whatever the primitives: a sealed header that is cut short waits for ever, however much follows it. */
  lemma WaitsForEver(x: Crypto, creds: seq<Credential>, now: nat, names: Names, s: Sent, user: nat, header: Bytes,
                     more: Bytes)
    requires x.Valid() && Opens(x, creds, now, s, user, header) && CutShort(x, header, names)
    ensures ParseSpec(x, s.Bytes() + more, creds, now, names) == Err(Incomplete)
  {
    hide ParseSpec, Opens, DecodeHeaderSpec, CutShort;
    SentParses(x, creds, now, names, s, user, header, more);
    CutShortIff(x, header, names);
  }

  lemma LengthBack(n: nat)
    requires n < 0x1_0000
    ensures BeNat([n / 256 % 256, n % 256]) == n
  {
    var b := [n / 256 % 256, n % 256];
    assert b[..1] == [b[0]] && [b[0]][..0] == [];
    assert BeNat([b[0]]) == b[0];
  }

  // ---- an instance ----

  const NOBODY := Credential([], [])

  /** Any checksums, a block cipher that does nothing, and sealing by a tag in front. */
  function Plainest(crc32: Bytes -> Bytes, fnv1a: Bytes -> Bytes, tag: Bytes): (x: Crypto)
    requires |tag| == 16
    ensures x.Valid()
  {
    Crypto((_, b) => if |b| == 16 then b else Zeros(16), crc32, fnv1a,
           (_, _, _, s) => Aead.BehindTag(tag, s), (_, _, _, s) => Aead.BehindTag(tag, s))
  }

  /** A header sealed under the plainest primitives, at time 0. */
  function PlainSent(crc32: Bytes -> Bytes, tag: Bytes, header: Bytes): Sent
    requires |header| < 0x1_0000
  {
    Sent(AuthId(0, Zeros(4)), Zeros(12) + crc32(Zeros(12)), tag + PrintPort(|header|), Zeros(8), tag + header)
  }

  lemma PlainOpens(crc32: Bytes -> Bytes, fnv1a: Bytes -> Bytes, tag: Bytes, header: Bytes)
    requires |tag| == 16 && |crc32(Zeros(12))| == 4 && |header| <= 2048
    ensures Opens(Plainest(crc32, fnv1a, tag), [NOBODY], 0, PlainSent(crc32, tag, header), 0, header)
  {
    hide BeNat;
    var x, s := Plainest(crc32, fnv1a, tag), PlainSent(crc32, tag, header);
    assert s.id.Bytes() == Zeros(12);
    assert s.sealedLen[..16] == tag && s.sealedLen[16..] == PrintPort(|header|);
    assert s.sealedHeader[..16] == tag && s.sealedHeader[16..] == header;
  }
}
