/** The VLESS request header. */
module Vless {
  import opened Wrappers
  import opened Reader
  import opened Addr

  const VERSION: byte := 0
  const HEADER_LIMIT := 531

  datatype Command = Tcp | Udp | Mux

  function CommandFromByte(b: byte): Result<Command, ProtocolError> {
    match b
    case 1 => Ok(Tcp)
    case 2 => Ok(Udp)
    case 3 => Ok(Mux)
    case other => Err(UnsupportedCommand(other))
  }

  datatype Header = Header(user: nat, command: Command, target: Option<Target>, flowRequested: bool)

  datatype Request = Request(header: Header, payload: Bytes)

  /** The header and where it ends. */
  function HeaderAt(buf: Bytes, users: seq<Bytes>, names: Names): (r: Read<Header>)
    ensures r.Ok? ==> r.value.1 <= |buf|
  {
    var (version, p1) :- U8At(buf, 0);
    if version != VERSION then Err(UnsupportedVersion(version))
    else
      var (id, p2) :- TakeAt(buf, p1, 16);
      match LastMatch(id, users)
      case None => Err(AuthFailed)
      case Some(user) => AfterUser(buf, p2, user, names)
  }

  /** From the addons on. */
  function AfterUser(buf: Bytes, p2: nat, user: nat, names: Names): (r: Read<Header>)
    ensures r.Ok? ==> r.value.1 <= |buf|
  {
    var (addonLen, p3) :- U8At(buf, p2);
    var (_, p4) :- TakeAt(buf, p3, addonLen);
    var (c, p5) :- U8At(buf, p4);
    var command :- CommandFromByte(c);
    if command.Mux? then
      Ok((Header(user, command, None, addonLen != 0), p5))
    else
      var (port, p6) :- U16At(buf, p5);
      var (host, p7) :- HostAt(buf, p6, VlessKind, names);
      Ok((Header(user, command, Some(Target(host, port)), addonLen != 0), p7))
  }

  function ParseSpec(buf: Bytes, users: seq<Bytes>, names: Names): Result<Request, ProtocolError> {
    var (header, end) :- HeaderAt(buf, users, names);
    Ok(Request(header, buf[end..]))
  }

  method Parse(buf: Bytes, users: seq<Bytes>, names: Names) returns (request: Result<Request, ProtocolError>)
    ensures request == ParseSpec(buf, users, names)
  {
    hide HostAt, TakeAt, U16At;
    var r := new Cursor(buf);
    var version :- r.U8();
    if version != VERSION {
      return Err(UnsupportedVersion(version));
    }
    var id :- r.Take(16);
    var found := Authenticate(id, users);
    if found.None? {
      return Err(AuthFailed);
    }
    var user := found.value;
    var addonLen :- r.U8();
    var _ :- r.Take(addonLen);
    var c :- r.U8();
    var command :- CommandFromByte(c);
    var target := None;
    if command != Mux {
      var port :- r.U16Be();
      var host :- ReadHost(r, VlessKind, names);
      target := Some(Target(host, port));
    }
    var payload := r.Rest();
    return Ok(Request(Header(user, command, target, addonLen != 0), payload));
  }

  // ---- more bytes do not change a verdict ----

  lemma AfterUserSettled(buf: Bytes, ext: Bytes, p2: nat, user: nat, names: Names)
    ensures Settled(AfterUser(buf, p2, user, names), AfterUser(buf + ext, p2, user, names))
  {
    hide HostAt, U16At, TakeAt;
    U8Settled(buf, ext, p2);
    if p2 < |buf| {
      var addonLen := buf[p2];
      TakeSettled(buf, ext, p2 + 1, addonLen);
      var p4 := p2 + 1 + addonLen;
      U8Settled(buf, ext, p4);
      U16Settled(buf, ext, p4 + 1);
      HostSettled(buf, ext, p4 + 3, VlessKind, names);
    }
  }

  lemma HeaderSettled(buf: Bytes, ext: Bytes, users: seq<Bytes>, names: Names)
    ensures Settled(HeaderAt(buf, users, names), HeaderAt(buf + ext, users, names))
  {
    hide AfterUser, TakeAt;
    U8Settled(buf, ext, 0);
    TakeSettled(buf, ext, 1, 16);
    var id := TakeAt(buf, 1, 16);
    if id.Ok? && LastMatch(id.value.0, users).Some? {
      AfterUserSettled(buf, ext, 17, LastMatch(id.value.0, users).value, names);
    }
  }

  /** With more bytes a request is the same request with more payload, and a refusal the same refusal. */
  lemma ParseMonotone(buf: Bytes, ext: Bytes, users: seq<Bytes>, names: Names)
    ensures match ParseSpec(buf, users, names)
      case Ok(r) => ParseSpec(buf + ext, users, names) == Ok(r.(payload := r.payload + ext))
      case Err(e) => e != Incomplete ==> ParseSpec(buf + ext, users, names) == Err(e)
  {
    hide HeaderAt;
    HeaderSettled(buf, ext, users, names);
    var header := HeaderAt(buf, users, names);
    if header.Ok? {
      assert (buf + ext)[header.value.1..] == buf[header.value.1..] + ext;
    }
  }

  /** Cutting a request anywhere inside its header leaves it incomplete. */
  lemma StrictPrefixIncomplete(buf: Bytes, users: seq<Bytes>, names: Names, k: nat)
    requires ParseSpec(buf, users, names).Ok?
    requires k < |buf| - |ParseSpec(buf, users, names).value.payload|
    ensures ParseSpec(buf[..k], users, names) == Err(Incomplete)
  {
    assert buf == buf[..k] + buf[k..];
    ParseMonotone(buf[..k], buf[k..], users, names);
  }

  /** 531 bytes always get a verdict. */
  lemma Decided(buf: Bytes, users: seq<Bytes>, names: Names)
    requires |buf| >= HEADER_LIMIT
    ensures ParseSpec(buf, users, names) != Err(Incomplete)
  {
    hide HostAt;
    var addonLen: nat := buf[17];
    HostDecided(buf, addonLen + 21, VlessKind, names);
  }

  // ---- written headers read back ----

  datatype Wire = Wire(id: Bytes, addons: Bytes, command: Command, port: nat, address: Address) {
    predicate Writable(names: Names) {
      |id| == 16 && |addons| < 256 && port < 0x1_0000 && address.Writable(names)
    }
  }

  function CommandByte(c: Command): byte {
    match c
    case Tcp => 1
    case Udp => 2
    case Mux => 3
  }

  /** Version, identifier, addons and command. */
  function PrintFront(w: Wire): Bytes
    requires |w.addons| < 256
  {
    [0] + w.id + [|w.addons|] + w.addons + [CommandByte(w.command)]
  }

  /** The whole header; a multiplexed stream has no address. */
  function Print(w: Wire): Bytes
    requires |w.addons| < 256 && w.port < 0x1_0000 && (w.address.Name? ==> |w.address.name| < 256)
  {
    PrintFront(w) + if w.command.Mux? then [] else PrintPort(w.port) + PrintAddress(w.address, VlessKind)
  }

  function Meaning(w: Wire, user: nat, names: Names): Header {
    var target := if w.command.Mux? then None else Some(Target(w.address.Meaning(names), w.port));
    Header(user, w.command, target, w.addons != [])
  }

  lemma FrontReads(w: Wire, after: Bytes)
    requires |w.id| == 16 && |w.addons| < 256
    ensures var buf, p := PrintFront(w) + after, 18 + |w.addons|;
      && U8At(buf, 0) == Ok((VERSION, 1)) && TakeAt(buf, 1, 16) == Ok((w.id, 17))
      && U8At(buf, 17) == Ok((|w.addons|, 18)) && TakeAt(buf, 18, |w.addons|) == Ok((w.addons, p))
      && U8At(buf, p) == Ok((CommandByte(w.command), p + 1))
      && |PrintFront(w)| == p + 1
  {
    var buf := PrintFront(w) + after;
    assert buf[1..17] == w.id;
    assert buf[18..18 + |w.addons|] == w.addons;
  }

  /** A written header with any payload parses to the last user with that identifier, its command, its normalised
      target and exactly the payload. */
  lemma RoundTrip(w: Wire, users: seq<Bytes>, names: Names, payload: Bytes)
    requires w.Writable(names) && w.id in users
    ensures LastMatch(w.id, users).Some?
    ensures ParseSpec(Print(w) + payload, users, names)
         == Ok(Request(Meaning(w, LastMatch(w.id, users).value, names), payload))
  {
    hide PrintFront, PrintAddress, PrintPort, U8At, U16At, TakeAt, HostAt;
    var front, port, address := PrintFront(w), PrintPort(w.port), PrintAddress(w.address, VlessKind);
    var buf := Print(w) + payload;
    assert CommandFromByte(CommandByte(w.command)) == Ok(w.command);
    if w.command.Mux? {
      FrontReads(w, payload);
      assert buf == front + payload;
    } else {
      FrontReads(w, port + address + payload);
      assert buf == front + (port + address + payload);
      PortRoundTrip(front, w.port, address + payload);
      assert buf == front + port + (address + payload);
      AddressRoundTrip(front + port, w.address, payload, VlessKind, names);
      assert buf == front + port + address + payload;
    }
    assert buf[|Print(w)|..] == payload;
  }

  /** The limit is sharp: the longest header is 531 bytes long, and 530 of them are not enough. */
  lemma LimitIsSharp(w: Wire, users: seq<Bytes>, names: Names)
    requires w.Writable(names) && w.id in users
    requires |w.addons| == 255 && !w.command.Mux? && w.address.Name? && |w.address.name| == MAX_DOMAIN_LEN
    ensures |Print(w)| == HEADER_LIMIT
    ensures ParseSpec(Print(w)[..HEADER_LIMIT - 1], users, names) == Err(Incomplete)
  {
    hide ParseSpec;
    RoundTrip(w, users, names, []);
    assert Print(w) + [] == Print(w);
    StrictPrefixIncomplete(Print(w), users, names, HEADER_LIMIT - 1);
  }

  /** The front of whatever parses is that of a written header. */
  lemma FrontIsPrinted(buf: Bytes, users: seq<Bytes>, names: Names) returns (w: Wire)
    requires ParseSpec(buf, users, names).Ok?
    ensures |w.id| == 16 && |w.addons| < 256 && w.id in users && |buf| > 18 + |w.addons|
    ensures PrintFront(w) == buf[..19 + |w.addons|]
    ensures CommandFromByte(buf[18 + |w.addons|]) == Ok(w.command) && w.address == V4(Zeros(4)) && w.port == 0
    ensures |w.addons| == buf[17]
  {
    hide HostAt, U16At;
    var n: nat := buf[17];
    var command := CommandFromByte(buf[18 + n]).value;
    assert buf[18 + n] == CommandByte(command);
    w := Wire(buf[1..17], buf[18..18 + n], command, 0, V4(Zeros(4)));
    assert buf[..19 + n] == [VERSION] + w.id + [|w.addons|] + w.addons + [CommandByte(command)];
  }

  /** Whatever parses was written: the wire is found again in the buffer. */
  lemma OnlyPrinted(buf: Bytes, users: seq<Bytes>, names: Names) returns (w: Wire, payload: Bytes)
    requires ParseSpec(buf, users, names).Ok?
    ensures w.Writable(names) && w.id in users && buf == Print(w) + payload
  {
    hide ParseSpec, PrintFront, HostAt, U16At;
    w := FrontIsPrinted(buf, users, names);
    var p := 19 + |w.addons|;
    payload := buf[p..];
    if !w.command.Mux? {
      AddressBehind(buf, users, names, p);
      var port, address, end := TargetIsPrinted(buf, p, names);
      SameFront(w, port, address);
      w, payload := w.(port := port, address := address), buf[end..];
      assert buf == buf[..p] + buf[p..end] + buf[end..];
    }
  }

  lemma SameFront(w: Wire, port: nat, address: Address)
    requires |w.addons| < 256
    ensures PrintFront(w.(port := port, address := address)) == PrintFront(w)
  {
  }

  lemma TargetIsPrinted(buf: Bytes, p: nat, names: Names) returns (port: nat, address: Address, end: nat)
    requires U16At(buf, p).Ok? && HostAt(buf, p + 2, VlessKind, names).Ok?
    ensures port < 0x1_0000 && address.Writable(names) && p <= end <= |buf|
    ensures buf[p..end] == PrintPort(port) + PrintAddress(address, VlessKind)
  {
    hide HostAt, U16At, PrintAddress, PrintPort;
    PortIsPrinted(buf, p);
    port := U16At(buf, p).value.0;
    address := HostIsPrinted(buf, p + 2, VlessKind, names);
    end := HostAt(buf, p + 2, VlessKind, names).value.1;
    assert buf[p..end] == buf[p..p + 2] + buf[p + 2..end];
  }

  lemma AddressBehind(buf: Bytes, users: seq<Bytes>, names: Names, p: nat)
    requires ParseSpec(buf, users, names).Ok?
    requires |buf| >= p >= 19 && p - 19 == buf[17] && CommandFromByte(buf[p - 1]).Ok?
    ensures !CommandFromByte(buf[p - 1]).value.Mux? ==> U16At(buf, p).Ok? && HostAt(buf, p + 2, VlessKind, names).Ok?
  {
    hide HostAt;
  }

  /** A buffer is a request exactly when it is a written header of a known user with some payload, and then it means
      what was written. */
  lemma ParsedIff(buf: Bytes, users: seq<Bytes>, names: Names)
    ensures ParseSpec(buf, users, names).Ok?
       <==> exists w: Wire, payload :: w.Writable(names) && w.id in users && buf == Print(w) + payload
    ensures forall w: Wire, payload :: w.Writable(names) && w.id in users && buf == Print(w) + payload ==>
              LastMatch(w.id, users).Some?
              && ParseSpec(buf, users, names) == Ok(Request(Meaning(w, LastMatch(w.id, users).value, names), payload))
  {
    hide ParseSpec, Print, LastMatch;
    if ParseSpec(buf, users, names).Ok? {
      var w, payload := OnlyPrinted(buf, users, names);
    }
    forall w: Wire, payload: Bytes | w.Writable(names) && w.id in users && buf == Print(w) + payload
      ensures LastMatch(w.id, users).Some?
              && ParseSpec(buf, users, names) == Ok(Request(Meaning(w, LastMatch(w.id, users).value, names), payload)) {
      RoundTrip(w, users, names, payload);
    }
  }
}
