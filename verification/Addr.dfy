/** Target addresses, in either of two tables of address types. */
module Addr {
  import opened Wrappers
  import opened Reader

  const MAX_DOMAIN_LEN := 253

  datatype AddrKind = VlessKind | Socks5Kind

  datatype Host = Ip(octets: Bytes) | Domain(name: Bytes)

  datatype Target = Target(host: Host, port: nat)

  /** What the standard library says about names: valid text, and text that is an IP address. */
  datatype Names = Names(valid: Bytes -> bool, parseIp: Bytes -> Option<Bytes>)

  function DomainType(kind: AddrKind): byte {
    if kind.VlessKind? then 2 else 3
  }

  function V6Type(kind: AddrKind): byte {
    if kind.VlessKind? then 3 else 4
  }

  predicate HasControl(raw: Bytes) {
    exists i :: 0 <= i < |raw| && (raw[i] <= 0x20 || raw[i] == 0x7f)
  }

  /** The host that a name stands for; a literal address is normalised. */
  function NameHost(names: Names, raw: Bytes): Result<Host, ProtocolError> {
    if !names.valid(raw) || HasControl(raw) then Err(MalformedAddress)
    else match names.parseIp(raw)
      case Some(ip) => Ok(Ip(ip))
      case None => Ok(Domain(raw))
  }

  function HostAt(buf: Bytes, pos: nat, kind: AddrKind, names: Names): (r: Read<Host>)
    ensures r.Ok? ==> pos < r.value.1 <= |buf|
  {
    var (ty, p1) :- U8At(buf, pos);
    if ty == 1 then
      var (o, p2) :- TakeAt(buf, p1, 4);
      Ok((Ip(o), p2))
    else if ty == DomainType(kind) then
      var (len, p2) :- U8At(buf, p1);
      if len == 0 then Err(MalformedAddress)
      else if len > MAX_DOMAIN_LEN then Err(LengthExceeded)
      else
        var (raw, p3) :- TakeAt(buf, p2, len);
        var host :- NameHost(names, raw);
        Ok((host, p3))
    else if ty == V6Type(kind) then
      var (o, p2) :- TakeAt(buf, p1, 16);
      Ok((Ip(o), p2))
    else
      Err(UnknownAddressType(ty))
  }

  method ReadHost(r: Cursor, kind: AddrKind, names: Names) returns (h: Result<Host, ProtocolError>)
    requires r.Valid()
    modifies r
    ensures r.Valid()
    ensures var read := HostAt(r.buf, old(r.pos), kind, names);
      match read case Ok((v, p)) => h == Ok(v) && r.pos == p case Err(e) => h == Err(e)
  {
    var ty :- r.U8();
    var v4: byte, domain: byte, v6: byte := 1, DomainType(kind), V6Type(kind);
    if ty == v4 {
      var o :- r.Take(4);
      return Ok(Ip(o));
    } else if ty == domain {
      var len :- r.U8();
      if len == 0 {
        return Err(MalformedAddress);
      }
      if len > MAX_DOMAIN_LEN {
        return Err(LengthExceeded);
      }
      var raw :- r.Take(len);
      if !names.valid(raw) {
        return Err(MalformedAddress);
      }
      var i := 0;
      while i < |raw| && !(raw[i] <= 0x20 || raw[i] == 0x7f)
        invariant i <= |raw| && forall j :: 0 <= j < i ==> !(raw[j] <= 0x20 || raw[j] == 0x7f)
      {
        i := i + 1;
      }
      if i < |raw| {
        return Err(MalformedAddress);
      }
      var ip := names.parseIp(raw);
      if ip.Some? {
        return Ok(Ip(ip.value));
      }
      return Ok(Domain(raw));
    } else if ty == v6 {
      var o :- r.Take(16);
      return Ok(Ip(o));
    } else {
      return Err(UnknownAddressType(ty));
    }
  }

  /** Address, then port, as Trojan and Shadowsocks have it. */
  function Socks5TargetAt(buf: Bytes, pos: nat, names: Names): (r: Read<Target>)
    ensures r.Ok? ==> pos < r.value.1 <= |buf|
  {
    var (host, p1) :- HostAt(buf, pos, Socks5Kind, names);
    var (port, p2) :- U16At(buf, p1);
    Ok((Target(host, port), p2))
  }

  method ReadTargetSocks5(r: Cursor, names: Names) returns (t: Result<Target, ProtocolError>)
    requires r.Valid()
    modifies r
    ensures r.Valid()
    ensures match Socks5TargetAt(r.buf, old(r.pos), names)
      case Ok((v, p)) => t == Ok(v) && r.pos == p
      case Err(e) => t == Err(e)
  {
    hide HostAt;
    var host :- ReadHost(r, Socks5Kind, names);
    var port :- r.U16Be();
    return Ok(Target(host, port));
  }

  // ---- more bytes do not change a verdict ----

  lemma HostSettled(buf: Bytes, ext: Bytes, pos: nat, kind: AddrKind, names: Names)
    ensures Settled(HostAt(buf, pos, kind, names), HostAt(buf + ext, pos, kind, names))
  {
    hide NameHost;
    U8Settled(buf, ext, pos);
    TakeSettled(buf, ext, pos + 1, 4);
    TakeSettled(buf, ext, pos + 1, 16);
    U8Settled(buf, ext, pos + 1);
    if pos + 1 < |buf| {
      TakeSettled(buf, ext, pos + 2, buf[pos + 1]);
    }
  }

  lemma Socks5TargetSettled(buf: Bytes, ext: Bytes, pos: nat, names: Names)
    ensures Settled(Socks5TargetAt(buf, pos, names), Socks5TargetAt(buf + ext, pos, names))
  {
    hide HostAt, U16At;
    HostSettled(buf, ext, pos, Socks5Kind, names);
    var host := HostAt(buf, pos, Socks5Kind, names);
    if host.Ok? {
      U16Settled(buf, ext, host.value.1);
    }
  }

  // ---- when an address is not all there ----

  /** Less is there than the type byte, and for a name the length byte, announce. */
  predicate HostShort(b: Bytes, p: nat, kind: AddrKind) {
    || |b| <= p
    || (b[p] == 1 && |b| < p + 5)
    || (b[p] == V6Type(kind) && |b| < p + 17)
    || (b[p] == DomainType(kind) && (|b| == p + 1 || (0 < b[p + 1] <= MAX_DOMAIN_LEN && |b| < p + 2 + b[p + 1])))
  }

  /** A known type, and a name that is neither empty, too long, invalid nor holding control characters. */
  predicate HostSound(b: Bytes, p: nat, kind: AddrKind, names: Names)
    requires !HostShort(b, p, kind)
  {
    || b[p] == 1
    || b[p] == V6Type(kind)
    || (b[p] == DomainType(kind) && 0 < b[p + 1] <= MAX_DOMAIN_LEN
        && names.valid(b[p + 2..p + 2 + b[p + 1]]) && !HasControl(b[p + 2..p + 2 + b[p + 1]]))
  }

  /** Where a sound address ends. */
  function HostEnd(b: Bytes, p: nat, kind: AddrKind): nat
    requires !HostShort(b, p, kind)
  {
    if b[p] == 1 then p + 5 else if b[p] == DomainType(kind) then p + 2 + b[p + 1] else p + 17
  }

  /** An address is `Incomplete` exactly when it is short, and is read exactly when it is sound. */
  lemma HostCases(b: Bytes, p: nat, kind: AddrKind, names: Names)
    ensures HostAt(b, p, kind, names) == Err(Incomplete) <==> HostShort(b, p, kind)
    ensures HostAt(b, p, kind, names).Ok? <==> !HostShort(b, p, kind) && HostSound(b, p, kind, names)
    ensures HostAt(b, p, kind, names).Ok? ==> HostAt(b, p, kind, names).value.1 == HostEnd(b, p, kind)
  {
    hide HasControl;
  }

  /** 255 bytes are enough for any address. */
  lemma HostDecided(buf: Bytes, pos: nat, kind: AddrKind, names: Names)
    requires |buf| >= pos + 255
    ensures HostAt(buf, pos, kind, names) != Err(Incomplete)
    ensures HostAt(buf, pos, kind, names).Ok? ==> HostAt(buf, pos, kind, names).value.1 <= pos + 255
  {
  }

  // ---- writing addresses ----

  /** No control character, no space and no DEL. */
  predicate Printable(n: Bytes) {
    forall i :: 0 <= i < |n| ==> 32 < n[i] && n[i] != 127
  }

  lemma PrintableIff(n: Bytes)
    ensures Printable(n) <==> !HasControl(n)
  {
  }

  datatype Address = V4(octets: Bytes) | Name(name: Bytes) | V6(octets: Bytes) {
    /** An address that can be written. */
    predicate Writable(names: Names) {
      match this
      case V4(o) => |o| == 4
      case V6(o) => |o| == 16
      case Name(n) => 0 < |n| <= 253 && names.valid(n) && Printable(n)
    }

    /** The host it stands for. */
    function Meaning(names: Names): Host {
      match this
      case V4(o) => Ip(o)
      case V6(o) => Ip(o)
      case Name(n) => if names.parseIp(n).Some? then Ip(names.parseIp(n).value) else Domain(n)
    }
  }

  /** Type, length of a name, and the address: the types of section 5 of RFC 1928, or the table of VLESS, which counts
      names and IPv6 addresses one lower. */
  function PrintAddress(a: Address, kind: AddrKind): Bytes
    requires a.Name? ==> |a.name| < 256
  {
    match a
    case V4(o) => [1] + o
    case Name(n) => [if kind.VlessKind? then 2 else 3, |n|] + n
    case V6(o) => [if kind.VlessKind? then 3 else 4] + o
  }

  function PrintPort(port: nat): (b: Bytes)
    requires port < 0x1_0000
    ensures |b| == 2
  {
    [port / 256, port % 256]
  }

  /** Reading what was written, wherever it stands. */
  lemma AddressRoundTrip(before: Bytes, a: Address, after: Bytes, kind: AddrKind, names: Names)
    requires a.Writable(names)
    ensures HostAt(before + PrintAddress(a, kind) + after, |before|, kind, names)
         == Ok((a.Meaning(names), |before| + |PrintAddress(a, kind)|))
  {
    hide HasControl, Printable;
    var text := PrintAddress(a, kind);
    var buf := before + text + after;
    var p := |before|;
    assert buf[p] == text[0];
    match a {
      case V4(o) => assert buf[p + 1..p + 5] == o;
      case V6(o) => assert buf[p + 1..p + 17] == o;
      case Name(n) =>
        assert buf[p + 1] == text[1] == |n|;
        assert buf[p + 2..p + 2 + |n|] == n;
        PrintableIff(n);
    }
  }

  lemma PortRoundTrip(before: Bytes, port: nat, after: Bytes)
    requires port < 0x1_0000
    ensures U16At(before + PrintPort(port) + after, |before|) == Ok((port, |before| + 2))
  {
    var buf := before + PrintPort(port) + after;
    assert buf[|before|..|before| + 2] == PrintPort(port);
  }

  /** What is read as an address was written: nothing else is. */
  lemma HostIsPrinted(b: Bytes, p: nat, kind: AddrKind, names: Names) returns (a: Address)
    requires HostAt(b, p, kind, names).Ok?
    ensures a.Writable(names) && p < HostAt(b, p, kind, names).value.1 <= |b|
    ensures b[p..HostAt(b, p, kind, names).value.1] == PrintAddress(a, kind)
  {
    HostCases(b, p, kind, names);
    hide HasControl, Printable, HostAt;
    if b[p] == 1 {
      a := V4(b[p + 1..p + 5]);
    } else if b[p] == DomainType(kind) {
      a := Name(b[p + 2..p + 2 + b[p + 1]]);
      PrintableIff(a.name);
    } else {
      a := V6(b[p + 1..p + 17]);
    }
    assert b[p..HostEnd(b, p, kind)] == PrintAddress(a, kind);
  }

  lemma PortIsPrinted(b: Bytes, p: nat)
    requires U16At(b, p).Ok?
    ensures p + 2 <= |b| && U16At(b, p).value.0 < 0x1_0000 && b[p..p + 2] == PrintPort(U16At(b, p).value.0)
  {
  }
}
