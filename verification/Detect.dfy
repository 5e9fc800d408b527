/** Telling the four protocols apart from the first bytes. */
module Detect {
  import opened Wrappers
  import opened Reader
  import opened Addr
  import Vless
  import Trojan
  import VmessHeader
  import ShadowsocksHeader
  import ShadowsocksSpec
  import ShadowsocksBody

  datatype Kind = Vless | Trojan | Vmess | Shadowsocks

  datatype Body =
    | Plain(prologue: Bytes)
    | VmessBody(fields: VmessHeader.Fields)
    | SsBody(session: ShadowsocksBody.Session)

  /** An empty table disables its protocol. */
  datatype Credentials = Credentials(vless: seq<Bytes>, trojan: seq<Bytes>, vmess: seq<VmessHeader.Credential>,
                                     shadowsocks: seq<ShadowsocksHeader.Credential>) {
    predicate Valid() {
      ShadowsocksHeader.AllValid(shadowsocks)
    }
  }

  /** Cryptography, name parsing and the clock. */
  datatype Env = Env(names: Names, vmess: VmessHeader.Crypto, shadowsocks: ShadowsocksHeader.Crypto, now: nat) {
    ghost predicate Valid() {
      vmess.Valid() && shadowsocks.Valid()
    }
  }

  datatype Request = Request(kind: Kind, user: nat, target: Option<Target>, isTcp: bool, flowRequested: bool,
                             body: Body, payload: Bytes)

  type Verdict = Result<Request, ProtocolError>

  function FromVless(r: Result<Vless.Request, ProtocolError>): Verdict {
    var v :- r;
    Ok(Request(Kind.Vless, v.header.user, v.header.target, v.header.command.Tcp?, v.header.flowRequested, Plain([0, 0]),
               v.payload))
  }

  function FromTrojan(r: Result<Trojan.Request, ProtocolError>): Verdict {
    var t :- r;
    Ok(Request(Kind.Trojan, t.header.user, Some(t.header.target), t.header.command.Connect?, false, Plain([]),
               t.payload))
  }

  function FromVmess(r: Result<VmessHeader.Request, ProtocolError>): Verdict {
    var m :- r;
    Ok(Request(Kind.Vmess, m.user, Some(m.fields.target), m.fields.command.Tcp?, false, VmessBody(m.fields), m.payload))
  }

  function FromShadowsocks(r: Result<ShadowsocksHeader.Request, ProtocolError>): Verdict {
    var s :- r;
    Ok(Request(Kind.Shadowsocks, s.user, Some(s.target), true, false, SsBody(s.session), s.payload))
  }

  // What each parser says; a disabled one refuses.

  function VlessSays(buf: Bytes, creds: Credentials, env: Env): Verdict {
    if creds.vless == [] then Err(AuthFailed) else FromVless(Vless.ParseSpec(buf, creds.vless, env.names))
  }

  function TrojanSays(buf: Bytes, creds: Credentials, env: Env): Verdict {
    if creds.trojan == [] then Err(AuthFailed) else FromTrojan(Trojan.ParseSpec(buf, creds.trojan, env.names))
  }

  function VmessSays(buf: Bytes, creds: Credentials, env: Env): Verdict
    requires env.Valid()
  {
    if creds.vmess == [] then Err(AuthFailed)
    else FromVmess(VmessHeader.ParseSpec(env.vmess, buf, creds.vmess, env.now, env.names))
  }

  function ShadowsocksSays(buf: Bytes, creds: Credentials, env: Env): Verdict
    requires env.Valid() && creds.Valid()
  {
    if creds.shadowsocks == [] then Err(AuthFailed)
    else FromShadowsocks(ShadowsocksHeader.ParseSpec(env.shadowsocks, buf, creds.shadowsocks, env.now, env.names))
  }

  predicate Waits(v: Verdict) {
    v == Err(Incomplete)
  }

  /** The first match, or else `Incomplete` if any parser waits, or else one uniform refusal. */
  function Combine(a: Verdict, b: Verdict, c: Verdict, d: Verdict): (r: Verdict)
    ensures r.Err? ==> r.error in {Incomplete, AuthFailed}
  {
    if a.Ok? then a else if b.Ok? then b else if c.Ok? then c else if d.Ok? then d
    else if Waits(a) || Waits(b) || Waits(c) || Waits(d) then Err(Incomplete)
    else Err(AuthFailed)
  }

  function DetectSpec(buf: Bytes, creds: Credentials, env: Env): Verdict
    requires env.Valid() && creds.Valid()
  {
    Combine(VlessSays(buf, creds, env), TrojanSays(buf, creds, env), VmessSays(buf, creds, env),
            ShadowsocksSays(buf, creds, env))
  }

  /** Identify and authenticate a request: the parsers in order, until one matches. */
  method Identify(buf: Bytes, creds: Credentials, env: Env) returns (r: Verdict)
    requires env.Valid() && creds.Valid()
    ensures r == DetectSpec(buf, creds, env)
  {
    hide Vless.ParseSpec, Trojan.ParseSpec, VmessHeader.ParseSpec, ShadowsocksHeader.ParseSpec;
    var incomplete := false;
    if creds.vless != [] {
      var parsed := Vless.Parse(buf, creds.vless, env.names);
      match parsed {
        case Ok(v) =>
          return Ok(Request(Kind.Vless, v.header.user, v.header.target, v.header.command.Tcp?, v.header.flowRequested,
                            Plain([0, 0]), v.payload));
        case Err(e) =>
          if e == Incomplete { incomplete := true; }
      }
    }
    if creds.trojan != [] {
      var parsed := Trojan.Parse(buf, creds.trojan, env.names);
      match parsed {
        case Ok(t) =>
          return Ok(Request(Kind.Trojan, t.header.user, Some(t.header.target), t.header.command.Connect?, false,
                            Plain([]), t.payload));
        case Err(e) =>
          if e == Incomplete { incomplete := true; }
      }
    }
    if creds.vmess != [] {
      var parsed := VmessHeader.Parse(env.vmess, buf, creds.vmess, env.now, env.names);
      match parsed {
        case Ok(m) =>
          return Ok(Request(Kind.Vmess, m.user, Some(m.fields.target), m.fields.command.Tcp?, false,
                            VmessBody(m.fields), m.payload));
        case Err(e) =>
          if e == Incomplete { incomplete := true; }
      }
    }
    if creds.shadowsocks != [] {
      var parsed := ShadowsocksHeader.Parse(env.shadowsocks, buf, creds.shadowsocks, env.now, env.names);
      match parsed {
        case Ok(s) =>
          return Ok(Request(Kind.Shadowsocks, s.user, Some(s.target), true, false, SsBody(s.session), s.payload));
        case Err(e) =>
          if e == Incomplete { incomplete := true; }
      }
    }
    return Err(if incomplete then Incomplete else AuthFailed);
  }

  // ---- VLESS and Trojan never claim the same bytes ----

  /** Every Trojan key is lower-case hexadecimal, as keys derived from passwords are. */
  predicate HexKeys(creds: Credentials) {
    forall k :: 0 <= k < |creds.trojan| ==>
      |creds.trojan[k]| == 56 && forall i :: 0 <= i < 56 ==> Trojan.IsHexDigit(creds.trojan[k][i])
  }

  /** A buffer that VLESS has not refused starts with zero. */
  lemma VlessFirstByte(buf: Bytes, creds: Credentials, env: Env)
    requires VlessSays(buf, creds, env).Ok? || Waits(VlessSays(buf, creds, env))
    ensures buf != [] ==> buf[0] == 0
  {
    hide Vless.AfterUser;
  }

  /** A buffer that Trojan accepts starts with a hexadecimal digit. */
  lemma TrojanFirstByte(buf: Bytes, creds: Credentials, env: Env)
    requires HexKeys(creds) && TrojanSays(buf, creds, env).Ok?
    ensures buf != [] && buf[0] != 0
  {
    hide Trojan.AfterUser;
    assert buf[0..56][0] == buf[0];
  }

  /** What one of the two accepts, the other does not accept and VLESS does not wait for. */
  lemma NeverBoth(buf: Bytes, creds: Credentials, env: Env)
    requires HexKeys(creds) && TrojanSays(buf, creds, env).Ok?
    ensures VlessSays(buf, creds, env).Err? && !Waits(VlessSays(buf, creds, env))
  {
    hide VlessSays, TrojanSays;
    TrojanFirstByte(buf, creds, env);
    if VlessSays(buf, creds, env).Ok? || Waits(VlessSays(buf, creds, env)) {
      VlessFirstByte(buf, creds, env);
    }
  }

  /** The order of the two does not matter, whatever the other parsers say. */
  lemma OrderIndependent(buf: Bytes, creds: Credentials, env: Env, c: Verdict, d: Verdict)
    requires HexKeys(creds)
    ensures Combine(VlessSays(buf, creds, env), TrojanSays(buf, creds, env), c, d)
         == Combine(TrojanSays(buf, creds, env), VlessSays(buf, creds, env), c, d)
  {
    hide VlessSays, TrojanSays;
    if TrojanSays(buf, creds, env).Ok? {
      NeverBoth(buf, creds, env);
    }
  }

  // ---- more bytes ----

  /** A match stays the same match with more payload, and a refusal stays a refusal. */
  predicate Follows(now: Verdict, later: Verdict, ext: Bytes) {
    match now
    case Ok(r) => later == Ok(r.(payload := r.payload + ext))
    case Err(e) => e != Incomplete ==> later.Err? && !Waits(later)
  }

  lemma VlessFollows(buf: Bytes, ext: Bytes, creds: Credentials, env: Env)
    ensures Follows(VlessSays(buf, creds, env), VlessSays(buf + ext, creds, env), ext)
  {
    hide Vless.ParseSpec;
    Vless.ParseMonotone(buf, ext, creds.vless, env.names);
  }

  lemma TrojanFollows(buf: Bytes, ext: Bytes, creds: Credentials, env: Env)
    ensures Follows(TrojanSays(buf, creds, env), TrojanSays(buf + ext, creds, env), ext)
  {
    hide Trojan.ParseSpec;
    Trojan.ParseMonotone(buf, ext, creds.trojan, env.names);
  }

  lemma VmessFollows(buf: Bytes, ext: Bytes, creds: Credentials, env: Env)
    requires env.Valid()
    ensures Follows(VmessSays(buf, creds, env), VmessSays(buf + ext, creds, env), ext)
  {
    hide VmessHeader.ParseSpec;
    VmessHeader.ParseMonotone(env.vmess, buf, ext, creds.vmess, env.now, env.names);
  }

  /** Shadowsocks keeps its verdict when no earlier credential of it waits, as always with one credential. */
  lemma ShadowsocksFollows(buf: Bytes, ext: Bytes, creds: Credentials, env: Env)
    requires env.Valid() && creds.Valid()
    requires |creds.shadowsocks| <= 1
             || ShadowsocksHeader.NoneWaits(env.shadowsocks, buf, creds.shadowsocks, 0, env.now, env.names)
    ensures Follows(ShadowsocksSays(buf, creds, env), ShadowsocksSays(buf + ext, creds, env), ext)
  {
    hide ShadowsocksHeader.ParseSpec, ShadowsocksHeader.NoneWaits;
    if !Waits(ShadowsocksSays(buf, creds, env)) && creds.shadowsocks != [] {
      if |creds.shadowsocks| == 1 {
        ShadowsocksHeader.OneCredential(env.shadowsocks, buf, creds.shadowsocks, env.now, env.names);
      }
      SsSteady(buf, ext, creds, env);
    }
  }

  lemma SsSteady(buf: Bytes, ext: Bytes, creds: Credentials, env: Env)
    requires env.Valid() && creds.Valid() && !Waits(ShadowsocksSays(buf, creds, env))
    requires ShadowsocksHeader.NoneWaits(env.shadowsocks, buf, creds.shadowsocks, 0, env.now, env.names)
    ensures Follows(ShadowsocksSays(buf, creds, env), ShadowsocksSays(buf + ext, creds, env), ext)
  {
    hide ShadowsocksHeader.ParseSpec, ShadowsocksHeader.NoneWaits;
    ShadowsocksHeader.ParseMonotone(env.shadowsocks, buf, ext, creds.shadowsocks, env.now, env.names);
  }

  /** No parser before the one that matches still waits. */
  predicate NoEarlierWaits(a: Verdict, b: Verdict, c: Verdict, d: Verdict) {
    && (b.Ok? && a.Err? ==> !Waits(a))
    && (c.Ok? && a.Err? && b.Err? ==> !Waits(a) && !Waits(b))
    && (d.Ok? && a.Err? && b.Err? && c.Err? ==> !Waits(a) && !Waits(b) && !Waits(c))
  }

  /** A verdict is final once no earlier parser waits and no earlier Shadowsocks credential does, as with one of them
      none can: a match stays the same match with more payload, and the uniform refusal stays one. */
  lemma DetectMonotone(buf: Bytes, ext: Bytes, creds: Credentials, env: Env)
    requires env.Valid() && creds.Valid()
    requires |creds.shadowsocks| <= 1
             || ShadowsocksHeader.NoneWaits(env.shadowsocks, buf, creds.shadowsocks, 0, env.now, env.names)
    requires NoEarlierWaits(VlessSays(buf, creds, env), TrojanSays(buf, creds, env), VmessSays(buf, creds, env),
                            ShadowsocksSays(buf, creds, env))
    ensures Follows(DetectSpec(buf, creds, env), DetectSpec(buf + ext, creds, env), ext)
  {
    hide VlessSays, TrojanSays, VmessSays, ShadowsocksSays, ShadowsocksHeader.NoneWaits;
    VlessFollows(buf, ext, creds, env);
    TrojanFollows(buf, ext, creds, env);
    VmessFollows(buf, ext, creds, env);
    ShadowsocksFollows(buf, ext, creds, env);
  }

  /** A parser before the one that matches `now` matches `later`. */
  predicate EarlierMatches(a: Verdict, b: Verdict, c: Verdict, a': Verdict, b': Verdict, c': Verdict) {
    a.Err? && (a'.Ok? || (b.Err? && (b'.Ok? || (c.Err? && c'.Ok?))))
  }

  /** An earlier Shadowsocks credential comes to settle what a later one had accepted, or to accept what it had
      refused. */
  predicate KeyOvertakes(buf: Bytes, ext: Bytes, creds: Credentials, env: Env)
    requires env.Valid() && creds.Valid()
  {
    ShadowsocksHeader.Overtaken(env.shadowsocks, buf, ext, creds.shadowsocks, env.now, env.names)
  }

  lemma ShadowsocksFollowsIff(buf: Bytes, ext: Bytes, creds: Credentials, env: Env)
    requires env.Valid() && creds.Valid()
    ensures Follows(ShadowsocksSays(buf, creds, env), ShadowsocksSays(buf + ext, creds, env), ext)
       <==> !KeyOvertakes(buf, ext, creds, env)
  {
    hide ShadowsocksHeader.ParseSpec, ShadowsocksHeader.Accepts;
    ShadowsocksHeader.FollowsIff(env.shadowsocks, buf, ext, creds.shadowsocks, env.now, env.names);
  }

  /** For any credentials: what detection says is kept with more bytes exactly when it was `Incomplete`, or no parser
      before the one that matched comes to match and, where the first three parsers had refused, no Shadowsocks
      credential overtakes another. */
  lemma DetectKeptIff(buf: Bytes, ext: Bytes, creds: Credentials, env: Env)
    requires env.Valid() && creds.Valid()
    ensures var a, b, c := VlessSays(buf, creds, env), TrojanSays(buf, creds, env), VmessSays(buf, creds, env);
      Follows(DetectSpec(buf, creds, env), DetectSpec(buf + ext, creds, env), ext)
      <==> Waits(DetectSpec(buf, creds, env))
           || (&& !EarlierMatches(a, b, c, VlessSays(buf + ext, creds, env), TrojanSays(buf + ext, creds, env),
                                  VmessSays(buf + ext, creds, env))
               && (a.Err? && b.Err? && c.Err? ==> !KeyOvertakes(buf, ext, creds, env)))
  {
    hide VlessSays, TrojanSays, VmessSays, ShadowsocksSays, KeyOvertakes;
    VlessFollows(buf, ext, creds, env);
    TrojanFollows(buf, ext, creds, env);
    VmessFollows(buf, ext, creds, env);
    ShadowsocksFollowsIff(buf, ext, creds, env);
    Kinds(buf, creds, env);
    Kinds(buf + ext, creds, env);
  }

  /** Each parser names its own protocol. */
  lemma Kinds(buf: Bytes, creds: Credentials, env: Env)
    requires env.Valid() && creds.Valid()
    ensures VlessSays(buf, creds, env).Ok? ==> VlessSays(buf, creds, env).value.kind == Kind.Vless
    ensures TrojanSays(buf, creds, env).Ok? ==> TrojanSays(buf, creds, env).value.kind == Kind.Trojan
    ensures VmessSays(buf, creds, env).Ok? ==> VmessSays(buf, creds, env).value.kind == Kind.Vmess
    ensures ShadowsocksSays(buf, creds, env).Ok? ==> ShadowsocksSays(buf, creds, env).value.kind == Kind.Shadowsocks
  {
    hide Vless.ParseSpec, Trojan.ParseSpec, VmessHeader.ParseSpec, ShadowsocksHeader.ParseSpec;
  }

  /** With VLESS and Trojan alone every verdict is final. */
  lemma PlainDetectMonotone(buf: Bytes, ext: Bytes, creds: Credentials, env: Env)
    requires env.Valid() && creds.Valid() && HexKeys(creds) && creds.vmess == [] && creds.shadowsocks == []
    ensures Follows(DetectSpec(buf, creds, env), DetectSpec(buf + ext, creds, env), ext)
  {
    hide VlessSays, TrojanSays;
    if TrojanSays(buf, creds, env).Ok? {
      NeverBoth(buf, creds, env);
    }
    DetectMonotone(buf, ext, creds, env);
  }

  /** With VLESS and Trojan alone 531 bytes always get a verdict. */
  lemma PlainDetectDecided(buf: Bytes, creds: Credentials, env: Env)
    requires env.Valid() && creds.Valid() && creds.vmess == [] && creds.shadowsocks == [] && |buf| >= Vless.HEADER_LIMIT
    ensures !Waits(DetectSpec(buf, creds, env))
  {
    hide Vless.ParseSpec, Trojan.ParseSpec;
    Vless.Decided(buf, creds.vless, env.names);
    Trojan.Decided(buf, creds.trojan, env.names);
  }

  // ---- the condition is needed ----

  /** While an earlier parser waits, a later match is not final. Whatever the primitives and keys: when the bytes of a
      VMess request are the beginning of a VLESS header, they are VMess, and with the rest of it they are VLESS. */
  lemma EarlierWaiterCanWin(creds: Credentials, env: Env, s: VmessHeader.Sent, user: nat, w: VmessHeader.Wire,
                            v: Vless.Wire)
    requires env.Valid() && creds.Valid() && HexKeys(creds)
    requires w.Writable(env.names) && |env.vmess.fnv1a(VmessHeader.Print(w))| == 4
    requires VmessHeader.Opens(env.vmess, creds.vmess, env.now, s, user,
                               VmessHeader.Checked(env.vmess, VmessHeader.Print(w)))
    requires v.Writable(env.names) && v.id in creds.vless && s.Bytes() < Vless.Print(v)
    ensures DetectSpec(s.Bytes(), creds, env).Ok? && DetectSpec(s.Bytes(), creds, env).value.kind == Kind.Vmess
    ensures var wire := Vless.Print(v);
      DetectSpec(wire, creds, env).Ok? && DetectSpec(wire, creds, env).value.kind == Kind.Vless
  {
    hide Vless.ParseSpec, VmessHeader.ParseSpec, VmessHeader.Checked, TrojanSays, HexKeys, Vless.Print;
    hide VmessHeader.Print;
    var wire := Vless.Print(v);
    Vless.RoundTrip(v, creds.vless, env.names, []);
    assert wire + [] == wire;
    Vless.StrictPrefixIncomplete(wire, creds.vless, env.names, |s.Bytes()|);
    assert wire[..|s.Bytes()|] == s.Bytes();
    if TrojanSays(s.Bytes(), creds, env).Ok? {
      NeverBoth(s.Bytes(), creds, env);
    }
    VmessHeader.RoundTrip(env.vmess, creds.vmess, env.now, env.names, s, user, w, []);
    assert s.Bytes() + [] == s.Bytes();
  }

  /** A VMess request for port 0 of 0.0.0.0. */
  const SMALL_REQUEST := VmessHeader.Wire(Zeros(16), Zeros(16), 0, 0, [], 0, 0, VmessHeader.Tcp, 0, V4(Zeros(4)), [])

  /** A tag whose second byte is the largest length that VLESS addons have. */
  const LONG_TAG: Bytes := [0, 255] + Zeros(14)

  /** The VLESS header with 255 bytes of addons that starts with the given bytes. */
  function StartingWith(start: Bytes): Vless.Wire
    requires 18 <= |start| <= 273
  {
    Vless.Wire(start[1..17], start[18..] + Zeros(273 - |start|), Vless.Tcp, 0, V4(Zeros(4)))
  }

  lemma StartsWith(start: Bytes)
    requires 18 <= |start| <= 273 && start[0] == 0 && start[17] == 255
    ensures start < Vless.Print(StartingWith(start))
  {
    var v := StartingWith(start);
    var front: Bytes := [0] + start[1..17] + [255] + start[18..];
    assert front == start;
    assert Vless.PrintFront(v) == front + (Zeros(273 - |start|) + [1]);
  }

  /** It happens with any four-byte checksums: under a block cipher that does nothing and sealing by a tag, the 107
      bytes of a small VMess request start a VLESS header. */
  lemma EarlierWaiterWins(crc32: Bytes -> Bytes, fnv1a: Bytes -> Bytes, names: Names, x: ShadowsocksHeader.Crypto)
    requires x.Valid() && |crc32(Zeros(12))| == 4 && |fnv1a(VmessHeader.Print(SMALL_REQUEST))| == 4
    ensures var env := Env(names, VmessHeader.Plainest(crc32, fnv1a, LONG_TAG), x, 0);
      var s := VmessHeader.PlainSent(crc32, LONG_TAG, VmessHeader.Checked(env.vmess, VmessHeader.Print(SMALL_REQUEST)));
      var v := StartingWith(s.Bytes());
      var creds := Credentials([v.id], [], [VmessHeader.NOBODY], []);
      && env.Valid() && creds.Valid()
      && DetectSpec(s.Bytes(), creds, env).Ok? && DetectSpec(s.Bytes(), creds, env).value.kind == Kind.Vmess
      && DetectSpec(Vless.Print(v), creds, env).Ok? && DetectSpec(Vless.Print(v), creds, env).value.kind == Kind.Vless
  {
    hide DetectSpec, Vless.Print, VmessHeader.Opens;
    var env := Env(names, VmessHeader.Plainest(crc32, fnv1a, LONG_TAG), x, 0);
    var header := VmessHeader.Checked(env.vmess, VmessHeader.Print(SMALL_REQUEST));
    var s := VmessHeader.PlainSent(crc32, LONG_TAG, header);
    var v := StartingWith(s.Bytes());
    VmessHeader.PlainOpens(crc32, fnv1a, LONG_TAG, header);
    StartsWith(s.Bytes());
    EarlierWaiterCanWin(Credentials([v.id], [], [VmessHeader.NOBODY], []), env, s, 0, SMALL_REQUEST, v);
  }

  /** The uniform refusal is not final either: under two lawful ciphers a written Shadowsocks request of the longer key
      is refused at 43 bytes, on the word of the shorter key, and is a request when it is whole. */
  lemma RefusalBecomesRequest(names: Names, x: VmessHeader.Crypto, now: nat)
    requires x.Valid() && now < ShadowsocksSpec.Pow256(8)
    ensures var keys := [ShadowsocksHeader.Credential(ShadowsocksSpec.Aes256Gcm, Zeros(32)),
                         ShadowsocksHeader.Credential(ShadowsocksSpec.Aes128Gcm, Zeros(32))];
      var env := Env(names, x, ShadowsocksHeader.TwoTags(), now);
      var creds := Credentials([], [], [], keys);
      && env.Valid() && creds.Valid() && ShadowsocksHeader.LongRequest(now).Writable(names)
      && var wire := ShadowsocksHeader.Print(env.shadowsocks, keys[0], ShadowsocksHeader.LongRequest(now), names);
         && |wire| > 43 && DetectSpec(wire[..43], creds, env) == Err(AuthFailed)
         && DetectSpec(wire, creds, env).Ok? && DetectSpec(wire, creds, env).value.kind == Kind.Shadowsocks
         && DetectSpec(wire, creds, env).value.user == 0
  {
    hide ShadowsocksHeader.ParseSpec, ShadowsocksHeader.Print, ShadowsocksSpec.Pow256;
    ShadowsocksHeader.RefusedThenAccepted(now, names);
  }
}
