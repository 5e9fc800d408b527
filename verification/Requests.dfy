/** What becomes of a written request of each protocol: what detection says of it, and when the relays refuse it. */
module Requests {
  import opened Wrappers
  import opened Reader
  import opened Addr
  import opened Codec
  import Detect
  import opened Relay
  import Vless
  import Trojan
  import VmessHeader
  import VmessSpec
  import VmessRecords
  import ShadowsocksHeader
  import ShadowsocksSpec
  import Clients
  import WebsocketRelay

  // ---- what detection says ----

  /** A VLESS request: TCP is command 1, addons ask for a flow, a multiplexed stream has no target, and two zero bytes
      answer it. */
  lemma VlessRequest(w: Vless.Wire, payload: Bytes, creds: Detect.Credentials, env: Detect.Env)
    requires env.Valid() && creds.Valid() && w.Writable(env.names) && w.id in creds.vless
    ensures LastMatch(w.id, creds.vless).Some?
    ensures Detect.DetectSpec(Vless.Print(w) + payload, creds, env)
         == Ok(Detect.Request(Detect.Kind.Vless, LastMatch(w.id, creds.vless).value,
                              if w.command.Mux? then None else Some(Target(w.address.Meaning(env.names), w.port)),
                              w.command.Tcp?, w.addons != [], Detect.Plain([0, 0]), payload))
  {
    hide Vless.ParseSpec, Vless.Print, Trojan.ParseSpec, VmessHeader.ParseSpec, ShadowsocksHeader.ParseSpec;
    Vless.RoundTrip(w, creds.vless, env.names, payload);
  }

  /** A Trojan request, with keys from passwords: never a flow, and nothing answers it. */
  lemma TrojanRequest(w: Trojan.Wire, payload: Bytes, creds: Detect.Credentials, env: Detect.Env)
    requires env.Valid() && creds.Valid() && Detect.HexKeys(creds) && w.Writable(env.names) && w.key in creds.trojan
    ensures LastMatch(w.key, creds.trojan).Some?
    ensures Detect.DetectSpec(Trojan.Print(w) + payload, creds, env)
         == Ok(Detect.Request(Detect.Kind.Trojan, LastMatch(w.key, creds.trojan).value,
                              Some(Target(w.address.Meaning(env.names), w.port)), w.command.Connect?, false,
                              Detect.Plain([]), payload))
  {
    hide Vless.ParseSpec, Trojan.Print, Trojan.ParseSpec, VmessHeader.ParseSpec, ShadowsocksHeader.ParseSpec;
    hide Detect.HexKeys;
    Trojan.RoundTrip(w, creds.trojan, env.names, payload);
    Detect.NeverBoth(Trojan.Print(w) + payload, creds, env);
  }

  /** A VMess request that neither VLESS nor Trojan takes. */
  lemma VmessRequest(s: VmessHeader.Sent, user: nat, w: VmessHeader.Wire, payload: Bytes, creds: Detect.Credentials,
                     env: Detect.Env)
    requires env.Valid() && creds.Valid() && w.Writable(env.names) && |env.vmess.fnv1a(VmessHeader.Print(w))| == 4
    requires VmessHeader.Opens(env.vmess, creds.vmess, env.now, s, user,
                               VmessHeader.Checked(env.vmess, VmessHeader.Print(w)))
    requires Detect.VlessSays(s.Bytes() + payload, creds, env).Err?
             && Detect.TrojanSays(s.Bytes() + payload, creds, env).Err?
    ensures var target := Target(w.address.Meaning(env.names), w.port);
      Detect.DetectSpec(s.Bytes() + payload, creds, env)
      == Ok(Detect.Request(Detect.Kind.Vmess, user, Some(target), w.command.Tcp?, false,
                           Detect.VmessBody(VmessHeader.Fields(w.command, target, w.bodyKey, w.bodyIv, w.security,
                                                               w.options, w.responseV)),
                           payload))
  {
    hide Detect.VlessSays, Detect.TrojanSays, VmessHeader.ParseSpec, VmessHeader.Print, ShadowsocksHeader.ParseSpec;
    VmessHeader.RoundTrip(env.vmess, creds.vmess, env.now, env.names, s, user, w, payload);
  }

  /** A Shadowsocks request that no other parser takes and no earlier key opens: always TCP, never a flow. */
  lemma ShadowsocksRequest(user: nat, w: ShadowsocksHeader.Wire, payload: Bytes, creds: Detect.Credentials,
                           env: Detect.Env)
    requires env.Valid() && creds.Valid() && user < |creds.shadowsocks| && w.Writable(env.names) && w.Timely(env.now)
    requires |w.salt| == ShadowsocksSpec.KeyLen(creds.shadowsocks[user].suite)
    requires ShadowsocksHeader.ClientCipher(env.shadowsocks, creds.shadowsocks[user], w.salt).Lawful()
    requires var buf := ShadowsocksHeader.Print(env.shadowsocks, creds.shadowsocks[user], w, env.names) + payload;
      && Detect.VlessSays(buf, creds, env).Err? && Detect.TrojanSays(buf, creds, env).Err?
      && Detect.VmessSays(buf, creds, env).Err?
      && forall j :: 0 <= j < user ==>
           ShadowsocksHeader.Try(env.shadowsocks, buf, creds.shadowsocks[j], env.now, env.names).Skip?
    ensures var x, cred := env.shadowsocks, creds.shadowsocks[user];
      Detect.DetectSpec(ShadowsocksHeader.Print(x, cred, w, env.names) + payload, creds, env)
      == Ok(Detect.Request(Detect.Kind.Shadowsocks, user, Some(Target(w.address.Meaning(env.names), w.port)), true,
                           false, Detect.SsBody(ShadowsocksHeader.SessionOf(x, cred, w.salt, w.initial, env.now)),
                           payload))
  {
    hide Detect.VlessSays, Detect.TrojanSays, Detect.VmessSays, ShadowsocksHeader.ParseSpec, ShadowsocksHeader.Print;
    hide ShadowsocksHeader.SessionOf, ShadowsocksHeader.Try;
    ShadowsocksHeader.RoundTrip(env.shadowsocks, creds.shadowsocks, user, w, env.now, env.names, payload);
  }

  /** A VMess stream of any client that seals its chunks under their numbers: whatever stands in the padding, in however
      many pieces it arrives, and whatever follows the end marker, the destination gets the plaintexts. */
  lemma DeliversRecords(s: VmessHeader.Sent, user: nat, w: VmessHeader.Wire, records: seq<Bytes>, plains: seq<Bytes>,
                        tail: Bytes, pieces: seq<Bytes>, creds: Detect.Credentials, env: Relay.Env)
    requires env.Valid() && creds.Valid() && w.Writable(env.detect.names) && w.command.Tcp?
    requires |env.detect.vmess.fnv1a(VmessHeader.Print(w))| == 4
    requires VmessHeader.Opens(env.detect.vmess, creds.vmess, env.detect.now, s, user,
                               VmessHeader.Checked(env.detect.vmess, VmessHeader.Print(w)))
    requires UplinkKey(w, env).Ok? && VmessRecords.Records(UplinkKey(w, env).value, 0, records, plains)
    requires var end := VmessRecords.FrontOf(UplinkKey(w, env).value, |records|, tail); end.Cut? || end.End?
    requires var stream := s.Bytes() + (Concat(records) + tail);
      OnlyBy(Detect.Kind.Vmess, stream, creds, env.detect) && Concat(pieces) == stream
    ensures Delivers(pieces, s.Bytes(), Concat(plains), creds, env)
  {
    hide VmessHeader.ParseSpec, VmessHeader.Print, VmessHeader.Checked, VmessHeader.Opens, OnlyBy, Fronts, Run, Reach;
    hide StartOf, UplinkKey, VmessSpec.Decode, VmessRecords.FrontOf, VmessRecords.Records, Concat;
    var k := UplinkKey(w, env).value;
    var rest := Concat(records) + tail;
    var end := VmessRecords.FrontOf(k, |records|, tail);
    VmessFronts(s, user, w, rest, creds, env.detect);
    UplinkStart(w, env);
    VmessRecords.DecodedIff(k, rest, plains, end);
    var o := Step(VmessState(k, VmessSpec.Start([])), rest);
    assert o.chunks == plains && o.error.None?;
    hide Step;
    AnyCutting(pieces, s.Bytes(), rest, Detect.VmessSays(s.Bytes(), creds, env.detect).value,
               VmessState(k, VmessSpec.Start([])), creds, env);
  }

  // ---- what the relays refuse ----

  /** Not TCP, or with a flow, or without a target. */
  predicate Unwanted(r: Detect.Request) {
    !r.isTcp || r.flowRequested || r.target.None?
  }

  /** Any cutting of a stream with a header like this, or with a body that cannot be framed: nothing is forwarded. */
  lemma {:induction false} RefusedFrom(h: Bytes, pieces: seq<Bytes>, front: Bytes, rest: Bytes, r: Detect.Request,
                                       creds: Detect.Credentials, env: Relay.Env)
    requires env.Valid() && creds.Valid() && Fronts(front, rest, r, creds, env.detect) && Sized(r.body)
    requires Unwanted(r) || StartOf(r.body, env).Err?
    requires h + Concat(pieces) == front + rest && |h| < |front|
    ensures Run(Session(Waiting(h), []), pieces, creds, env) == Session(Refused, [])
    decreases |pieces|
  {
    hide Detect.DetectSpec, StartOf, Sized, Fronts;
    assert pieces != [];
    var buf, later := h + pieces[0], pieces[1..];
    assert buf + Concat(later) == front + rest;
    StoppedStays(Session(Refused, []), later, creds, env);
    if |buf| <= MAX_HEADER_BYTES {
      if |buf| < |front| {
        CutInside(buf, later, front, rest, r, creds, env.detect);
        RefusedFrom(buf, later, front, rest, r, creds, env);
      } else {
        Known(buf, later, front, rest, r, creds, env.detect);
      }
    }
  }

  /** Behind the header every cut is the request. */
  lemma Known(buf: Bytes, later: seq<Bytes>, front: Bytes, rest: Bytes, r: Detect.Request, creds: Detect.Credentials,
              env: Detect.Env)
    requires env.Valid() && creds.Valid() && Fronts(front, rest, r, creds, env)
    requires buf + Concat(later) == front + rest && |buf| >= |front|
    ensures Detect.DetectSpec(buf, creds, env) == Ok(r.(payload := rest[..|buf| - |front|]))
  {
    hide Detect.DetectSpec, Concat;
    var k := |buf| - |front|;
    assert buf == (front + rest)[..|buf|] == front + rest[..k];
  }

  lemma RefusedCutting(pieces: seq<Bytes>, front: Bytes, rest: Bytes, r: Detect.Request, creds: Detect.Credentials,
                       env: Relay.Env)
    requires env.Valid() && creds.Valid() && front != [] && Fronts(front, rest, r, creds, env.detect) && Sized(r.body)
    requires Unwanted(r) || StartOf(r.body, env).Err?
    requires Concat(pieces) == front + rest
    ensures Run(FRESH, pieces, creds, env) == Session(Refused, [])
  {
    hide Fronts, Sized, StartOf, Run;
    assert [] + Concat(pieces) == front + rest;
    RefusedFrom([], pieces, front, rest, r, creds, env);
  }

  /** The relay serves a VLESS stream exactly if it is TCP and asks for no flow: then `Relay.DeliversVless`. */
  lemma RefusesVless(w: Vless.Wire, payload: Bytes, pieces: seq<Bytes>, creds: Detect.Credentials, env: Relay.Env)
    requires env.Valid() && creds.Valid() && w.Writable(env.detect.names) && w.id in creds.vless
    requires w.command != Vless.Tcp || w.addons != []
    requires OnlyBy(Detect.Kind.Vless, Vless.Print(w) + payload, creds, env.detect)
    requires Concat(pieces) == Vless.Print(w) + payload
    ensures Run(FRESH, pieces, creds, env) == Session(Refused, [])
  {
    hide Vless.ParseSpec, Vless.Print, OnlyBy, Fronts, Run;
    var front := Vless.Print(w);
    VlessFronts(w, payload, creds, env.detect);
    Nonempty(front, creds, env.detect);
    RefusedCutting(pieces, front, payload, Detect.VlessSays(front, creds, env.detect).value, creds, env);
  }

  /** The relay refuses a Trojan stream that is not TCP. */
  lemma RefusesTrojan(w: Trojan.Wire, payload: Bytes, pieces: seq<Bytes>, creds: Detect.Credentials, env: Relay.Env)
    requires env.Valid() && creds.Valid() && w.Writable(env.detect.names) && w.key in creds.trojan
    requires w.command == Trojan.UdpAssociate
    requires OnlyBy(Detect.Kind.Trojan, Trojan.Print(w) + payload, creds, env.detect)
    requires Concat(pieces) == Trojan.Print(w) + payload
    ensures Run(FRESH, pieces, creds, env) == Session(Refused, [])
  {
    hide Trojan.ParseSpec, Trojan.Print, OnlyBy, Fronts, Run;
    var front := Trojan.Print(w);
    TrojanFronts(w, payload, creds, env.detect);
    Nonempty(front, creds, env.detect);
    RefusedCutting(pieces, front, payload, Detect.TrojanSays(front, creds, env.detect).value, creds, env);
  }

  /** The relay refuses a VMess stream that is not TCP, or asks for a cipher or framing that there is not. */
  lemma RefusesVmess(s: VmessHeader.Sent, user: nat, w: VmessHeader.Wire, rest: Bytes, pieces: seq<Bytes>,
                     creds: Detect.Credentials, env: Relay.Env)
    requires env.Valid() && creds.Valid() && w.Writable(env.detect.names)
    requires |env.detect.vmess.fnv1a(VmessHeader.Print(w))| == 4
    requires VmessHeader.Opens(env.detect.vmess, creds.vmess, env.detect.now, s, user,
                               VmessHeader.Checked(env.detect.vmess, VmessHeader.Print(w)))
    requires w.command == VmessHeader.Udp || w.security !in {3, 4} || w.options !in {1, 5, 13}
    requires OnlyBy(Detect.Kind.Vmess, s.Bytes() + rest, creds, env.detect) && Concat(pieces) == s.Bytes() + rest
    ensures Run(FRESH, pieces, creds, env) == Session(Refused, [])
  {
    hide VmessHeader.ParseSpec, VmessHeader.Print, VmessHeader.Opens, OnlyBy, Fronts, Run, StartOf;
    VmessFronts(s, user, w, rest, creds, env.detect);
    var r := Detect.VmessSays(s.Bytes(), creds, env.detect).value;
    var entropy := Zeros(32);
    Clients.VmessWriterIs(r.body.fields, env, entropy);
    RefusedCutting(pieces, s.Bytes(), rest, r, creds, env);
  }

  // ---- the WebSocket relay ----

  /** What the WebSocket relay carries: TCP to a target, by VLESS without a flow or by Trojan. */
  predicate Wanted(r: Detect.Request) {
    r.isTcp && r.target.Some? && (r.kind == Detect.Kind.Trojan || (r.kind == Detect.Kind.Vless && !r.flowRequested))
  }

  /** A VLESS connection that is carried: behind what the relay sends first the client reads exactly the chunks. */
  lemma AnswersVless(w: Vless.Wire, payload: Bytes, frames: seq<Bytes>, chunks: seq<Bytes>, creds: Detect.Credentials,
                     env: Detect.Env)
    requires env.Valid() && creds.Valid() && w.Writable(env.names) && w.id in creds.vless
    requires w.command == Vless.Tcp && w.addons == []
    requires OnlyBy(Detect.Kind.Vless, Vless.Print(w) + payload, creds, env)
    requires Concat(frames) == Vless.Print(w) + payload && Reach(frames, 0, |Vless.Print(w)|) <= 8192
    ensures var t := WebsocketRelay.ReceiveAll(WebsocketRelay.FRESH_TUNNEL, frames, creds, env);
      t.link.Linked? && Clients.VlessReads(Concat(t.link.reply + chunks)) == Some(Concat(chunks))
  {
    hide Vless.ParseSpec, Vless.Print, OnlyBy, Fronts, WebsocketRelay.ReceiveAll, Reach;
    VlessFronts(w, payload, creds, env);
    Nonempty(Vless.Print(w), creds, env);
    var r := Detect.VlessSays(Vless.Print(w), creds, env).value;
    WebsocketRelay.LosesLeading(frames, Vless.Print(w), payload, r, creds, env);
    ConcatAppend([[0, 0]], chunks);
    ConcatOne([0, 0]);
    hide Concat;
    assert ([0, 0] + Concat(chunks))[2..] == Concat(chunks);
  }

  /** So a Trojan connection, whose client has nothing to drop. */
  lemma AnswersTrojan(w: Trojan.Wire, payload: Bytes, frames: seq<Bytes>, chunks: seq<Bytes>,
                      creds: Detect.Credentials, env: Detect.Env)
    requires env.Valid() && creds.Valid() && w.Writable(env.names) && w.key in creds.trojan
    requires w.command == Trojan.Connect
    requires OnlyBy(Detect.Kind.Trojan, Trojan.Print(w) + payload, creds, env)
    requires Concat(frames) == Trojan.Print(w) + payload && Reach(frames, 0, |Trojan.Print(w)|) <= 8192
    ensures var t := WebsocketRelay.ReceiveAll(WebsocketRelay.FRESH_TUNNEL, frames, creds, env);
      t.link.Linked? && Clients.TrojanReads(Concat(t.link.reply + chunks)) == Concat(chunks)
  {
    hide Trojan.ParseSpec, Trojan.Print, OnlyBy, Fronts, WebsocketRelay.ReceiveAll, Reach;
    TrojanFronts(w, payload, creds, env);
    Nonempty(Trojan.Print(w), creds, env);
    var r := Detect.TrojanSays(Trojan.Print(w), creds, env).value;
    WebsocketRelay.LosesLeading(frames, Trojan.Print(w), payload, r, creds, env);
    assert [] + chunks == chunks;
  }

  /** Any framing of anything else closes the connection, and nothing is forwarded. */
  lemma {:induction false} ClosedFrom(h: Bytes, frames: seq<Bytes>, front: Bytes, rest: Bytes, r: Detect.Request,
                                      creds: Detect.Credentials, env: Detect.Env)
    requires env.Valid() && creds.Valid() && Fronts(front, rest, r, creds, env) && !Wanted(r)
    requires h + Concat(frames) == front + rest && |h| < |front|
    ensures WebsocketRelay.ReceiveAll(WebsocketRelay.Tunnel(WebsocketRelay.Pending(h), []), frames, creds, env)
         == WebsocketRelay.Tunnel(WebsocketRelay.Closed, [])
    decreases |frames|
  {
    hide Detect.DetectSpec, Fronts;
    assert frames != [];
    var buf, later := h + frames[0], frames[1..];
    assert buf + Concat(later) == front + rest;
    WebsocketRelay.ClosedStays(WebsocketRelay.Tunnel(WebsocketRelay.Closed, []), later, creds, env);
    if |buf| <= MAX_HEADER_BYTES {
      if |buf| < |front| {
        CutInside(buf, later, front, rest, r, creds, env);
        ClosedFrom(buf, later, front, rest, r, creds, env);
      } else {
        Known(buf, later, front, rest, r, creds, env);
      }
    }
  }

  lemma ClosedFraming(frames: seq<Bytes>, front: Bytes, rest: Bytes, r: Detect.Request, creds: Detect.Credentials,
                      env: Detect.Env)
    requires env.Valid() && creds.Valid() && front != [] && Fronts(front, rest, r, creds, env) && !Wanted(r)
    requires Concat(frames) == front + rest
    ensures WebsocketRelay.ReceiveAll(WebsocketRelay.FRESH_TUNNEL, frames, creds, env)
         == WebsocketRelay.Tunnel(WebsocketRelay.Closed, [])
  {
    hide Fronts, Wanted, WebsocketRelay.ReceiveAll;
    assert [] + Concat(frames) == front + rest;
    ClosedFrom([], frames, front, rest, r, creds, env);
  }

  /** It closes a VLESS connection that is not TCP or asks for a flow. */
  lemma ClosesVless(w: Vless.Wire, payload: Bytes, frames: seq<Bytes>, creds: Detect.Credentials, env: Detect.Env)
    requires env.Valid() && creds.Valid() && w.Writable(env.names) && w.id in creds.vless
    requires w.command != Vless.Tcp || w.addons != []
    requires OnlyBy(Detect.Kind.Vless, Vless.Print(w) + payload, creds, env)
    requires Concat(frames) == Vless.Print(w) + payload
    ensures WebsocketRelay.ReceiveAll(WebsocketRelay.FRESH_TUNNEL, frames, creds, env)
         == WebsocketRelay.Tunnel(WebsocketRelay.Closed, [])
  {
    hide Vless.ParseSpec, Vless.Print, OnlyBy, Fronts, WebsocketRelay.ReceiveAll;
    VlessFronts(w, payload, creds, env);
    Nonempty(Vless.Print(w), creds, env);
    ClosedFraming(frames, Vless.Print(w), payload, Detect.VlessSays(Vless.Print(w), creds, env).value, creds, env);
  }

  /** It closes a Trojan connection that is not TCP. */
  lemma ClosesTrojan(w: Trojan.Wire, payload: Bytes, frames: seq<Bytes>, creds: Detect.Credentials, env: Detect.Env)
    requires env.Valid() && creds.Valid() && w.Writable(env.names) && w.key in creds.trojan
    requires w.command == Trojan.UdpAssociate
    requires OnlyBy(Detect.Kind.Trojan, Trojan.Print(w) + payload, creds, env)
    requires Concat(frames) == Trojan.Print(w) + payload
    ensures WebsocketRelay.ReceiveAll(WebsocketRelay.FRESH_TUNNEL, frames, creds, env)
         == WebsocketRelay.Tunnel(WebsocketRelay.Closed, [])
  {
    hide Trojan.ParseSpec, Trojan.Print, OnlyBy, Fronts, WebsocketRelay.ReceiveAll;
    TrojanFronts(w, payload, creds, env);
    Nonempty(Trojan.Print(w), creds, env);
    ClosedFraming(frames, Trojan.Print(w), payload, Detect.TrojanSays(Trojan.Print(w), creds, env).value, creds, env);
  }

  /** It closes every VMess connection. */
  lemma ClosesVmess(s: VmessHeader.Sent, user: nat, w: VmessHeader.Wire, rest: Bytes, frames: seq<Bytes>,
                    creds: Detect.Credentials, env: Detect.Env)
    requires env.Valid() && creds.Valid() && w.Writable(env.names) && |env.vmess.fnv1a(VmessHeader.Print(w))| == 4
    requires VmessHeader.Opens(env.vmess, creds.vmess, env.now, s, user,
                               VmessHeader.Checked(env.vmess, VmessHeader.Print(w)))
    requires OnlyBy(Detect.Kind.Vmess, s.Bytes() + rest, creds, env) && Concat(frames) == s.Bytes() + rest
    ensures WebsocketRelay.ReceiveAll(WebsocketRelay.FRESH_TUNNEL, frames, creds, env)
         == WebsocketRelay.Tunnel(WebsocketRelay.Closed, [])
  {
    hide VmessHeader.ParseSpec, VmessHeader.Print, VmessHeader.Opens, OnlyBy, Fronts, WebsocketRelay.ReceiveAll;
    VmessFronts(s, user, w, rest, creds, env);
    ClosedFraming(frames, s.Bytes(), rest, Detect.VmessSays(s.Bytes(), creds, env).value, creds, env);
  }
}
