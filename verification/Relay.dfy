/** What the relays make of a client's stream: find the header, open the body, forward the plaintext. */
module Relay {
  import opened Wrappers
  import opened Reader
  import opened Addr
  import opened Aead
  import opened Codec
  import Detect
  import Vless
  import Trojan
  import VmessHeader
  import VmessSpec
  import VmessProofs
  import VmessBody
  import ShadowsocksHeader
  import ShadowsocksSpec
  import ShadowsocksProofs
  import ShadowsocksBody

  const MAX_HEADER_BYTES := 8 * 1024

  /** Everything from outside: what detection needs and the cryptography of the VMess body. */
  datatype Env = Env(detect: Detect.Env, vmess: VmessBody.Crypto) {
    ghost predicate Valid() {
      detect.Valid() && vmess.Valid()
    }
  }

  // ---- from a request to its body codec ----

  /** The option byte as the body codec reads it. */
  function OptionBits(b: byte): bv8 {
    b as bv8
  }

  /** Keys and salts have their lengths. */
  predicate Sized(body: Detect.Body) {
    match body
    case Plain(_) => true
    case VmessBody(f) => |f.bodyIv| == 16
    case SsBody(s) => s.Valid()
  }

  /** The decoder that a request's body starts with. */
  function StartOf(body: Detect.Body, env: Env): (r: Result<State, CodecError>)
    requires env.Valid() && Sized(body)
    ensures r.Ok? ==> r.value.Valid()
  {
    match body
    case Plain(_) => Ok(PlainState)
    case VmessBody(f) =>
      var security :- VmessSpec.SecurityFromByte(f.security);
      var framing :- VmessSpec.FramingFromOptions(OptionBits(f.options));
      Ok(VmessState(VmessBody.DirectionKey(env.vmess, security, f.bodyKey, f.bodyIv, framing), VmessSpec.Start([])))
    case SsBody(s) =>
      var cipher := env.detect.shadowsocks.cipher(s.suite, s.requestSubkey[..ShadowsocksSpec.KeyLen(s.suite)]);
      var owed := if s.initial == [] then None else Some(s.initial);
      Ok(SsState(cipher, ShadowsocksSpec.DecState(s.nextCounter, [], None), owed))
  }

  /** The encoder that a request's body starts with; `entropy` gives the salt of a Shadowsocks response. */
  function WriterOf(body: Detect.Body, env: Env, entropy: Bytes): (w: Writer)
    requires env.Valid() && Sized(body) && |entropy| == 32 && StartOf(body, env).Ok?
    ensures w.Valid()
  {
    match body
    case Plain(prologue) => PlainWriter(prologue)
    case VmessBody(f) =>
      var c, key, iv := env.vmess, env.vmess.digest(f.bodyKey), env.vmess.digest(f.bodyIv);
      var security, framing := VmessSpec.SecurityFromByte(f.security).value,
                               VmessSpec.FramingFromOptions(OptionBits(f.options)).value;
      VmessWriter(VmessBody.DirectionKey(c, security, key, iv, framing), VmessSpec.EncState(0, 0),
                  c.responseHeader(key, iv, f.responseV))
    case SsBody(s) =>
      var x, n := env.detect.shadowsocks, ShadowsocksSpec.KeyLen(s.suite);
      SsWriter(x.cipher(s.suite, x.subkey(s.psk[..n], entropy[..n])[..n]),
               ShadowsocksSpec.Opening(entropy[..n], s.requestSalt[..n], s.now), ShadowsocksSpec.EncState(0, false))
  }

  /** What a parser hands over has its lengths. */
  lemma DetectedSized(buf: Bytes, creds: Detect.Credentials, env: Detect.Env)
    requires env.Valid() && creds.Valid() && Detect.DetectSpec(buf, creds, env).Ok?
    ensures Sized(Detect.DetectSpec(buf, creds, env).value.body)
  {
    hide Vless.ParseSpec, Trojan.ParseSpec, VmessHeader.ParseSpec, ShadowsocksHeader.ParseSpec;
    var vmess := VmessHeader.ParseSpec(env.vmess, buf, creds.vmess, env.now, env.names);
    if vmess.Ok? {
      VmessHeader.IvLength(env.vmess, buf, creds.vmess, env.now, env.names);
    }
    var ss := ShadowsocksHeader.ParseSpec(env.shadowsocks, buf, creds.shadowsocks, env.now, env.names);
    if ss.Ok? {
      ShadowsocksHeader.SessionValid(env.shadowsocks, buf, creds.shadowsocks, env.now, env.names);
    }
  }

  /** Build the two halves that a session needs, one for each direction. */
  method SplitBody(body: Detect.Body, env: Env, entropy: Bytes) returns (r: Result<(Decoder, Encoder), CodecError>)
    requires env.Valid() && Sized(body) && |entropy| == 32
    ensures r.Ok? <==> StartOf(body, env).Ok?
    ensures r.Err? ==> r.error == StartOf(body, env).error
    ensures r.Ok? ==> fresh(r.value.0) && fresh(r.value.0.Repr()) && r.value.0.Valid()
    ensures r.Ok? ==> r.value.0.Value() == StartOf(body, env).value
    ensures r.Ok? ==> fresh(r.value.1.Repr()) && r.value.1.Repr() !! r.value.0.Repr() && r.value.1.Valid()
    ensures r.Ok? ==> r.value.1.Value() == WriterOf(body, env, entropy)
  {
    match body {
      case Plain(prologue) =>
        var d := new Decoder(DecoderHalf.Plain);
        var e := new Encoder(EncoderHalf.PlainOut, prologue);
        return Ok((d, e));
      case VmessBody(f) =>
        var params := VmessBody.Params(f.bodyKey, f.bodyIv, f.security, OptionBits(f.options), f.responseV);
        var halves :- VmessBody.Split(env.vmess, params);
        var d := new Decoder(DecoderHalf.Vmess(halves.0));
        var e := new Encoder(EncoderHalf.VmessOut(halves.1), []);
        return Ok((d, e));
      case SsBody(s) =>
        var x := env.detect.shadowsocks;
        var decoder, encoder := ShadowsocksBody.Split(x.cipher, x.subkey, s, entropy);
        var d := new Decoder(DecoderHalf.Shadowsocks(decoder));
        var e := new Encoder(EncoderHalf.SsOut(encoder), []);
        return Ok((d, e));
    }
  }

  // ---- the XHTTP relay as a state machine ----

  /** Waiting for the header, refused, relaying, or stopped by what does not authenticate. */
  datatype Phase = Waiting(header: Bytes) | Refused | Relaying(decoder: State) | Poisoned {
    ghost predicate Valid() {
      Relaying? ==> decoder.Valid()
    }
  }

  /** The phase, and what has been written to the destination. */
  datatype Session = Session(phase: Phase, forwarded: seq<Bytes>)

  const FRESH := Session(Waiting([]), [])

  /** One piece through the codec; what a failing call yields is not written. */
  function Feed(s: State, forwarded: seq<Bytes>, input: Bytes): (next: Session)
    requires s.Valid()
    ensures next.phase.Valid()
  {
    StepValid(s, input);
    var o := Step(s, input);
    if o.error.Some? then Session(Poisoned, forwarded) else Session(Relaying(o.state), forwarded + o.chunks)
  }

  /** A request that is served: TCP to a target, without a flow, with a body that can be framed. */
  function Served(r: Detect.Request, env: Env): (s: Option<State>)
    requires env.Valid() && Sized(r.body)
    ensures s.Some? ==> s.value.Valid()
  {
    if r.flowRequested || r.target.None? || !r.isTcp then None
    else
      match StartOf(r.body, env)
      case Err(_) => None
      case Ok(s) => Some(s)
  }

  /** The first bytes of a session, before it relays. */
  function Open(buf: Bytes, creds: Detect.Credentials, env: Env): (next: Session)
    requires env.Valid() && creds.Valid()
    ensures next.phase.Valid()
  {
    if |buf| > MAX_HEADER_BYTES then Session(Refused, [])
    else
      match Detect.DetectSpec(buf, creds, env.detect)
      case Err(e) => Session(if e == Incomplete then Waiting(buf) else Refused, [])
      case Ok(r) =>
        DetectedSized(buf, creds, env.detect);
        match Served(r, env)
        case None => Session(Refused, [])
        case Some(s) => Feed(s, [], r.payload)
  }

  /** One piece of the uplink. */
  function Arrive(s: Session, piece: Bytes, creds: Detect.Credentials, env: Env): (next: Session)
    requires env.Valid() && creds.Valid() && s.phase.Valid()
    ensures next.phase.Valid()
  {
    match s.phase
    case Waiting(header) => Open(header + piece, creds, env)
    case Relaying(decoder) => Feed(decoder, s.forwarded, piece)
    case _ => s
  }

  /** All pieces of the uplink, in order. */
  function Run(s: Session, pieces: seq<Bytes>, creds: Detect.Credentials, env: Env): (next: Session)
    requires env.Valid() && creds.Valid() && s.phase.Valid()
    ensures next.phase.Valid()
    decreases |pieces|
  {
    if pieces == [] then s else Run(Arrive(s, pieces[0], creds, env), pieces[1..], creds, env)
  }

  /** How a session that has seen all its pieces ended. */
  datatype Ending = NotServed | Drained | Corrupt

  function EndingOf(p: Phase): Ending {
    match p
    case Relaying(_) => Drained
    case Poisoned => Corrupt
    case _ => NotServed
  }

  /** The relay: read pieces until the header is there, split the body, then decode and forward. */
  method Serve(pieces: seq<Bytes>, creds: Detect.Credentials, env: Env, entropy: Bytes)
    returns (ending: Ending, forwarded: seq<Bytes>)
    requires env.Valid() && creds.Valid() && |entropy| == 32
    ensures var s := Run(FRESH, pieces, creds, env); ending == EndingOf(s.phase) && forwarded == s.forwarded
  {
    hide Detect.DetectSpec, Served, Sized, Step, StartOf;
    forwarded := [];
    var header: Bytes := [];
    var i := 0;
    var request: Option<Detect.Request> := None;
    while request.None?
      invariant i <= |pieces|
      invariant request.None? ==>
                Run(FRESH, pieces, creds, env) == Run(Session(Waiting(header), []), pieces[i..], creds, env)
      invariant request.Some? ==>
        && Detect.DetectSpec(header, creds, env.detect) == Ok(request.value) && |header| <= MAX_HEADER_BYTES
        && Run(FRESH, pieces, creds, env) == Run(Open(header, creds, env), pieces[i..], creds, env)
      decreases request.None?, |pieces| - i
    {
      if i == |pieces| {
        return NotServed, [];
      }
      assert pieces[i..][1..] == pieces[i + 1..];
      header := header + pieces[i];
      i := i + 1;
      if |header| > MAX_HEADER_BYTES {
        StoppedStays(Session(Refused, []), pieces[i..], creds, env);
        return NotServed, [];
      }
      var r := Detect.Identify(header, creds, env.detect);
      match r {
        case Ok(found) =>
          request := Some(found);
        case Err(e) =>
          if e != Incomplete {
            StoppedStays(Session(Refused, []), pieces[i..], creds, env);
            return NotServed, [];
          }
      }
    }
    DetectedSized(header, creds, env.detect);
    ending, forwarded := Forward(request.value, pieces[i..], creds, env, entropy);
  }

  lemma {:induction false} StoppedStays(s: Session, pieces: seq<Bytes>, creds: Detect.Credentials, env: Env)
    requires env.Valid() && creds.Valid() && (s.phase.Refused? || s.phase.Poisoned?)
    ensures Run(s, pieces, creds, env) == s
    decreases |pieces|
  {
    if pieces != [] {
      StoppedStays(s, pieces[1..], creds, env);
    }
  }

  /** From the detected request on. */
  method Forward(r: Detect.Request, rest: seq<Bytes>, creds: Detect.Credentials, env: Env, entropy: Bytes)
    returns (ending: Ending, forwarded: seq<Bytes>)
    requires env.Valid() && creds.Valid() && Sized(r.body) && |entropy| == 32
    ensures var start := match Served(r, env) case None => Session(Refused, []) case Some(s) => Feed(s, [], r.payload);
      var s := Run(start, rest, creds, env);
      ending == EndingOf(s.phase) && forwarded == s.forwarded
  {
    hide Sized, Step, StartOf, Detect.DetectSpec, Open;
    StoppedStays(Session(Refused, []), rest, creds, env);
    if r.flowRequested || r.target.None? || !r.isTcp {
      return NotServed, [];
    }
    var halves := SplitBody(r.body, env, entropy);
    if halves.Err? {
      return NotServed, [];
    }
    var decoder := halves.value.0;
    ghost var now := decoder.Value();
    var ready, error := decoder.Decode(r.payload, []);
    StoppedStays(Session(Poisoned, []), rest, creds, env);
    if error.Some? {
      return Corrupt, [];
    }
    forwarded := ready;
    ghost var start := Feed(now, [], r.payload);
    assert [] + ready == ready;
    for i := 0 to |rest|
      invariant decoder.Valid() && fresh(decoder) && fresh(decoder.Repr()) && decoder.Value().Valid()
      invariant Run(start, rest, creds, env)
                == Run(Session(Relaying(decoder.Value()), forwarded), rest[i..], creds, env)
    {
      assert rest[i..][1..] == rest[i + 1..];
      StoppedStays(Session(Poisoned, forwarded), rest[i + 1..], creds, env);
      ghost var s := decoder.Value();
      ready, error := decoder.Decode(rest[i], []);
      assert [] + Step(s, rest[i]).chunks == Step(s, rest[i]).chunks;
      if error.Some? {
        return Corrupt, forwarded;
      }
      forwarded := forwarded + ready;
    }
    return Drained, forwarded;
  }

  // ---- any cutting of a stream ----

  /** `front` is the header of `front + rest`: every cut before its end waits, and every cut from there on is the
      request, with what has followed the header as its payload. */
  ghost predicate Fronts(front: Bytes, rest: Bytes, r: Detect.Request, creds: Detect.Credentials, env: Detect.Env)
    requires env.Valid() && creds.Valid()
  {
    && (forall k :: 0 <= k < |front| ==> Detect.DetectSpec(front[..k], creds, env) == Err(Incomplete))
    && (forall k :: 0 <= k <= |rest| ==>
        Detect.DetectSpec(front + rest[..k], creds, env) == Ok(r.(payload := rest[..k])))
  }

  /** How long the buffer is when its length first reaches `n`, if it is `have` before the pieces. */
  function Reach(pieces: seq<Bytes>, have: nat, n: nat): nat
    decreases |pieces|
  {
    if have >= n || pieces == [] then have else Reach(pieces[1..], have + |pieces[0]|, n)
  }

  lemma {:induction false} ReachGrows(pieces: seq<Bytes>, have: nat, n: nat)
    ensures Reach(pieces, have, n) >= have
    decreases |pieces|
  {
    if have < n && pieces != [] {
      ReachGrows(pieces[1..], have + |pieces[0]|, n);
    }
  }

  /** A relaying session forwards what the decoder yields over all its calls. */
  lemma {:induction false} FeedAll(s: State, forwarded: seq<Bytes>, pieces: seq<Bytes>, creds: Detect.Credentials,
                                   env: Env)
    requires env.Valid() && creds.Valid() && s.Valid() && StepAll(s, pieces).error.None?
    ensures Run(Session(Relaying(s), forwarded), pieces, creds, env)
         == Session(Relaying(StepAll(s, pieces).state), forwarded + StepAll(s, pieces).chunks)
    decreases |pieces|
  {
    hide Step, Open;
    if pieces == [] {
      assert forwarded + [] == forwarded;
    } else {
      StepValid(s, pieces[0]);
      var first := Step(s, pieces[0]);
      FeedAll(first.state, forwarded + first.chunks, pieces[1..], creds, env);
      assert forwarded + first.chunks + StepAll(first.state, pieces[1..]).chunks
             == forwarded + StepAll(s, pieces).chunks;
    }
  }

  /** On any input at all: the chunks of the calls before the first that fails are forwarded, all of them and in order,
      and nothing of that call or after it. */
  lemma {:induction false} FeedAny(s: State, forwarded: seq<Bytes>, pieces: seq<Bytes>, creds: Detect.Credentials,
                                   env: Env) returns (k: nat)
    requires env.Valid() && creds.Valid() && s.Valid()
    ensures k <= |pieces| && StepAll(s, pieces[..k]).error.None? && StepAll(s, pieces[..k]).state.Valid()
    ensures var o, end := StepAll(s, pieces[..k]), Run(Session(Relaying(s), forwarded), pieces, creds, env);
      && end.forwarded == forwarded + o.chunks
      && (if k == |pieces| then end.phase == Relaying(o.state)
          else end.phase.Poisoned? && Step(o.state, pieces[k]).error.Some?)
    decreases |pieces|
  {
    hide Step, Open;
    k := 0;
    assert StepAll(s, pieces[..0]) == Outcome(s, [], None);
    assert forwarded + [] == forwarded;
    if pieces != [] {
      StepValid(s, pieces[0]);
      var first := Step(s, pieces[0]);
      if first.error.Some? {
        StoppedStays(Session(Poisoned, forwarded), pieces[1..], creds, env);
      } else {
        var n := FeedAny(first.state, forwarded + first.chunks, pieces[1..], creds, env);
        k := n + 1;
        assert pieces[..k][0] == pieces[0] && pieces[..k][1..] == pieces[1..][..n];
        var rest := StepAll(first.state, pieces[1..][..n]).chunks;
        assert forwarded + first.chunks + rest == forwarded + (first.chunks + rest);
      }
    }
  }

  /** From the piece that completes the header on. */
  lemma Relays(front: Bytes, rest: Bytes, r: Detect.Request, s0: State, k: nat, pieces: seq<Bytes>,
               creds: Detect.Credentials, env: Env)
    requires env.Valid() && creds.Valid() && Fronts(front, rest, r, creds, env.detect)
    requires Sized(r.body) && Served(r, env) == Some(s0) && Step(s0, rest).error.None?
    requires k <= |rest| && Concat(pieces) == rest[k..] && |front| + k <= MAX_HEADER_BYTES
    ensures var s := Run(Open(front + rest[..k], creds, env), pieces, creds, env);
      s.phase.Relaying? && Concat(s.forwarded) == Concat(Step(s0, rest).chunks)
  {
    hide Detect.DetectSpec, Step, Sized, StartOf, Concat;
    var first := rest[..k];
    var calls := [first] + pieces;
    assert Concat(calls) == rest by {
      ConcatAppend([first], pieces);
      ConcatOne(first);
      assert rest == rest[..k] + rest[k..];
    }
    AnySplit(s0, calls);
    assert calls[0] == first && calls[1..] == pieces;
    assert StepAll(s0, calls).error.None?;
    StepAllFirst(s0, first, pieces);
    StepValid(s0, first);
    var o := Step(s0, first);
    assert Open(front + first, creds, env) == Feed(s0, [], first);
    assert [] + o.chunks == o.chunks;
    FeedAll(o.state, o.chunks, pieces, creds, env);
  }

  lemma ConcatOne(a: Bytes)
    ensures Concat([a]) == a
  {
    assert [a][1..] == [];
  }

  lemma StepAllFirst(s: State, first: Bytes, pieces: seq<Bytes>)
    requires s.Valid() && StepAll(s, [first] + pieces).error.None?
    ensures Step(s, first).error.None? && Step(s, first).state.Valid()
    ensures StepAll(Step(s, first).state, pieces).error.None?
    ensures StepAll(s, [first] + pieces).chunks == Step(s, first).chunks + StepAll(Step(s, first).state, pieces).chunks
  {
    hide Step;
    StepValid(s, first);
    assert ([first] + pieces)[1..] == pieces;
  }

  /** Until the header is there. */
  lemma {:induction false} Waits(h: Bytes, pieces: seq<Bytes>, front: Bytes, rest: Bytes, r: Detect.Request, s0: State,
                                 creds: Detect.Credentials, env: Env)
    requires env.Valid() && creds.Valid() && Fronts(front, rest, r, creds, env.detect)
    requires Sized(r.body) && Served(r, env) == Some(s0) && Step(s0, rest).error.None?
    requires h + Concat(pieces) == front + rest && |h| < |front|
    ensures var s := Run(Session(Waiting(h), []), pieces, creds, env);
      if Reach(pieces, |h|, |front|) <= MAX_HEADER_BYTES then
        s.phase.Relaying? && Concat(s.forwarded) == Concat(Step(s0, rest).chunks)
      else s == Session(Refused, [])
    decreases |pieces|
  {
    hide Detect.DetectSpec, Step, Sized, Served, Fronts;
    assert pieces != [];
    var buf, later := h + pieces[0], pieces[1..];
    assert buf + Concat(later) == front + rest;
    ReachGrows(later, |buf|, |front|);
    if |buf| > MAX_HEADER_BYTES {
      StoppedStays(Session(Refused, []), later, creds, env);
    } else if |buf| < |front| {
      CutInside(buf, later, front, rest, r, creds, env.detect);
      Waits(buf, later, front, rest, r, s0, creds, env);
    } else {
      var k := |buf| - |front|;
      assert buf == (front + rest)[..|buf|] == front + rest[..k];
      assert Concat(later) == (front + rest)[|buf|..] == rest[k..];
      Relays(front, rest, r, s0, k, later, creds, env);
    }
  }

  lemma CutInside(buf: Bytes, later: seq<Bytes>, front: Bytes, rest: Bytes, r: Detect.Request,
                  creds: Detect.Credentials, env: Detect.Env)
    requires env.Valid() && creds.Valid() && Fronts(front, rest, r, creds, env)
    requires buf + Concat(later) == front + rest && |buf| < |front|
    ensures Detect.DetectSpec(buf, creds, env) == Err(Incomplete)
  {
    hide Detect.DetectSpec;
    assert buf == (front + rest)[..|buf|] == front[..|buf|];
  }

  /** Any cutting of a stream whose header ends where it says: what the body decodes to is forwarded, all of it and in
      order, unless the piece that completes the header overfills the header buffer; then nothing is. */
  lemma AnyCutting(pieces: seq<Bytes>, front: Bytes, rest: Bytes, r: Detect.Request, s0: State,
                   creds: Detect.Credentials, env: Env)
    requires env.Valid() && creds.Valid() && front != [] && Fronts(front, rest, r, creds, env.detect)
    requires Sized(r.body) && Served(r, env) == Some(s0) && Step(s0, rest).error.None?
    requires Concat(pieces) == front + rest
    ensures var s := Run(FRESH, pieces, creds, env);
      if Reach(pieces, 0, |front|) <= 8192 then
        s.phase.Relaying? && Concat(s.forwarded) == Concat(Step(s0, rest).chunks)
      else s == Session(Refused, [])
  {
    hide Fronts, Served, Sized, Step, Run, Reach;
    assert [] + Concat(pieces) == front + rest;
    Waits([], pieces, front, rest, r, s0, creds, env);
  }

  // ---- the four protocols ----

  function Says(kind: Detect.Kind, buf: Bytes, creds: Detect.Credentials, env: Detect.Env): Detect.Verdict
    requires env.Valid() && creds.Valid()
  {
    match kind
    case Vless => Detect.VlessSays(buf, creds, env)
    case Trojan => Detect.TrojanSays(buf, creds, env)
    case Vmess => Detect.VmessSays(buf, creds, env)
    case Shadowsocks => Detect.ShadowsocksSays(buf, creds, env)
  }

  /** No other parser takes any beginning of the stream for a request of its own. */
  ghost predicate OnlyBy(kind: Detect.Kind, stream: Bytes, creds: Detect.Credentials, env: Detect.Env)
    requires env.Valid() && creds.Valid()
  {
    forall k, other :: 0 <= k <= |stream| && other != kind ==> Says(other, stream[..k], creds, env).Err?
  }

  /** A parser that waits for its header and then accepts it fronts the stream, when no other takes it. */
  lemma FrontsAlone(kind: Detect.Kind, front: Bytes, rest: Bytes, r: Detect.Request, creds: Detect.Credentials,
                    env: Detect.Env)
    requires env.Valid() && creds.Valid() && OnlyBy(kind, front + rest, creds, env)
    requires forall k :: 0 <= k < |front| ==> Says(kind, front[..k], creds, env) == Err(Incomplete)
    requires forall k :: 0 <= k <= |rest| ==> Says(kind, front + rest[..k], creds, env) == Ok(r.(payload := rest[..k]))
    ensures Fronts(front, rest, r, creds, env)
  {
    hide Detect.VlessSays, Detect.TrojanSays, Detect.VmessSays, Detect.ShadowsocksSays, OnlyBy;
    forall k | 0 <= k < |front| ensures Detect.DetectSpec(front[..k], creds, env) == Err(Incomplete) {
      assert (front + rest)[..k] == front[..k];
      Alone(kind, front + rest, k, creds, env);
    }
    forall k | 0 <= k <= |rest|
      ensures Detect.DetectSpec(front + rest[..k], creds, env) == Ok(r.(payload := rest[..k])) {
      assert (front + rest)[..|front| + k] == front + rest[..k];
      Alone(kind, front + rest, |front| + k, creds, env);
    }
  }

  lemma Alone(kind: Detect.Kind, stream: Bytes, k: nat, creds: Detect.Credentials, env: Detect.Env)
    requires env.Valid() && creds.Valid() && OnlyBy(kind, stream, creds, env) && k <= |stream|
    ensures var own, all := Says(kind, stream[..k], creds, env), Detect.DetectSpec(stream[..k], creds, env);
      (own.Ok? ==> all == own) && (own == Err(Incomplete) ==> all == Err(Incomplete))
  {
    hide Detect.VlessSays, Detect.TrojanSays, Detect.VmessSays, Detect.ShadowsocksSays;
    var buf := stream[..k];
    assert kind != Detect.Kind.Vless ==> Says(Detect.Kind.Vless, buf, creds, env).Err?;
    assert kind != Detect.Kind.Trojan ==> Says(Detect.Kind.Trojan, buf, creds, env).Err?;
    assert kind != Detect.Kind.Vmess ==> Says(Detect.Kind.Vmess, buf, creds, env).Err?;
    assert kind != Detect.Kind.Shadowsocks ==> Says(Detect.Kind.Shadowsocks, buf, creds, env).Err?;
  }

  /** Bytes that VLESS cannot take: they do not start with zero. */
  predicate NotVless(stream: Bytes) {
    stream == [] || stream[0] != Vless.VERSION
  }

  /** Bytes that Trojan cannot take: one of the first 56 is no hexadecimal digit. */
  predicate NotTrojan(stream: Bytes) {
    exists i :: 0 <= i < 56 && i < |stream| && !Trojan.IsHexDigit(stream[i])
  }

  /** Nothing else takes a stream when VLESS and Trojan are disabled or ruled out by its bytes, and the other encrypted
      protocols are disabled. */
  lemma RuledOut(kind: Detect.Kind, stream: Bytes, creds: Detect.Credentials, env: Detect.Env)
    requires env.Valid() && creds.Valid()
    requires kind != Detect.Kind.Vless ==> creds.vless == [] || NotVless(stream)
    requires kind != Detect.Kind.Trojan ==> creds.trojan == [] || (Detect.HexKeys(creds) && NotTrojan(stream))
    requires kind != Detect.Kind.Vmess ==> creds.vmess == []
    requires kind != Detect.Kind.Shadowsocks ==> creds.shadowsocks == []
    ensures OnlyBy(kind, stream, creds, env)
  {
    hide Detect.VlessSays, Detect.TrojanSays, Detect.VmessSays, Detect.ShadowsocksSays;
    forall k, other | 0 <= k <= |stream| && other != kind ensures Says(other, stream[..k], creds, env).Err? {
      Disabled(stream[..k], creds, env);
      if other.Vless? && creds.vless != [] && Detect.VlessSays(stream[..k], creds, env).Ok? {
        Detect.VlessFirstByte(stream[..k], creds, env);
        NothingIsVless(creds, env);
      }
      if other.Trojan? && creds.trojan != [] && Detect.TrojanSays(stream[..k], creds, env).Ok? {
        TrojanStart(stream, k, creds, env);
      }
    }
  }

  lemma Disabled(buf: Bytes, creds: Detect.Credentials, env: Detect.Env)
    requires env.Valid() && creds.Valid()
    ensures creds.vless == [] ==> Detect.VlessSays(buf, creds, env).Err?
    ensures creds.trojan == [] ==> Detect.TrojanSays(buf, creds, env).Err?
    ensures creds.vmess == [] ==> Detect.VmessSays(buf, creds, env).Err?
    ensures creds.shadowsocks == [] ==> Detect.ShadowsocksSays(buf, creds, env).Err?
  {
    hide Vless.ParseSpec, Trojan.ParseSpec, VmessHeader.ParseSpec, ShadowsocksHeader.ParseSpec;
  }

  /** What Trojan takes starts with 56 hexadecimal digits. */
  lemma TrojanStart(stream: Bytes, k: nat, creds: Detect.Credentials, env: Detect.Env)
    requires Detect.HexKeys(creds) && k <= |stream| && Detect.TrojanSays(stream[..k], creds, env).Ok?
    ensures !NotTrojan(stream)
  {
    hide Trojan.AfterUser, Trojan.IsHexDigit;
    var presented := stream[..k][0..56];
    assert presented in creds.trojan;
    assert forall i :: 0 <= i < 56 ==> stream[i] == presented[i];
  }

  /** With the other protocols disabled nothing else takes a stream. */
  lemma OthersDisabled(kind: Detect.Kind, stream: Bytes, creds: Detect.Credentials, env: Detect.Env)
    requires env.Valid() && creds.Valid()
    requires kind != Detect.Kind.Vless ==> creds.vless == []
    requires kind != Detect.Kind.Trojan ==> creds.trojan == []
    requires kind != Detect.Kind.Vmess ==> creds.vmess == []
    requires kind != Detect.Kind.Shadowsocks ==> creds.shadowsocks == []
    ensures OnlyBy(kind, stream, creds, env)
  {
    hide OnlyBy, NotVless, NotTrojan;
    RuledOut(kind, stream, creds, env);
  }

  /** VLESS and Trojan beside each other tell their streams apart by the first byte. */
  lemma FirstByteDecides(stream: Bytes, creds: Detect.Credentials, env: Detect.Env)
    requires env.Valid() && creds.Valid() && Detect.HexKeys(creds) && creds.vmess == [] && creds.shadowsocks == []
    requires stream != []
    ensures OnlyBy(if stream[0] == 0 then Detect.Kind.Vless else Detect.Kind.Trojan, stream, creds, env)
  {
    hide Detect.VlessSays, Detect.TrojanSays, Vless.ParseSpec, Trojan.ParseSpec;
    var kind := if stream[0] == 0 then Detect.Kind.Vless else Detect.Kind.Trojan;
    forall k, other | 0 <= k <= |stream| && other != kind ensures Says(other, stream[..k], creds, env).Err? {
      var buf := stream[..k];
      if Detect.TrojanSays(buf, creds, env).Ok? {
        Detect.TrojanFirstByte(buf, creds, env);
      }
      if Detect.VlessSays(buf, creds, env).Ok? {
        Detect.VlessFirstByte(buf, creds, env);
        NothingIsVless(creds, env);
      }
    }
  }

  lemma NothingIsVless(creds: Detect.Credentials, env: Detect.Env)
    ensures Detect.VlessSays([], creds, env).Err?
  {
  }

  /** What the theorems below promise of a session. */
  ghost predicate Delivers(pieces: seq<Bytes>, front: Bytes, plaintext: Bytes, creds: Detect.Credentials, env: Env)
    requires env.Valid() && creds.Valid()
  {
    var s := Run(FRESH, pieces, creds, env);
    if Reach(pieces, 0, |front|) <= 8192 then s.phase.Relaying? && Concat(s.forwarded) == plaintext
    else s == Session(Refused, [])
  }

  /** Plain bodies come out as they went in. */
  lemma PlainBody(payload: Bytes)
    ensures Step(PlainState, payload).error.None? && Concat(Step(PlainState, payload).chunks) == payload
  {
    OneChunk(payload);
  }

  /** The header of a VLESS client fronts its stream. */
  lemma VlessFronts(w: Vless.Wire, payload: Bytes, creds: Detect.Credentials, env: Detect.Env)
    requires env.Valid() && creds.Valid() && w.Writable(env.names) && w.id in creds.vless
    requires OnlyBy(Detect.Kind.Vless, Vless.Print(w) + payload, creds, env)
    ensures var r := Detect.VlessSays(Vless.Print(w), creds, env);
      && r.Ok? && Fronts(Vless.Print(w), payload, r.value, creds, env)
      && r.value.kind.Vless? && r.value.body == Detect.Plain([0, 0]) && r.value.flowRequested == (w.addons != [])
      && r.value.isTcp == w.command.Tcp? && (w.command.Tcp? ==> r.value.target.Some?)
  {
    hide Vless.ParseSpec, Vless.Print, OnlyBy, Fronts;
    var front, names := Vless.Print(w), env.names;
    Vless.RoundTrip(w, creds.vless, names, []);
    assert front + [] == front;
    var r := Detect.VlessSays(front, creds, env).value;
    forall k | 0 <= k < |front| ensures Says(Detect.Kind.Vless, front[..k], creds, env) == Err(Incomplete) {
      Vless.StrictPrefixIncomplete(front, creds.vless, names, k);
    }
    forall k | 0 <= k <= |payload|
      ensures Says(Detect.Kind.Vless, front + payload[..k], creds, env) == Ok(r.(payload := payload[..k])) {
      Vless.RoundTrip(w, creds.vless, names, payload[..k]);
    }
    FrontsAlone(Detect.Kind.Vless, front, payload, r, creds, env);
  }

  lemma DeliversVless(w: Vless.Wire, payload: Bytes, pieces: seq<Bytes>, creds: Detect.Credentials, env: Env)
    requires env.Valid() && creds.Valid() && w.Writable(env.detect.names) && w.id in creds.vless
    requires w.command.Tcp? && w.addons == []
    requires OnlyBy(Detect.Kind.Vless, Vless.Print(w) + payload, creds, env.detect)
    requires Concat(pieces) == Vless.Print(w) + payload
    ensures Delivers(pieces, Vless.Print(w), payload, creds, env)
  {
    hide Vless.ParseSpec, Vless.Print, OnlyBy, Fronts, Run, Reach, Step;
    var front := Vless.Print(w);
    VlessFronts(w, payload, creds, env.detect);
    PlainBody(payload);
    Nonempty(front, creds, env.detect);
    AnyCutting(pieces, front, payload, Detect.VlessSays(front, creds, env.detect).value, PlainState, creds, env);
  }

  lemma Nonempty(front: Bytes, creds: Detect.Credentials, env: Detect.Env)
    requires Detect.VlessSays(front, creds, env).Ok? || Detect.TrojanSays(front, creds, env).Ok?
    ensures front != []
  {
  }

  /** So does that of a Trojan client. */
  lemma TrojanFronts(w: Trojan.Wire, payload: Bytes, creds: Detect.Credentials, env: Detect.Env)
    requires env.Valid() && creds.Valid() && w.Writable(env.names) && w.key in creds.trojan
    requires OnlyBy(Detect.Kind.Trojan, Trojan.Print(w) + payload, creds, env)
    ensures var r := Detect.TrojanSays(Trojan.Print(w), creds, env);
      && r.Ok? && Fronts(Trojan.Print(w), payload, r.value, creds, env)
      && r.value.kind.Trojan? && r.value.body == Detect.Plain([]) && !r.value.flowRequested
      && r.value.isTcp == w.command.Connect? && r.value.target.Some?
  {
    hide Trojan.ParseSpec, Trojan.Print, OnlyBy, Fronts;
    var front, names := Trojan.Print(w), env.names;
    Trojan.RoundTrip(w, creds.trojan, names, []);
    assert front + [] == front;
    var r := Detect.TrojanSays(front, creds, env).value;
    forall k | 0 <= k < |front| ensures Says(Detect.Kind.Trojan, front[..k], creds, env) == Err(Incomplete) {
      Trojan.StrictPrefixIncomplete(front, creds.trojan, names, k);
    }
    forall k | 0 <= k <= |payload|
      ensures Says(Detect.Kind.Trojan, front + payload[..k], creds, env) == Ok(r.(payload := payload[..k])) {
      Trojan.RoundTrip(w, creds.trojan, names, payload[..k]);
    }
    FrontsAlone(Detect.Kind.Trojan, front, payload, r, creds, env);
  }

  lemma DeliversTrojan(w: Trojan.Wire, payload: Bytes, pieces: seq<Bytes>, creds: Detect.Credentials, env: Env)
    requires env.Valid() && creds.Valid() && w.Writable(env.detect.names) && w.key in creds.trojan
    requires w.command.Connect?
    requires OnlyBy(Detect.Kind.Trojan, Trojan.Print(w) + payload, creds, env.detect)
    requires Concat(pieces) == Trojan.Print(w) + payload
    ensures Delivers(pieces, Trojan.Print(w), payload, creds, env)
  {
    hide Trojan.ParseSpec, Trojan.Print, OnlyBy, Fronts, Run, Reach, Step;
    var front := Trojan.Print(w);
    TrojanFronts(w, payload, creds, env.detect);
    PlainBody(payload);
    Nonempty(front, creds, env.detect);
    AnyCutting(pieces, front, payload, Detect.TrojanSays(front, creds, env.detect).value, PlainState, creds, env);
  }

  /** The uplink key of a VMess session. */
  function UplinkKey(w: VmessHeader.Wire, env: Env): (r: Result<VmessSpec.Key, CodecError>)
    requires env.Valid() && w.security < 16 && |w.bodyIv| == 16
    ensures r.Ok? ==> r.value.Valid()
  {
    hide VmessSpec.FramingFromOptions, OptionBits;
    var security :- VmessSpec.SecurityFromByte(w.security);
    var framing :- VmessSpec.FramingFromOptions(OptionBits(w.options));
    Ok(VmessBody.DirectionKey(env.vmess, security, w.bodyKey, w.bodyIv, framing))
  }

  lemma UplinkStart(w: VmessHeader.Wire, env: Env)
    requires env.Valid() && w.security < 16 && |w.bodyIv| == 16
    ensures var f := VmessHeader.Meaning(w, env.detect.names);
      UplinkKey(w, env).Ok? ==>
        StartOf(Detect.VmessBody(f), env) == Ok(VmessState(UplinkKey(w, env).value, VmessSpec.Start([])))
  {
    hide VmessSpec.FramingFromOptions, OptionBits, Cipher.Lawful;
  }

  /** The decoder yields exactly the writes. */
  lemma VmessBodyDecodes(k: VmessSpec.Key, writes: seq<Bytes>)
    requires k.Valid()
    ensures var o := Step(VmessState(k, VmessSpec.Start([])),
                          VmessProofs.EncodeCalls(k, VmessSpec.EncState(0, 0), writes));
      o.error.None? && Concat(o.chunks) == Concat(writes)
  {
    hide VmessSpec.Decode, VmessProofs.EncodeCalls, Concat;
    var wire := VmessProofs.EncodeCalls(k, VmessSpec.EncState(0, 0), writes);
    ConcatOne(wire);
    VmessProofs.RoundTrip(k, writes, [wire]);
    VmessProofs.NothingMore(k, VmessSpec.Start([]), wire);
  }

  /** What a VMess client sends before its chunks fronts its stream. */
  lemma VmessFronts(s: VmessHeader.Sent, user: nat, w: VmessHeader.Wire, rest: Bytes, creds: Detect.Credentials,
                    env: Detect.Env)
    requires env.Valid() && creds.Valid() && w.Writable(env.names) && |env.vmess.fnv1a(VmessHeader.Print(w))| == 4
    requires VmessHeader.Opens(env.vmess, creds.vmess, env.now, s, user,
                               VmessHeader.Checked(env.vmess, VmessHeader.Print(w)))
    requires OnlyBy(Detect.Kind.Vmess, s.Bytes() + rest, creds, env)
    ensures s.Bytes() != []
    ensures var r := Detect.VmessSays(s.Bytes(), creds, env);
      && r.Ok? && Fronts(s.Bytes(), rest, r.value, creds, env)
      && r.value.kind.Vmess? && r.value.body == Detect.VmessBody(VmessHeader.Meaning(w, env.names))
      && !r.value.flowRequested && r.value.isTcp == w.command.Tcp? && r.value.target.Some?
  {
    hide VmessHeader.ParseSpec, VmessHeader.Print, VmessHeader.Checked, OnlyBy, Fronts;
    var front, x, now, names := s.Bytes(), env.vmess, env.now, env.names;
    VmessHeader.RoundTrip(x, creds.vmess, now, names, s, user, w, []);
    assert front + [] == front;
    var r := Detect.VmessSays(front, creds, env).value;
    hide VmessHeader.Opens;
    forall i | 0 <= i < |front| ensures Says(Detect.Kind.Vmess, front[..i], creds, env) == Err(Incomplete) {
      VmessHeader.StrictPrefixIncomplete(x, front, creds.vmess, now, names, i);
    }
    forall i | 0 <= i <= |rest|
      ensures Says(Detect.Kind.Vmess, front + rest[..i], creds, env) == Ok(r.(payload := rest[..i])) {
      VmessHeader.RoundTrip(x, creds.vmess, now, names, s, user, w, rest[..i]);
    }
    FrontsAlone(Detect.Kind.Vmess, front, rest, r, creds, env);
  }

  lemma DeliversVmess(s: VmessHeader.Sent, user: nat, w: VmessHeader.Wire, writes: seq<Bytes>, pieces: seq<Bytes>,
                      creds: Detect.Credentials, env: Env)
    requires env.Valid() && creds.Valid() && w.Writable(env.detect.names) && w.command.Tcp?
    requires |env.detect.vmess.fnv1a(VmessHeader.Print(w))| == 4
    requires VmessHeader.Opens(env.detect.vmess, creds.vmess, env.detect.now, s, user,
                               VmessHeader.Checked(env.detect.vmess, VmessHeader.Print(w)))
    requires UplinkKey(w, env).Ok?
    requires var stream := s.Bytes()
             + VmessProofs.EncodeCalls(UplinkKey(w, env).value, VmessSpec.EncState(0, 0), writes);
      OnlyBy(Detect.Kind.Vmess, stream, creds, env.detect) && Concat(pieces) == stream
    ensures Delivers(pieces, s.Bytes(), Concat(writes), creds, env)
  {
    hide VmessHeader.ParseSpec, VmessHeader.Print, VmessHeader.Checked, VmessHeader.Opens, OnlyBy, Fronts, Run, Reach;
    hide StartOf, UplinkKey, Step, VmessProofs.EncodeCalls, Concat;
    var k := UplinkKey(w, env).value;
    var rest := VmessProofs.EncodeCalls(k, VmessSpec.EncState(0, 0), writes);
    VmessFronts(s, user, w, rest, creds, env.detect);
    UplinkStart(w, env);
    VmessBodyDecodes(k, writes);
    AnyCutting(pieces, s.Bytes(), rest, Detect.VmessSays(s.Bytes(), creds, env.detect).value,
               VmessState(k, VmessSpec.Start([])), creds, env);
  }

  /** The payload of the request header first, then the chunks. */
  lemma SsBodyDecodes(c: Cipher, initial: Bytes, chunks: seq<Bytes>)
    requires c.Lawful() && forall i :: 0 <= i < |chunks| ==> 0 < |chunks[i]| <= ShadowsocksSpec.MAX_CHUNK
    ensures var owed := if initial == [] then None else Some(initial);
      var o := Step(SsState(c, ShadowsocksSpec.DecState(2, [], None), owed),
                    ShadowsocksSpec.EncodePieces(c, 2, chunks));
      o.error.None? && Concat(o.chunks) == initial + Concat(chunks)
  {
    hide ShadowsocksSpec.Run, ShadowsocksSpec.EncodePieces, Concat;
    var wire := ShadowsocksSpec.EncodePieces(c, 2, chunks);
    ShadowsocksProofs.ChunksDecode(c, 2, chunks, []);
    ShadowsocksProofs.RunNothing(c, 2 + 2 * |chunks|);
    assert wire + [] == wire && [] + wire == wire && chunks + [] == chunks;
    var owed := if initial == [] then None else Some(initial);
    ConcatAppend(Owed(owed), chunks);
    ConcatOne(initial);
    ConcatNothing();
  }

  lemma ConcatNothing()
    ensures Concat<byte>([]) == []
  {
  }

  lemma DeliversShadowsocks(user: nat, w: ShadowsocksHeader.Wire, chunks: seq<Bytes>, pieces: seq<Bytes>,
                            creds: Detect.Credentials, env: Env)
    requires env.Valid() && creds.Valid() && user < |creds.shadowsocks| && w.Writable(env.detect.names)
    requires |w.salt| == ShadowsocksSpec.KeyLen(creds.shadowsocks[user].suite)
    requires ShadowsocksHeader.ClientCipher(env.detect.shadowsocks, creds.shadowsocks[user], w.salt).Lawful()
    requires w.Timely(env.detect.now)
    requires forall i :: 0 <= i < |chunks| ==> 0 < |chunks[i]| <= ShadowsocksSpec.MAX_CHUNK
    requires var c := ShadowsocksHeader.ClientCipher(env.detect.shadowsocks, creds.shadowsocks[user], w.salt);
      var stream := ShadowsocksHeader.Print(env.detect.shadowsocks, creds.shadowsocks[user], w, env.detect.names)
                    + ShadowsocksSpec.EncodePieces(c, 2, chunks);
      && OnlyBy(Detect.Kind.Shadowsocks, stream, creds, env.detect) && OtherKeysQuiet(stream, creds, user, env.detect)
      && Concat(pieces) == stream
    ensures Delivers(pieces,
                     ShadowsocksHeader.Print(env.detect.shadowsocks, creds.shadowsocks[user], w, env.detect.names),
                     w.initial + Concat(chunks), creds, env)
  {
    hide ShadowsocksHeader.Print, ShadowsocksHeader.ParseSpec, ShadowsocksHeader.Try, OnlyBy, Fronts, Run, Reach, Step;
    hide ShadowsocksSpec.EncodePieces, Concat, OtherKeysQuiet;
    var x, cred, names := env.detect.shadowsocks, creds.shadowsocks[user], env.detect.names;
    var c := ShadowsocksHeader.ClientCipher(x, cred, w.salt);
    var front, rest := ShadowsocksHeader.Print(x, cred, w, names), ShadowsocksSpec.EncodePieces(c, 2, chunks);
    var r := SsRequest(user, w, creds, env.detect);
    forall i | 0 <= i < |front|
      ensures Says(Detect.Kind.Shadowsocks, front[..i], creds, env.detect) == Err(Incomplete) {
      SsBefore(front, rest, user, w, i, creds, env.detect);
    }
    forall i | 0 <= i <= |rest|
      ensures Says(Detect.Kind.Shadowsocks, front + rest[..i], creds, env.detect) == Ok(r.(payload := rest[..i])) {
      SsAfter(front, rest, user, w, i, creds, env.detect);
    }
    FrontsAlone(Detect.Kind.Shadowsocks, front, rest, r, creds, env.detect);
    SsBodyDecodes(c, w.initial, chunks);
    SsFrontNonempty(x, cred, w, names);
    var owed := if w.initial == [] then None else Some(w.initial);
    AnyCutting(pieces, front, rest, r, SsState(c, ShadowsocksSpec.DecState(2, [], None), owed), creds, env);
  }

  /** No other Shadowsocks key makes anything of any beginning of the stream. */
  ghost predicate OtherKeysQuiet(stream: Bytes, creds: Detect.Credentials, user: nat, env: Detect.Env)
    requires env.Valid() && creds.Valid()
  {
    forall k :: 0 <= k <= |stream| ==>
      ShadowsocksHeader.OthersQuiet(env.shadowsocks, stream[..k], creds.shadowsocks, user, env.now, env.names)
  }

  lemma OneKeyQuiet(stream: Bytes, creds: Detect.Credentials, env: Detect.Env)
    requires env.Valid() && creds.Valid() && |creds.shadowsocks| == 1
    ensures OtherKeysQuiet(stream, creds, 0, env)
  {
    hide ShadowsocksHeader.Try;
  }

  lemma SsFrontNonempty(x: ShadowsocksHeader.Crypto, cred: ShadowsocksHeader.Credential, w: ShadowsocksHeader.Wire,
                        names: Names)
    requires x.Valid() && cred.Valid() && w.Writable(names) && |w.salt| == ShadowsocksSpec.KeyLen(cred.suite)
    ensures ShadowsocksHeader.Print(x, cred, w, names) != []
  {
    hide ShadowsocksHeader.PrintFixed, ShadowsocksHeader.PrintVariable, ShadowsocksSpec.Seal;
  }

  /** What detection makes of a Shadowsocks request, apart from what follows its header. */
  function SsRequest(user: nat, w: ShadowsocksHeader.Wire, creds: Detect.Credentials, env: Detect.Env): Detect.Request
    requires env.Valid() && creds.Valid() && user < |creds.shadowsocks| && |w.salt| <= 32
  {
    var session := ShadowsocksHeader.SessionOf(env.shadowsocks, creds.shadowsocks[user], w.salt, w.initial, env.now);
    Detect.Request(Detect.Kind.Shadowsocks, user, Some(Target(w.address.Meaning(env.names), w.port)), true, false,
                   Detect.SsBody(session), [])
  }

  lemma SsBefore(front: Bytes, rest: Bytes, user: nat, w: ShadowsocksHeader.Wire, i: nat, creds: Detect.Credentials,
                 env: Detect.Env)
    requires env.Valid() && creds.Valid() && user < |creds.shadowsocks| && w.Writable(env.names)
    requires |w.salt| == ShadowsocksSpec.KeyLen(creds.shadowsocks[user].suite)
    requires ShadowsocksHeader.ClientCipher(env.shadowsocks, creds.shadowsocks[user], w.salt).Lawful()
    requires w.Timely(env.now)
    requires front == ShadowsocksHeader.Print(env.shadowsocks, creds.shadowsocks[user], w, env.names)
    requires OtherKeysQuiet(front + rest, creds, user, env) && i < |front|
    ensures Says(Detect.Kind.Shadowsocks, front[..i], creds, env) == Err(Incomplete)
  {
    hide ShadowsocksHeader.Print, ShadowsocksHeader.Try, ShadowsocksHeader.OthersQuiet, ShadowsocksHeader.ClientCipher;
    var x, cred, now, names := env.shadowsocks, creds.shadowsocks[user], env.now, env.names;
    ShadowsocksHeader.TryReads(x, cred, w, now, names, []);
    assert front + [] == front;
    ShadowsocksHeader.PrefixWaits(x, front, cred, now, names, i);
    assert (front + rest)[..i] == front[..i];
    ShadowsocksHeader.FromQuiet(x, front[..i], creds.shadowsocks, user, now, names, 0, false);
  }

  lemma SsAfter(front: Bytes, rest: Bytes, user: nat, w: ShadowsocksHeader.Wire, i: nat, creds: Detect.Credentials,
                env: Detect.Env)
    requires env.Valid() && creds.Valid() && user < |creds.shadowsocks| && w.Writable(env.names)
    requires |w.salt| == ShadowsocksSpec.KeyLen(creds.shadowsocks[user].suite)
    requires ShadowsocksHeader.ClientCipher(env.shadowsocks, creds.shadowsocks[user], w.salt).Lawful()
    requires w.Timely(env.now)
    requires front == ShadowsocksHeader.Print(env.shadowsocks, creds.shadowsocks[user], w, env.names)
    requires OtherKeysQuiet(front + rest, creds, user, env) && i <= |rest|
    ensures Says(Detect.Kind.Shadowsocks, front + rest[..i], creds, env)
         == Ok(SsRequest(user, w, creds, env).(payload := rest[..i]))
  {
    hide ShadowsocksHeader.Print, ShadowsocksHeader.Try, ShadowsocksHeader.OthersQuiet, ShadowsocksHeader.ClientCipher;
    hide ShadowsocksHeader.SessionOf;
    var x, cred, now, names := env.shadowsocks, creds.shadowsocks[user], env.now, env.names;
    ShadowsocksHeader.TryReads(x, cred, w, now, names, rest[..i]);
    assert (front + rest)[..|front| + i] == front + rest[..i];
    ShadowsocksHeader.FromQuiet(x, front + rest[..i], creds.shadowsocks, user, now, names, 0, false);
    assert (front + rest[..i])[|front|..] == rest[..i];
  }
}
