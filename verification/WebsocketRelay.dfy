/** The WebSocket relay, which forwards only the frames after the one that completes the header. */
module WebsocketRelay {
  import opened Wrappers
  import opened Reader
  import opened Addr
  import Detect
  import Vless
  import opened Relay

  /** Waiting for the header, closed, or relaying after the given frames have been sent to the client. */
  datatype Link = Pending(header: Bytes) | Closed | Linked(reply: seq<Bytes>)

  datatype Tunnel = Tunnel(link: Link, forwarded: seq<Bytes>)

  const FRESH_TUNNEL := Tunnel(Pending([]), [])

  /** Only VLESS without a flow and Trojan are carried, and only TCP to a target. */
  predicate Carried(r: Detect.Request) {
    r.isTcp && r.target.Some? && ((r.kind.Vless? && !r.flowRequested) || r.kind.Trojan?)
  }

  /** VLESS is answered with its two zero bytes, Trojan with nothing. */
  function Reply(r: Detect.Request): seq<Bytes> {
    if r.kind.Vless? then [[0, 0]] else []
  }

  /** The first bytes of a connection. What follows the header in them is dropped. */
  function Begin(buf: Bytes, creds: Detect.Credentials, env: Detect.Env): Link
    requires env.Valid() && creds.Valid()
  {
    if |buf| > MAX_HEADER_BYTES then Closed
    else
      match Detect.DetectSpec(buf, creds, env)
      case Err(e) => if e == Incomplete then Pending(buf) else Closed
      case Ok(r) => if Carried(r) then Linked(Reply(r)) else Closed
  }

  /** One frame. */
  function Receive(t: Tunnel, frame: Bytes, creds: Detect.Credentials, env: Detect.Env): Tunnel
    requires env.Valid() && creds.Valid()
  {
    match t.link
    case Pending(header) => Tunnel(Begin(header + frame, creds, env), t.forwarded)
    case Linked(_) => t.(forwarded := t.forwarded + [frame])
    case Closed => t
  }

  function ReceiveAll(t: Tunnel, frames: seq<Bytes>, creds: Detect.Credentials, env: Detect.Env): Tunnel
    requires env.Valid() && creds.Valid()
    decreases |frames|
  {
    if frames == [] then t else ReceiveAll(Receive(t, frames[0], creds, env), frames[1..], creds, env)
  }

  /** Drive one connection: accumulate until the header parses, then write every later frame to the destination. */
  method Serve(frames: seq<Bytes>, creds: Detect.Credentials, env: Detect.Env)
    returns (reply: Option<seq<Bytes>>, forwarded: seq<Bytes>)
    requires env.Valid() && creds.Valid()
    ensures var t := ReceiveAll(FRESH_TUNNEL, frames, creds, env);
      && (reply.Some? <==> t.link.Linked?) && (reply.Some? ==> reply.value == t.link.reply)
      && forwarded == t.forwarded
  {
    hide Detect.DetectSpec;
    forwarded := [];
    var pending: Bytes := [];
    var i, open, sent := 0, false, [];
    while !open
      invariant i <= |frames| && (!open ==> sent == [])
      invariant ReceiveAll(FRESH_TUNNEL, frames, creds, env)
             == ReceiveAll(Tunnel(if open then Linked(sent) else Pending(pending), []), frames[i..], creds, env)
      decreases !open, |frames| - i
    {
      if i == |frames| {
        return None, [];
      }
      assert frames[i..][1..] == frames[i + 1..];
      pending := pending + frames[i];
      i := i + 1;
      ClosedStays(Tunnel(Closed, []), frames[i..], creds, env);
      if |pending| > MAX_HEADER_BYTES {
        return None, [];
      }
      var r := Detect.Identify(pending, creds, env);
      match r {
        case Err(e) =>
          if e != Incomplete {
            return None, [];
          }
        case Ok(req) =>
          if !req.isTcp || req.target.None? {
            return None, [];
          }
          match req.kind {
            case Vless =>
              if req.flowRequested {
                return None, [];
              }
              sent := [[0, 0]];
            case Trojan =>
            case _ =>
              return None, [];
          }
          pending := [];
          open := true;
      }
    }
    for j := i to |frames|
      invariant ReceiveAll(FRESH_TUNNEL, frames, creds, env)
             == ReceiveAll(Tunnel(Linked(sent), forwarded), frames[j..], creds, env)
    {
      assert frames[j..][1..] == frames[j + 1..];
      forwarded := forwarded + [frames[j]];
    }
    return Some(sent), forwarded;
  }

  lemma {:induction false} ClosedStays(t: Tunnel, frames: seq<Bytes>, creds: Detect.Credentials, env: Detect.Env)
    requires env.Valid() && creds.Valid() && t.link.Closed?
    ensures ReceiveAll(t, frames, creds, env) == t
    decreases |frames|
  {
    if frames != [] {
      ClosedStays(t, frames[1..], creds, env);
    }
  }

  lemma {:induction false} LinkedForwards(reply: seq<Bytes>, forwarded: seq<Bytes>, frames: seq<Bytes>,
                                          creds: Detect.Credentials, env: Detect.Env)
    requires env.Valid() && creds.Valid()
    ensures ReceiveAll(Tunnel(Linked(reply), forwarded), frames, creds, env)
         == Tunnel(Linked(reply), forwarded + frames)
    decreases |frames|
  {
    if frames == [] {
      assert forwarded + [] == forwarded;
    } else {
      LinkedForwards(reply, forwarded + [frames[0]], frames[1..], creds, env);
      assert forwarded + [frames[0]] + frames[1..] == forwarded + frames;
    }
  }

  /** Until the header is there, and after it. */
  lemma {:induction false} Receives(h: Bytes, frames: seq<Bytes>, front: Bytes, rest: Bytes, r: Detect.Request,
                                    creds: Detect.Credentials, env: Detect.Env)
    requires env.Valid() && creds.Valid() && Fronts(front, rest, r, creds, env) && Carried(r)
    requires h + Concat(frames) == front + rest && |h| < |front|
    ensures var t, n := ReceiveAll(Tunnel(Pending(h), []), frames, creds, env), Reach(frames, |h|, |front|);
      if n <= MAX_HEADER_BYTES then
        |front| <= n <= |front + rest| && t.link == Linked(Reply(r)) && Concat(t.forwarded) == rest[n - |front|..]
      else t == Tunnel(Closed, [])
    decreases |frames|
  {
    hide Detect.DetectSpec, Fronts;
    assert frames != [];
    var buf, later := h + frames[0], frames[1..];
    assert buf + Concat(later) == front + rest;
    ReachGrows(later, |buf|, |front|);
    ClosedStays(Tunnel(Closed, []), later, creds, env);
    if |buf| <= MAX_HEADER_BYTES {
      if |buf| < |front| {
        CutInside(buf, later, front, rest, r, creds, env);
        Receives(buf, later, front, rest, r, creds, env);
      } else {
        var k := |buf| - |front|;
        assert buf == (front + rest)[..|buf|] == front + rest[..k];
        assert Concat(later) == (front + rest)[|buf|..] == rest[k..];
        CutBehind(front, rest, r, k, creds, env);
        LinkedForwards(Reply(r), [], later, creds, env);
        assert [] + later == later;
      }
    }
  }

  lemma CutBehind(front: Bytes, rest: Bytes, r: Detect.Request, k: nat, creds: Detect.Credentials, env: Detect.Env)
    requires env.Valid() && creds.Valid() && Fronts(front, rest, r, creds, env) && Carried(r) && k <= |rest|
    ensures |front| + k <= MAX_HEADER_BYTES ==> Begin(front + rest[..k], creds, env) == Linked(Reply(r))
  {
    hide Detect.DetectSpec;
  }

  /** Whatever the frames, the destination gets the payload without what came in the frame that completed the header;
      it gets all of it exactly when a frame ends with the header. */
  lemma LosesLeading(frames: seq<Bytes>, front: Bytes, rest: Bytes, r: Detect.Request, creds: Detect.Credentials,
                     env: Detect.Env)
    requires env.Valid() && creds.Valid() && front != [] && Fronts(front, rest, r, creds, env) && Carried(r)
    requires Concat(frames) == front + rest
    ensures var t, n := ReceiveAll(FRESH_TUNNEL, frames, creds, env), Reach(frames, 0, |front|);
      if n <= 8192 then
        && |front| <= n <= |front + rest| && t.link == Linked(Reply(r)) && Concat(t.forwarded) == rest[n - |front|..]
        && (Concat(t.forwarded) == rest <==> n == |front|)
      else t == Tunnel(Closed, [])
  {
    hide Fronts, Carried, ReceiveAll, Reach;
    assert [] + Concat(frames) == front + rest;
    Receives([], frames, front, rest, r, creds, env);
  }

  /** A VLESS client whose first payload rides in the frame with the header loses it. */
  lemma VlessPayloadLost(w: Vless.Wire, payload: Bytes, creds: Detect.Credentials, env: Detect.Env)
    requires env.Valid() && creds.Valid() && w.Writable(env.names) && w.id in creds.vless && w.command.Tcp?
             && w.addons == []
    requires OnlyBy(Detect.Kind.Vless, Vless.Print(w) + payload, creds, env)
    requires |Vless.Print(w) + payload| <= MAX_HEADER_BYTES
    ensures ReceiveAll(FRESH_TUNNEL, [Vless.Print(w) + payload], creds, env)
         == Tunnel(Linked([[0, 0]]), [])
  {
    hide Vless.Print, Vless.ParseSpec, OnlyBy, Fronts, Detect.DetectSpec;
    var wire := Vless.Print(w) + payload;
    VlessFronts(w, payload, creds, env);
    CutBehind(Vless.Print(w), payload, Detect.VlessSays(Vless.Print(w), creds, env).value, |payload|, creds, env);
    assert payload[..|payload|] == payload && [] + wire == wire;
    assert ReceiveAll(Tunnel(Linked([[0, 0]]), []), [wire][1..], creds, env) == Tunnel(Linked([[0, 0]]), []);
  }
}
