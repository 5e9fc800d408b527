/** The downlink of a session: what the client is owed, then every chunk from the destination wrapped. */
module Downlink {
  import opened Wrappers
  import opened Aead
  import opened Codec
  import Detect
  import Relay
  import VmessSpec
  import VmessProofs
  import ShadowsocksSpec
  import ShadowsocksProofs

  /** What there is to push: the prologue unless it is empty, then each chunk wrapped. */
  function Pushes(w: Writer, chunks: seq<Bytes>): seq<Bytes>
    requires w.Valid()
  {
    Front(w) + WrapAll(w.Paid(), chunks)
  }

  function Front(w: Writer): seq<Bytes> {
    if w.Due() == [] then [] else [w.Due()]
  }

  function Min(a: nat, b: nat): nat {
    if a < b then a else b
  }

  /** Push until the receiver is gone, which happens after `accepted` pushes. */
  method Pump(e: Encoder, chunks: seq<Bytes>, accepted: nat) returns (pushed: seq<Bytes>)
    requires e.Valid()
    modifies e.Repr()
    ensures var all := Pushes(old(e.Value()), chunks);
      pushed == all[..Min(accepted, |all|)]
  {
    hide Wrap, Encoder.Value;
    ghost var w, all := e.Value(), Pushes(e.Value(), chunks);
    pushed := [];
    var prologue := e.Prologue();
    if prologue != [] {
      if accepted == 0 {
        return;
      }
      pushed := [prologue];
    }
    for i := 0 to |chunks|
      invariant e.Valid() && e.Value().Valid() && |pushed| == |Front(w)| + i <= accepted
      invariant pushed + WrapAll(e.Value(), chunks[i..]) == all
    {
      var wrapped := e.Encode(chunks[i]);
      assert chunks[i..][1..] == chunks[i + 1..];
      if |pushed| == accepted {
        return;
      }
      pushed := pushed + [wrapped];
    }
  }

  // ---- a client that knows the session ----

  /** The writer of a session that has sent nothing, under a lawful cipher and with salts of one length. */
  ghost predicate Fresh(w: Writer) {
    match w
    case PlainWriter(_) => true
    case VmessWriter(key, e, _) => key.Valid() && e == VmessSpec.EncState(0, 0)
    case SsWriter(c, o, e) =>
      c.Lawful() && |o.responseSalt| == |o.requestSalt| && e == ShadowsocksSpec.EncState(0, false)
  }

  /** What a client reads in all that has arrived: it checks the reply header, the end of the last chunk and, for
      Shadowsocks, the echo of its salt. */
  function ClientReads(w: Writer, wire: Bytes): Option<Bytes>
    requires w.VmessWriter? ==> |w.key.iv| == 16
    requires w.SsWriter? ==> w.cipher.LengthsMatch()
  {
    match w
    case PlainWriter(prologue) => if prologue <= wire then Some(wire[|prologue|..]) else None
    case VmessWriter(key, _, prologue) => if prologue <= wire then ReadVmess(key, wire[|prologue|..]) else None
    case SsWriter(c, o, _) => if wire == [] then Some([]) else ReadSs(c, o, wire)
  }

  function ReadVmess(key: VmessSpec.Key, wire: Bytes): Option<Bytes>
    requires |key.iv| == 16
  {
    var o := VmessSpec.Decode(key, VmessSpec.Start([]), wire);
    if o.error.None? && !o.state.finished && o.state.pending == [] then Some(Concat(o.chunks)) else None
  }

  function ReadSs(c: Cipher, o: ShadowsocksSpec.Opening, wire: Bytes): Option<Bytes>
    requires c.LengthsMatch()
  {
    match ShadowsocksSpec.ReadResponse(c, |o.responseSalt|, wire)
    case None => None
    case Some(r) =>
      if r.requestSalt == o.requestSalt && r.rest.error.None? && r.rest.state.pending == [] then
        Some(Concat([r.first] + r.rest.chunks))
      else None
  }

  lemma {:induction false} PlainWraps(prologue: Bytes, chunks: seq<Bytes>)
    ensures WrapAll(PlainWriter(prologue), chunks) == chunks
    decreases |chunks|
  {
    if chunks != [] {
      PlainWraps(prologue, chunks[1..]);
    }
  }

  lemma {:induction false} VmessWraps(key: VmessSpec.Key, e: VmessSpec.EncState, prologue: Bytes, chunks: seq<Bytes>)
    requires key.Valid()
    ensures Concat(WrapAll(VmessWriter(key, e, prologue), chunks)) == VmessProofs.EncodeCalls(key, e, chunks)
    decreases |chunks|
  {
    hide VmessSpec.EncodePieces, VmessSpec.EncAfter, Pieces;
    if chunks != [] {
      var n := |Pieces(chunks[0], VmessSpec.MAX_PLAINTEXT)|;
      VmessWraps(key, VmessSpec.EncAfter(key, e, n), prologue, chunks[1..]);
    }
  }

  lemma {:induction false} SsWraps(c: Cipher, o: ShadowsocksSpec.Opening, e: ShadowsocksSpec.EncState,
                                   chunks: seq<Bytes>)
    requires e.sentHeader || e.counter == 0
    ensures Concat(WrapAll(SsWriter(c, o, e), chunks)) == ShadowsocksSpec.EncodeCalls(c, o, e, chunks)
    decreases |chunks|
  {
    if chunks != [] {
      var w := Wrap(SsWriter(c, o, e), chunks[0]).0;
      hide ShadowsocksSpec.Encode;
      SsWraps(c, o, w.ss, chunks[1..]);
    }
  }

  lemma {:induction false} WrapsBefore(w: Writer, chunks: seq<Bytes>, n: nat)
    requires w.Valid() && n <= |chunks|
    ensures WrapAll(w, chunks)[..n] == WrapAll(w, chunks[..n])
    decreases |chunks|
  {
    hide Wrap;
    if n > 0 {
      WrapsBefore(Wrap(w, chunks[0]).0, chunks[1..], n - 1);
      assert chunks[..n][1..] == chunks[1..][..n - 1];
    }
  }

  /** When everything pushed has arrived, the client has read exactly the chunks. */
  lemma ReadsAll(w: Writer, chunks: seq<Bytes>)
    requires w.Valid() && Fresh(w)
    ensures ClientReads(w, Concat(Pushes(w, chunks))) == Some(Concat(chunks))
  {
    hide WrapAll, ReadVmess, ReadSs, Concat;
    var front, body := Front(w), WrapAll(w.Paid(), chunks);
    ConcatAppend(front, body);
    FrontBytes(w);
    match w {
      case PlainWriter(prologue) =>
        PlainWraps([], chunks);
      case VmessWriter(key, e, prologue) =>
        VmessWraps(key, e, [], chunks);
        VmessReads(key, chunks);
      case SsWriter(c, o, e) =>
        SsWraps(c, o, e, chunks);
        SsReads(c, o, chunks);
        assert [] + Concat(body) == Concat(body);
    }
  }

  lemma ConcatOne(a: Bytes)
    ensures Concat([a]) == a
  {
    var one := [a];
    assert one[1..] == [];
  }

  lemma FrontBytes(w: Writer)
    ensures Concat(Front(w)) == w.Due()
  {
    ConcatOne(w.Due());
  }

  lemma VmessReads(key: VmessSpec.Key, chunks: seq<Bytes>)
    requires key.Valid()
    ensures ReadVmess(key, VmessProofs.EncodeCalls(key, VmessSpec.EncState(0, 0), chunks)) == Some(Concat(chunks))
  {
    hide VmessProofs.EncodeCalls, VmessSpec.Decode;
    var wire := VmessProofs.EncodeCalls(key, VmessSpec.EncState(0, 0), chunks);
    ConcatOne(wire);
    VmessProofs.RoundTrip(key, chunks, [wire]);
    VmessProofs.DecodeAnySplit(key, VmessSpec.Start([]), [wire]);
  }

  lemma SsReads(c: Cipher, o: ShadowsocksSpec.Opening, chunks: seq<Bytes>)
    requires c.Lawful() && |o.responseSalt| == |o.requestSalt|
    ensures c.LengthsMatch()
    ensures var wire := ShadowsocksSpec.EncodeCalls(c, o, ShadowsocksSpec.EncState(0, false), chunks);
      if Concat(chunks) == [] then wire == [] else wire != [] && ReadSs(c, o, wire) == Some(Concat(chunks))
  {
    hide ShadowsocksSpec.EncodeCalls;
    ShadowsocksProofs.RoundTrip(c, o, chunks);
  }

  /** Whenever the pushing stops, the client has read exactly the chunks that were pushed. */
  lemma ReadsPushed(w: Writer, chunks: seq<Bytes>, n: nat)
    requires w.Valid() && Fresh(w) && |Front(w)| <= n <= |Pushes(w, chunks)|
    ensures ClientReads(w, Concat(Pushes(w, chunks)[..n])) == Some(Concat(chunks[..n - |Front(w)|]))
  {
    hide ClientReads, Concat, WrapAll;
    var k := n - |Front(w)|;
    WrapsBefore(w.Paid(), chunks, k);
    assert Pushes(w, chunks)[..n] == Pushes(w, chunks[..k]);
    ReadsAll(w, chunks[..k]);
  }

  /** The writer of a request's body is fresh; the Shadowsocks cipher has to be lawful. */
  lemma WriterFresh(body: Detect.Body, env: Relay.Env, entropy: Bytes)
    requires env.Valid() && Relay.Sized(body) && |entropy| == 32 && Relay.StartOf(body, env).Ok?
    ensures var w := Relay.WriterOf(body, env, entropy);
      Fresh(w) <==> (w.SsWriter? ==> w.cipher.Lawful())
  {
  }

  /** The downlink of a request's body. When the receiver goes after `accepted` pushes, the client has read exactly
      the chunks behind them: nothing else, nothing twice and nothing in another order. */
  method Answer(body: Detect.Body, env: Relay.Env, entropy: Bytes, chunks: seq<Bytes>, accepted: nat)
    returns (r: Result<seq<Bytes>, CodecError>)
    requires env.Valid() && Relay.Sized(body) && |entropy| == 32
    ensures r.Ok? <==> Relay.StartOf(body, env).Ok?
    ensures r.Err? ==> r.error == Relay.StartOf(body, env).error
    ensures r.Ok? ==>
      var w := Relay.WriterOf(body, env, entropy);
      && r.value == Pushes(w, chunks)[..Min(accepted, |Pushes(w, chunks)|)]
      && ((w.SsWriter? ==> w.cipher.Lawful()) && |Front(w)| <= accepted ==>
           ClientReads(w, Concat(r.value)) == Some(Concat(chunks[..Min(accepted - |Front(w)|, |chunks|)])))
  {
    hide Relay.StartOf, Relay.WriterOf, ClientReads, Concat, Fresh, Encoder.Value;
    var halves :- Relay.SplitBody(body, env, entropy);
    ghost var w := Relay.WriterOf(body, env, entropy);
    var pushed := Pump(halves.1, chunks, accepted);
    WriterFresh(body, env, entropy);
    if (w.SsWriter? ==> w.cipher.Lawful()) && |Front(w)| <= accepted {
      ReadsPushed(w, chunks, |pushed|);
    }
    return Ok(pushed);
  }
}
