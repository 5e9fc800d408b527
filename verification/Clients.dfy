/** What each kind of client makes of the downlink, from nothing but the bytes and the secrets it has chosen. */
module Clients {
  import opened Wrappers
  import opened Reader
  import opened Addr
  import opened Aead
  import opened Codec
  import opened Downlink
  import Detect
  import Relay
  import Vless
  import Trojan
  import VmessHeader
  import VmessSpec
  import VmessBody
  import ShadowsocksHeader
  import ShadowsocksSpec
  import ShadowsocksProofs

  /** A VLESS client drops the version, which is 0, and the addons, whose length comes first. */
  function VlessReads(wire: Bytes): Option<Bytes> {
    if |wire| < 2 || wire[0] != 0 then None
    else
      var addons: nat := wire[1];
      if |wire| < 2 + addons then None else Some(wire[2 + addons..])
  }

  /** A Trojan client has nothing to drop. */
  function TrojanReads(wire: Bytes): Bytes {
    wire
  }

  /** The key of the reply: digests of what the client has sent, cipher and framing as it has asked for. */
  function VmessReplyKey(c: VmessBody.Crypto, f: VmessHeader.Fields): Option<VmessSpec.Key> {
    if f.security !in {3, 4} || f.options !in {1, 5, 13} then None
    else
      var security := if f.security == 3 then VmessSpec.Aes128Gcm else VmessSpec.ChaCha20Poly1305;
      Some(VmessSpec.Key(c.cipher(security, c.digest(f.bodyKey)), c.digest(f.bodyIv), c.shake(c.digest(f.bodyIv)),
                         VmessSpec.Framing(f.options != 1, f.options == 13)))
  }

  /** A VMess client checks the response header, then opens chunks. */
  function VmessReads(c: VmessBody.Crypto, f: VmessHeader.Fields, wire: Bytes): Option<Bytes>
    requires forall b :: |c.digest(b)| == 16
  {
    var header := c.responseHeader(c.digest(f.bodyKey), c.digest(f.bodyIv), f.responseV);
    match VmessReplyKey(c, f)
    case None => None
    case Some(key) => if header <= wire then ReadVmess(key, wire[|header|..]) else None
  }

  /** A Shadowsocks client takes the salt off, derives the key of the reply from it, and checks the echo of its own. */
  function ShadowsocksReads(x: ShadowsocksHeader.Crypto, cred: ShadowsocksHeader.Credential, salt: Bytes, wire: Bytes)
      : Option<Bytes>
    requires x.Valid() && cred.Valid()
  {
    var n := if cred.suite.Aes128Gcm? then 16 else 32;
    if wire == [] then Some([])
    else if |wire| < n then None
    else
      var c := x.cipher(cred.suite, x.subkey(cred.psk[..n], wire[..n])[..n]);
      ReadSs(c, ShadowsocksSpec.Opening(wire[..n], salt, 0), wire)
  }

  // ---- what the request asks for is what the client reads ----

  lemma BodyOf(buf: Bytes, creds: Detect.Credentials, env: Detect.Env)
    requires env.Valid() && creds.Valid() && Detect.DetectSpec(buf, creds, env).Ok?
    ensures var r := Detect.DetectSpec(buf, creds, env).value;
      && (r.kind.Vless? ==> r.body == Detect.Plain([0, 0])) && (r.kind.Trojan? ==> r.body == Detect.Plain([]))
      && (r.kind.Vmess? ==> r.body.VmessBody? && Detect.VmessSays(buf, creds, env) == Ok(r))
      && (r.kind.Shadowsocks? ==> r.body.SsBody? && Detect.ShadowsocksSays(buf, creds, env) == Ok(r))
  {
    hide Vless.ParseSpec, Trojan.ParseSpec, VmessHeader.ParseSpec, ShadowsocksHeader.ParseSpec;
  }

  lemma PlainFirst(prologue: Bytes, chunks: seq<Bytes>, n: nat)
    requires n <= |Pushes(PlainWriter(prologue), chunks)|
    ensures Pushes(PlainWriter(prologue), chunks) == (if prologue == [] then [] else [prologue]) + chunks
    ensures prologue == [] ==> Concat(Pushes(PlainWriter(prologue), chunks)[..n]) == Concat(chunks[..n])
    ensures prologue != [] && n > 0 ==>
              Concat(Pushes(PlainWriter(prologue), chunks)[..n]) == prologue + Concat(chunks[..n - 1])
  {
    PlainWraps([], chunks);
    assert [] + chunks == chunks;
    if prologue != [] && n > 0 {
      assert ([prologue] + chunks)[..n] == [prologue] + chunks[..n - 1];
      ConcatAppend([prologue], chunks[..n - 1]);
      ConcatOne(prologue);
    }
  }

  /** From the first bytes of a Trojan request on: the client reads exactly the chunks pushed. */
  lemma TrojanGets(buf: Bytes, creds: Detect.Credentials, env: Relay.Env, entropy: Bytes, chunks: seq<Bytes>, n: nat)
    requires env.Valid() && creds.Valid() && |entropy| == 32
    requires Detect.DetectSpec(buf, creds, env.detect).Ok?
    requires Detect.DetectSpec(buf, creds, env.detect).value.kind.Trojan?
    ensures var body := Detect.DetectSpec(buf, creds, env.detect).value.body;
      && Relay.Sized(body) && Relay.StartOf(body, env).Ok?
      && var pushes := Pushes(Relay.WriterOf(body, env, entropy), chunks);
         n <= |pushes| ==> n <= |chunks| && TrojanReads(Concat(pushes[..n])) == Concat(chunks[..n])
  {
    hide Detect.DetectSpec, Concat, Pushes;
    BodyOf(buf, creds, env.detect);
    var w := Relay.WriterOf(Detect.Plain([]), env, entropy);
    if n <= |Pushes(w, chunks)| {
      PlainFirst([], chunks, n);
    }
  }

  /** From the first bytes of a VLESS request on: behind the two bytes of the response header the client reads exactly
      the chunks pushed. */
  lemma VlessGets(buf: Bytes, creds: Detect.Credentials, env: Relay.Env, entropy: Bytes, chunks: seq<Bytes>, n: nat)
    requires env.Valid() && creds.Valid() && |entropy| == 32
    requires Detect.DetectSpec(buf, creds, env.detect).Ok?
    requires Detect.DetectSpec(buf, creds, env.detect).value.kind.Vless?
    ensures var body := Detect.DetectSpec(buf, creds, env.detect).value.body;
      && Relay.Sized(body) && Relay.StartOf(body, env).Ok?
      && var pushes := Pushes(Relay.WriterOf(body, env, entropy), chunks);
         0 < n <= |pushes| ==> n - 1 <= |chunks| && VlessReads(Concat(pushes[..n])) == Some(Concat(chunks[..n - 1]))
  {
    hide Detect.DetectSpec, Concat, Pushes;
    BodyOf(buf, creds, env.detect);
    var w := Relay.WriterOf(Detect.Plain([0, 0]), env, entropy);
    if 0 < n <= |Pushes(w, chunks)| {
      PlainFirst([0, 0], chunks, n);
      var payload := Concat(chunks[..n - 1]);
      assert ([0, 0] + payload)[2..] == payload;
    }
  }

  lemma OptionsRead(f: VmessHeader.Fields)
    ensures VmessSpec.SecurityFromByte(f.security).Ok? <==> f.security in {3, 4}
    ensures var framing := VmessSpec.FramingFromOptions(Relay.OptionBits(f.options));
      && (framing.Ok? <==> f.options in {1, 5, 13})
      && (framing.Ok? ==> framing.value == VmessSpec.Framing(f.options != 1, f.options == 13))
  {
    OptionByte(f.options);
    hide VmessSpec.FramingFromOptions;
    VmessSpec.AcceptedOptions(Relay.OptionBits(f.options));
  }

  lemma OptionByte(b: byte)
    ensures Relay.OptionBits(b) == 1 <==> b == 1
    ensures Relay.OptionBits(b) == 5 <==> b == 5
    ensures Relay.OptionBits(b) == 13 <==> b == 13
  {
  }

  /** The server's writer of a VMess reply has the client's key and header. */
  lemma VmessWriterIs(f: VmessHeader.Fields, env: Relay.Env, entropy: Bytes)
    requires env.Valid() && |f.bodyIv| == 16 && |entropy| == 32
    ensures Relay.StartOf(Detect.VmessBody(f), env).Ok? <==> VmessReplyKey(env.vmess, f).Some?
    ensures VmessReplyKey(env.vmess, f).Some? ==>
      var c := env.vmess;
      Relay.WriterOf(Detect.VmessBody(f), env, entropy)
      == VmessWriter(VmessReplyKey(c, f).value, VmessSpec.EncState(0, 0),
                     c.responseHeader(c.digest(f.bodyKey), c.digest(f.bodyIv), f.responseV))
  {
    hide VmessSpec.FramingFromOptions, Relay.OptionBits, Cipher.Lawful;
    OptionsRead(f);
  }

  /** From the first bytes of a VMess request on: with the keys that the client has asked for it reads exactly the
      chunks pushed. A request for anything else is not framed. */
  lemma VmessGets(buf: Bytes, creds: Detect.Credentials, env: Relay.Env, entropy: Bytes, chunks: seq<Bytes>, n: nat)
    requires env.Valid() && creds.Valid() && |entropy| == 32
    requires Detect.DetectSpec(buf, creds, env.detect).Ok?
    requires Detect.DetectSpec(buf, creds, env.detect).value.kind.Vmess?
    ensures var body := Detect.DetectSpec(buf, creds, env.detect).value.body;
      && body.VmessBody? && Relay.Sized(body)
      && (Relay.StartOf(body, env).Ok? <==> VmessReplyKey(env.vmess, body.fields).Some?)
      && (Relay.StartOf(body, env).Ok? ==>
           var w := Relay.WriterOf(body, env, entropy);
           |Front(w)| <= n <= |Pushes(w, chunks)| ==>
             && n - |Front(w)| <= |chunks|
             && VmessReads(env.vmess, body.fields, Concat(Pushes(w, chunks)[..n]))
                == Some(Concat(chunks[..n - |Front(w)|])))
  {
    hide Detect.DetectSpec, Concat, Pushes, VmessReplyKey, ReadVmess, Relay.WriterOf, Relay.StartOf, Front;
    BodyOf(buf, creds, env.detect);
    Relay.DetectedSized(buf, creds, env.detect);
    var f := Detect.DetectSpec(buf, creds, env.detect).value.body.fields;
    VmessWriterIs(f, env, entropy);
    if VmessReplyKey(env.vmess, f).Some? {
      var w := Relay.WriterOf(Detect.VmessBody(f), env, entropy);
      PushNumber(w, chunks);
      if |Front(w)| <= n <= |Pushes(w, chunks)| {
        ReadsPushed(w, chunks, n);
      }
    }
  }

  lemma PushNumber(w: Writer, chunks: seq<Bytes>)
    requires w.Valid()
    ensures |Pushes(w, chunks)| == |Front(w)| + |chunks|
  {
    hide Front;
  }

  /** The fields that a VMess client has written are those its reply is keyed by. */
  lemma VmessWritten(s: VmessHeader.Sent, user: nat, w: VmessHeader.Wire, payload: Bytes, creds: Detect.Credentials,
                     env: Relay.Env)
    requires env.Valid() && creds.Valid() && w.Writable(env.detect.names)
    requires |env.detect.vmess.fnv1a(VmessHeader.Print(w))| == 4
    requires VmessHeader.Opens(env.detect.vmess, creds.vmess, env.detect.now, s, user,
                               VmessHeader.Checked(env.detect.vmess, VmessHeader.Print(w)))
    requires var r := Detect.DetectSpec(s.Bytes() + payload, creds, env.detect);
      r.Ok? && r.value.kind.Vmess?
    ensures var f := Detect.DetectSpec(s.Bytes() + payload, creds, env.detect).value.body;
      && f.VmessBody? && f.fields.bodyKey == w.bodyKey && f.fields.bodyIv == w.bodyIv
      && f.fields.security == w.security && f.fields.options == w.options && f.fields.responseV == w.responseV
  {
    BodyOf(s.Bytes() + payload, creds, env.detect);
    hide Detect.DetectSpec, VmessHeader.ParseSpec, VmessHeader.Opens, VmessHeader.Print;
    VmessHeader.RoundTrip(env.detect.vmess, creds.vmess, env.detect.now, env.detect.names, s, user, w, payload);
  }

  /** The reply starts with its salt. */
  lemma ReplyStarts(c: Cipher, o: ShadowsocksSpec.Opening, chunks: seq<Bytes>)
    requires c.Lawful() && |o.responseSalt| == |o.requestSalt|
    ensures var wire := ShadowsocksSpec.EncodeCalls(c, o, ShadowsocksSpec.EncState(0, false), chunks);
      wire != [] ==> |wire| >= |o.responseSalt| && wire[..|o.responseSalt|] == o.responseSalt
  {
    hide ShadowsocksSpec.EncodeCalls;
    ShadowsocksProofs.RoundTrip(c, o, chunks);
  }

  lemma ReadsAlike(c: Cipher, o: ShadowsocksSpec.Opening, o': ShadowsocksSpec.Opening, wire: Bytes)
    requires c.LengthsMatch() && |o.responseSalt| == |o'.responseSalt| && o.requestSalt == o'.requestSalt
    ensures ReadSs(c, o, wire) == ReadSs(c, o', wire)
  {
  }

  /** What the writer of a Shadowsocks session pushes is what a client with its key and salt reads. */
  lemma ReplyReads(x: ShadowsocksHeader.Crypto, cred: ShadowsocksHeader.Credential, salt: Bytes, newSalt: Bytes,
                   now: nat, chunks: seq<Bytes>)
    requires x.Valid() && cred.Valid()
    requires |salt| == |newSalt| == ShadowsocksSpec.KeyLen(cred.suite)
    requires var n := ShadowsocksSpec.KeyLen(cred.suite);
      x.cipher(cred.suite, x.subkey(cred.psk[..n], newSalt)[..n]).Lawful()
    ensures var n := ShadowsocksSpec.KeyLen(cred.suite);
      var w := SsWriter(x.cipher(cred.suite, x.subkey(cred.psk[..n], newSalt)[..n]),
                        ShadowsocksSpec.Opening(newSalt, salt, now), ShadowsocksSpec.EncState(0, false));
      w.Valid() && ShadowsocksReads(x, cred, salt, Concat(Pushes(w, chunks))) == Some(Concat(chunks))
  {
    var n := ShadowsocksSpec.KeyLen(cred.suite);
    var c := x.cipher(cred.suite, x.subkey(cred.psk[..n], newSalt)[..n]);
    var o := ShadowsocksSpec.Opening(newSalt, salt, now);
    var w := SsWriter(c, o, ShadowsocksSpec.EncState(0, false));
    hide WrapAll, ReadSs, Concat, ShadowsocksSpec.EncodeCalls, Cipher.Lawful, ShadowsocksSpec.ReadResponse;
    SsWraps(c, o, ShadowsocksSpec.EncState(0, false), chunks);
    SsReads(c, o, chunks);
    ReplyStarts(c, o, chunks);
    var wire := ShadowsocksSpec.EncodeCalls(c, o, ShadowsocksSpec.EncState(0, false), chunks);
    assert Pushes(w, chunks) == WrapAll(w, chunks);
    if wire != [] {
      ReadsAlike(c, o, ShadowsocksSpec.Opening(wire[..n], salt, 0), wire);
    }
  }

  lemma SessionWriter(cred: ShadowsocksHeader.Credential, salt: Bytes, initial: Bytes, env: Relay.Env, entropy: Bytes)
    requires env.Valid() && cred.Valid() && |entropy| == 32 && |salt| == ShadowsocksSpec.KeyLen(cred.suite)
    ensures var n, x := ShadowsocksSpec.KeyLen(cred.suite), env.detect.shadowsocks;
      var body := Detect.SsBody(ShadowsocksHeader.SessionOf(x, cred, salt, initial, env.detect.now));
      && Relay.Sized(body) && Relay.StartOf(body, env).Ok?
      && Relay.WriterOf(body, env, entropy)
         == SsWriter(x.cipher(cred.suite, x.subkey(cred.psk[..n], entropy[..n])[..n]),
                     ShadowsocksSpec.Opening(entropy[..n], salt, env.detect.now), ShadowsocksSpec.EncState(0, false))
  {
    hide Cipher.LengthsMatch;
    var n := ShadowsocksSpec.KeyLen(cred.suite);
    assert (salt + Zeros(32 - |salt|))[..n] == salt;
  }

  /** From a written Shadowsocks request on: with its key and salt the client reads exactly the chunks pushed. */
  lemma ShadowsocksGets(user: nat, w: ShadowsocksHeader.Wire, payload: Bytes, creds: Detect.Credentials, env: Relay.Env,
                        entropy: Bytes, chunks: seq<Bytes>, n: nat)
    requires env.Valid() && creds.Valid() && |entropy| == 32
    requires user < |creds.shadowsocks| && w.Writable(env.detect.names)
    requires |w.salt| == ShadowsocksSpec.KeyLen(creds.shadowsocks[user].suite)
    requires forall u, k :: env.detect.shadowsocks.cipher(u, k).Lawful()
    requires w.Timely(env.detect.now)
    requires var x, cred := env.detect.shadowsocks, creds.shadowsocks[user];
      var buf := ShadowsocksHeader.Print(x, cred, w, env.detect.names) + payload;
      && Detect.DetectSpec(buf, creds, env.detect).Ok?
      && Detect.DetectSpec(buf, creds, env.detect).value.kind.Shadowsocks?
      && forall j :: 0 <= j < user ==>
           ShadowsocksHeader.Try(x, buf, creds.shadowsocks[j], env.detect.now, env.detect.names).Skip?
    ensures var x, cred := env.detect.shadowsocks, creds.shadowsocks[user];
      var buf := ShadowsocksHeader.Print(x, cred, w, env.detect.names) + payload;
      var body := Detect.DetectSpec(buf, creds, env.detect).value.body;
      && Relay.Sized(body) && Relay.StartOf(body, env).Ok?
      && var pushes := Pushes(Relay.WriterOf(body, env, entropy), chunks);
         n <= |pushes| ==>
           n <= |chunks| && ShadowsocksReads(x, cred, w.salt, Concat(pushes[..n])) == Some(Concat(chunks[..n]))
  {
    var x, cred, names := env.detect.shadowsocks, creds.shadowsocks[user], env.detect.names;
    var buf := ShadowsocksHeader.Print(x, cred, w, names) + payload;
    BodyOf(buf, creds, env.detect);
    hide Detect.DetectSpec, ShadowsocksHeader.ParseSpec, ShadowsocksHeader.Print, ShadowsocksHeader.Try, Concat, Pushes;
    hide ShadowsocksReads, ShadowsocksHeader.SessionOf, Relay.WriterOf, Relay.StartOf, WrapAll;
    ShadowsocksHeader.RoundTrip(x, creds.shadowsocks, user, w, env.detect.now, names, payload);
    SessionWriter(cred, w.salt, w.initial, env, entropy);
    var body := Detect.DetectSpec(buf, creds, env.detect).value.body;
    var writer := Relay.WriterOf(body, env, entropy);
    PushNumber(writer, chunks);
    if n <= |Pushes(writer, chunks)| {
      var len := ShadowsocksSpec.KeyLen(cred.suite);
      PushesBefore(writer, chunks, n);
      ReplyReads(x, cred, w.salt, entropy[..len], env.detect.now, chunks[..n]);
    }
  }

  lemma PushesBefore(w: Writer, chunks: seq<Bytes>, n: nat)
    requires w.Valid() && w.SsWriter? && n <= |chunks|
    ensures Pushes(w, chunks)[..n] == Pushes(w, chunks[..n])
  {
    hide WrapAll;
    WrapsBefore(w, chunks, n);
  }

  /** Identify a request and answer it, until the receiver goes after `accepted` pushes. */
  method Reply(buf: Bytes, creds: Detect.Credentials, env: Relay.Env, entropy: Bytes, chunks: seq<Bytes>,
               accepted: nat)
    returns (pushed: Option<seq<Bytes>>)
    requires env.Valid() && creds.Valid() && |entropy| == 32
    ensures var r := Detect.DetectSpec(buf, creds, env.detect);
      && (pushed.Some? ==> r.Ok?)
      && (r.Ok? && r.value.kind.Trojan? ==>
           pushed.Some? && TrojanReads(Concat(pushed.value)) == Concat(chunks[..Min(accepted, |chunks|)]))
      && (r.Ok? && r.value.kind.Vless? ==>
           pushed.Some? && (accepted > 0 ==>
             VlessReads(Concat(pushed.value)) == Some(Concat(chunks[..Min(accepted - 1, |chunks|)]))))
  {
    hide Detect.DetectSpec, Concat, Pushes, TrojanReads, VlessReads, Relay.StartOf, Relay.WriterOf, ClientReads;
    var r := Detect.Identify(buf, creds, env.detect);
    if r.Err? {
      return None;
    }
    Relay.DetectedSized(buf, creds, env.detect);
    BodyOf(buf, creds, env.detect);
    var answer := Answer(r.value.body, env, entropy, chunks, accepted);
    if r.value.kind.Trojan? {
      TrojanGets(buf, creds, env, entropy, chunks, Min(accepted, |chunks|));
      PlainNumber([], env, entropy, chunks);
    } else if r.value.kind.Vless? {
      VlessGets(buf, creds, env, entropy, chunks, Min(accepted, |chunks| + 1));
      PlainNumber([0, 0], env, entropy, chunks);
    }
    return if answer.Ok? then Some(answer.value) else None;
  }

  lemma PlainNumber(prologue: Bytes, env: Relay.Env, entropy: Bytes, chunks: seq<Bytes>)
    requires env.Valid() && |entropy| == 32
    ensures Relay.StartOf(Detect.Plain(prologue), env).Ok?
    ensures |Pushes(Relay.WriterOf(Detect.Plain(prologue), env, entropy), chunks)|
         == |chunks| + if prologue == [] then 0 else 1
  {
    PushNumber(PlainWriter(prologue), chunks);
  }
}
