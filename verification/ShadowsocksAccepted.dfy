/** What the Shadowsocks parser accepts is what a client sends: a salt, and under the key derived from it a timely fixed
    part and a variable part that have been written. */
module ShadowsocksAccepted {
  import opened Wrappers
  import opened Reader
  import opened Addr
  import opened ShadowsocksSpec
  import opened ShadowsocksProofs
  import opened ShadowsocksHeader

  /** The two sealed parts of a request. */
  datatype Sealed = Sealed(fixed: Bytes, variable: Bytes)

  /** What a client with this key sends: under numbers 0 and 1 the parts open to what was written, and the first says
      how long the second is. */
  ghost predicate Sends(x: Crypto, cred: Credential, now: nat, names: Names, w: Wire, s: Sealed)
    requires x.Valid() && cred.Valid()
  {
    && w.Writable(names) && w.Timely(now) && |w.salt| == (if cred.suite.Aes128Gcm? then 16 else 32)
    && 16 <= |s.variable| < 65552
    && var c := ClientCipher(x, cred, w.salt);
       && c.open(NumberedNonce(0), s.fixed) == Some(PrintFixed(w, |s.variable| - 16))
       && c.open(NumberedNonce(1), s.variable) == Some(PrintVariable(w))
  }

  // ---- from what is sent to what is read ----

  lemma SentReads(x: Crypto, cred: Credential, now: nat, names: Names, w: Wire, s: Sealed, payload: Bytes)
    requires x.Valid() && cred.Valid() && Sends(x, cred, now, names, w, s)
    ensures var front := w.salt + s.fixed + s.variable;
      Try(x, front + payload, cred, now, names)
      == Done(Target(w.address.Meaning(names), w.port), SessionOf(x, cred, w.salt, w.initial, now), |front|)
  {
    SameCipher(x, cred, w.salt);
    NonceIsNumbered(0);
    NonceIsNumbered(1);
    hide NonceFor, NumberedNonce, RequestCipher, ClientCipher, PrintVariable, PrintFixed, FixedAt, VariableAt;
    hide SessionOf, HasControl;
    var c := RequestCipher(x, cred, w.salt);
    assert |s.fixed| == 27 by { FixedLen(w, |s.variable| - 16); }
    var buf := w.salt + s.fixed + s.variable + payload;
    Cuts(w.salt, s.fixed, s.variable, payload);
    FixedReads(w, |s.variable| - 16, now);
    VariableReads(w, names);
    assert buf[..|w.salt|] == w.salt && buf[|w.salt|..FixedEnd(cred)] == s.fixed;
    assert buf[FixedEnd(cred)..FixedEnd(cred) + |s.variable|] == s.variable;
  }

  // ---- and back ----

  lemma {:induction false} NumberForth(b: Bytes)
    ensures BeNat(b) < Pow256(|b|) && BeBytes(BeNat(b), |b|) == b
  {
    if b != [] {
      var front := b[..|b| - 1];
      NumberForth(front);
      assert BeNat(b) / 256 == BeNat(front) && BeNat(b) % 256 == b[|b| - 1];
      assert b == front + [b[|b| - 1]];
    }
  }

  lemma FixedParts(fixed: Bytes, now: nat)
    requires |fixed| == 11 && FixedAt(fixed, now).Ok?
    ensures fixed[0] == 0 && BeNat(fixed[1..9]) <= now + 30 && now <= BeNat(fixed[1..9]) + 30
    ensures U16At(fixed, 9).Ok? && FixedAt(fixed, now).value == U16At(fixed, 9).value.0
  {
    hide BeNat, U16At;
  }

  /** A fixed part that is read has been written at a time within the window. */
  lemma FixedIsPrinted(fixed: Bytes, now: nat) returns (ts: nat)
    requires |fixed| == 11 && FixedAt(fixed, now).Ok?
    ensures ts < Pow256(8) && ts <= now + 30 && now <= ts + 30
    ensures FixedAt(fixed, now).value < 0x1_0000
    ensures fixed == [0] + BeBytes(ts, 8) + PrintPort(FixedAt(fixed, now).value)
  {
    hide BeNat, BeBytes, Pow256, FixedAt, U16At, PrintPort;
    FixedParts(fixed, now);
    NumberForth(fixed[1..9]);
    ts := BeNat(fixed[1..9]);
    PortIsPrinted(fixed, 9);
    assert fixed == [fixed[0]] + fixed[1..9] + fixed[9..11];
  }

  /** A variable part that is read has been written. */
  lemma VariableIsPrinted(v: Bytes, names: Names) returns (address: Address, port: nat, padding: Bytes)
    requires VariableAt(v, names).Ok?
    ensures address.Writable(names) && port < 0x1_0000 && |padding| < 0x1_0000
    ensures VariableAt(v, names).value.0 == Target(address.Meaning(names), port)
    ensures v == PrintAddress(address, Socks5Kind) + PrintPort(port) + PrintPort(|padding|) + padding
                 + VariableAt(v, names).value.1
  {
    hide HostAt, PrintPort, PrintAddress;
    address := HostIsPrinted(v, 0, Socks5Kind, names);
    var p := HostAt(v, 0, Socks5Kind, names).value.1;
    PortIsPrinted(v, p);
    PortIsPrinted(v, p + 2);
    port := U16At(v, p).value.0;
    var n := U16At(v, p + 2).value.0;
    padding := v[p + 4..p + 4 + n];
    assert v[..p] == PrintAddress(address, Socks5Kind);
    HostBack(v, p, address, names);
    assert v == v[..p] + v[p..p + 2] + v[p + 2..p + 4] + padding + v[p + 4 + n..];
  }

  /** The host that was read is the one that the address means. */
  lemma HostBack(v: Bytes, p: nat, address: Address, names: Names)
    requires p <= |v| && address.Writable(names) && v[..p] == PrintAddress(address, Socks5Kind)
    ensures HostAt(v, 0, Socks5Kind, names).Ok? && HostAt(v, 0, Socks5Kind, names).value.0 == address.Meaning(names)
  {
    hide HostAt, PrintAddress;
    AddressRoundTrip([], address, v[p..], Socks5Kind, names);
    assert v == [] + PrintAddress(address, Socks5Kind) + v[p..];
  }

  /** Where the two sealed parts are in a buffer that a credential makes a request of, and what they open to. */
  lemma PartsOpen(x: Crypto, buf: Bytes, cred: Credential, now: nat, names: Names)
    returns (s: Sealed, fixed: Bytes, variable: Bytes)
    requires x.Valid() && cred.Valid() && Try(x, buf, cred, now, names).Done?
    ensures var n := KeyLen(cred.suite);
      && |s.fixed| == 27 && 16 <= |s.variable| && |buf| >= n + 27 + |s.variable|
      && s.fixed == buf[n..n + 27] && s.variable == buf[n + 27..n + 27 + |s.variable|]
      && var c := RequestCipher(x, cred, buf[..n]);
         c.open(NonceFor(0), s.fixed) == Some(fixed) && c.open(NonceFor(1), s.variable) == Some(variable)
    ensures |fixed| == 11 && FixedAt(fixed, now) == Ok(|s.variable| - 16) && VariableAt(variable, names).Ok?
  {
    hide NonceFor, RequestCipher, FixedAt, VariableAt, SessionOf;
    var n, fixedEnd := KeyLen(cred.suite), FixedEnd(cred);
    var c := RequestCipher(x, cred, buf[..n]);
    CipherMatches(x, cred, buf[..n]);
    fixed := c.open(NonceFor(0), buf[n..fixedEnd]).value;
    var end := fixedEnd + FixedAt(fixed, now).value + 16;
    s := Sealed(buf[n..fixedEnd], buf[fixedEnd..end]);
    variable := c.open(NonceFor(1), s.variable).value;
  }

  /** What a credential makes a request of was sent by a client that has it. */
  lemma DoneIsSent(x: Crypto, buf: Bytes, cred: Credential, now: nat, names: Names)
    returns (w: Wire, s: Sealed, payload: Bytes)
    requires x.Valid() && cred.Valid() && Try(x, buf, cred, now, names).Done?
    ensures Sends(x, cred, now, names, w, s) && buf == w.salt + s.fixed + s.variable + payload
  {
    hide Try, NonceFor, NumberedNonce, RequestCipher, ClientCipher, FixedAt, VariableAt, PrintAddress, PrintPort;
    hide BeBytes, Pow256;
    NonceIsNumbered(0);
    NonceIsNumbered(1);
    var fixed, variable;
    s, fixed, variable := PartsOpen(x, buf, cred, now, names);
    var n, end := KeyLen(cred.suite), KeyLen(cred.suite) + 27 + |s.variable|;
    SameCipher(x, cred, buf[..n]);
    CipherMatches(x, cred, buf[..n]);
    var ts := FixedIsPrinted(fixed, now);
    var address, port, padding := VariableIsPrinted(variable, names);
    w := Wire(buf[..n], ts, address, port, padding, VariableAt(variable, names).value.1);
    payload := buf[end..];
    assert variable == PrintVariable(w);
    assert fixed == PrintFixed(w, |s.variable| - 16);
    assert |variable| + 16 == |s.variable|;
    assert buf == buf[..n] + buf[n..n + 27] + buf[n + 27..end] + buf[end..];
  }

  /** A credential makes a request of a buffer exactly when a client that has it sends this, with some payload. */
  lemma DoneIff(x: Crypto, buf: Bytes, cred: Credential, now: nat, names: Names)
    requires x.Valid() && cred.Valid()
    ensures Try(x, buf, cred, now, names).Done?
       <==> exists w: Wire, s: Sealed, payload: Bytes :: Sends(x, cred, now, names, w, s)
                                                      && buf == w.salt + s.fixed + s.variable + payload
  {
    hide Sends, Try;
    forall w: Wire, s: Sealed, payload: Bytes | Sends(x, cred, now, names, w, s)
                                                && buf == w.salt + s.fixed + s.variable + payload
      ensures Try(x, buf, cred, now, names).Done?
    {
      SentReads(x, cred, now, names, w, s, payload);
    }
    if Try(x, buf, cred, now, names).Done? {
      var w, s, payload := DoneIsSent(x, buf, cred, now, names);
    }
  }

  // ---- the whole parser ----

  /** No credential before `user` accepts or refuses the buffer. */
  predicate EarlierQuiet(x: Crypto, buf: Bytes, creds: seq<Credential>, i: nat, user: nat, now: nat, names: Names)
    requires x.Valid() && AllValid(creds) && user < |creds|
  {
    forall j :: i <= j < user ==> var a := Try(x, buf, creds[j], now, names); a.Skip? || a.Wait?
  }

  lemma {:induction false} FromIff(x: Crypto, buf: Bytes, creds: seq<Credential>, i: nat, waiting: bool, now: nat,
                                   names: Names, user: nat)
    requires x.Valid() && AllValid(creds) && i <= user < |creds|
    ensures var r := ParseFrom(x, buf, creds, i, waiting, now, names);
      r.Ok? && r.value.user == user
      <==> Try(x, buf, creds[user], now, names).Done? && EarlierQuiet(x, buf, creds, i, user, now, names)
    decreases user - i
  {
    hide Try;
    var a := Try(x, buf, creds[i], now, names);
    if i < user {
      if a.Skip? || a.Wait? {
        FromIff(x, buf, creds, i + 1, waiting || a.Wait?, now, names, user);
      }
    } else if a.Skip? || a.Wait? {
      FromLater(x, buf, creds, i + 1, waiting || a.Wait?, now, names);
    }
  }

  lemma {:induction false} FromLater(x: Crypto, buf: Bytes, creds: seq<Credential>, i: nat, waiting: bool, now: nat,
                                     names: Names)
    requires x.Valid() && AllValid(creds) && i <= |creds|
    ensures var r := ParseFrom(x, buf, creds, i, waiting, now, names); r.Ok? ==> i <= r.value.user < |creds|
    decreases |creds| - i
  {
    hide Try;
    if i < |creds| {
      FromLater(x, buf, creds, i + 1, waiting || Try(x, buf, creds[i], now, names).Wait?, now, names);
    }
  }

  /** A buffer is a request of `user` exactly when it is what a client with this user's key sends, with some payload,
      and no earlier key accepts or refuses it. Then it means what was written. */
  lemma ParsedIff(x: Crypto, buf: Bytes, creds: seq<Credential>, now: nat, names: Names, user: nat)
    requires x.Valid() && AllValid(creds) && user < |creds|
    ensures var r := ParseSpec(x, buf, creds, now, names);
      r.Ok? && r.value.user == user
      <==> EarlierQuiet(x, buf, creds, 0, user, now, names)
           && exists w: Wire, s: Sealed, payload: Bytes :: Sends(x, creds[user], now, names, w, s)
                                                        && buf == w.salt + s.fixed + s.variable + payload
    ensures forall w: Wire, s: Sealed, payload: Bytes ::
              Sends(x, creds[user], now, names, w, s) && buf == w.salt + s.fixed + s.variable + payload
              && EarlierQuiet(x, buf, creds, 0, user, now, names) ==>
                ParseSpec(x, buf, creds, now, names)
                == Ok(Request(user, Target(w.address.Meaning(names), w.port),
                              SessionOf(x, creds[user], w.salt, w.initial, now), payload))
  {
    hide Try, SessionOf, PrintVariable, PrintFixed, ClientCipher, NumberedNonce;
    FromIff(x, buf, creds, 0, false, now, names, user);
    DoneIff(x, buf, creds[user], now, names);
    forall w: Wire, s: Sealed, payload: Bytes |
      Sends(x, creds[user], now, names, w, s) && buf == w.salt + s.fixed + s.variable + payload
      && EarlierQuiet(x, buf, creds, 0, user, now, names)
      ensures ParseSpec(x, buf, creds, now, names)
           == Ok(Request(user, Target(w.address.Meaning(names), w.port),
                         SessionOf(x, creds[user], w.salt, w.initial, now), payload))
    {
      SentReads(x, creds[user], now, names, w, s, payload);
      FromDone(x, buf, creds, 0, false, now, names, user);
      assert buf[|w.salt + s.fixed + s.variable|..] == payload;
    }
  }

  lemma {:induction false} FromDone(x: Crypto, buf: Bytes, creds: seq<Credential>, i: nat, waiting: bool, now: nat,
                                    names: Names, user: nat)
    requires x.Valid() && AllValid(creds) && i <= user < |creds| && EarlierQuiet(x, buf, creds, i, user, now, names)
    requires Try(x, buf, creds[user], now, names).Done?
    ensures var a := Try(x, buf, creds[user], now, names);
      ParseFrom(x, buf, creds, i, waiting, now, names) == Ok(Request(user, a.target, a.session, buf[a.end..]))
    decreases user - i
  {
    hide Try;
    if i < user {
      FromDone(x, buf, creds, i + 1, waiting || Try(x, buf, creds[i], now, names).Wait?, now, names, user);
    }
  }
}
