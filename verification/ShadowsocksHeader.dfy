/** The Shadowsocks-2022 request header, with its cryptography as parameters. */
module ShadowsocksHeader {
  import opened Wrappers
  import opened Reader
  import opened Addr
  import Aead
  import opened ShadowsocksSpec
  import ShadowsocksBody

  const FIXED_HEADER_LEN := 11
  const TYPE_REQUEST: byte := 0
  const MAX_CLOCK_SKEW := 30
  const MAX_VARIABLE_LEN := 65535

  /** The key fills the first `KeyLen(suite)` of 32 bytes. */
  datatype Credential = Credential(suite: Suite, psk: Bytes) {
    predicate Valid() {
      |psk| == 32
    }
  }

  datatype Crypto = Crypto(cipher: (Suite, Bytes) -> Aead.Cipher, subkey: (Bytes, Bytes) -> Bytes) {
    ghost predicate Valid() {
      && (forall m, k :: cipher(m, k).LengthsMatch())
      && (forall p, t :: |subkey(p, t)| == 32)
    }
  }

  datatype Request = Request(user: nat, target: Target, session: ShadowsocksBody.Session, payload: Bytes)

  /** The variable part: address, port, padding, and the first payload. */
  function VariableAt(variable: Bytes, names: Names): Result<(Target, Bytes), ProtocolError> {
    var (target, p1) :- Socks5TargetAt(variable, 0, names);
    var (padding, p2) :- U16At(variable, p1);
    var (_, p3) :- TakeAt(variable, p2, padding);
    Ok((Target(target.host, target.port), variable[p3..]))
  }

  /** What the fixed part says: type, time and the length of the variable part. */
  function FixedAt(fixed: Bytes, now: nat): Result<nat, ProtocolError> {
    var (ty, p1) :- U8At(fixed, 0);
    if ty != TYPE_REQUEST then Err(UnsupportedVersion(TYPE_REQUEST))
    else
      var (ts, p2) :- TakeAt(fixed, p1, 8);
      if AbsDiff(BeNat(ts), now) > MAX_CLOCK_SKEW then Err(AuthFailed)
      else
        var (len, _) :- U16At(fixed, p2);
        if len > MAX_VARIABLE_LEN then Err(LengthExceeded) else Ok(len)
  }

  /** Target, first payload and where the header ends, once the fixed part has been authenticated. */
  function AfterFixed(buf: Bytes, fixed: Bytes, cipher: Aead.Cipher, fixedEnd: nat, now: nat, names: Names):
      (r: Result<(Target, Bytes, nat), ProtocolError>)
    requires fixedEnd <= |buf|
    ensures r.Ok? ==> r.value.2 <= |buf|
  {
    var len :- FixedAt(fixed, now);
    var end := fixedEnd + len + Aead.TAG;
    if |buf| < end then Err(Incomplete)
    else match Open(cipher, 1, buf[fixedEnd..end])
      case None => Err(AuthFailed)
      case Some(variable) =>
        var (target, initial) :- VariableAt(variable, names);
        Ok((target, initial, end))
  }

  method DecodeAfterFixed(buf: Bytes, fixed: Bytes, cipher: Aead.Cipher, fixedEnd: nat, now: nat, names: Names)
    returns (d: Result<(Target, Bytes, nat), ProtocolError>)
    requires fixedEnd <= |buf|
    ensures d == AfterFixed(buf, fixed, cipher, fixedEnd, now, names)
  {
    hide Socks5TargetAt, HostAt, TakeAt, U16At, Open;
    var r := new Cursor(fixed);
    var ty :- r.U8();
    if ty != TYPE_REQUEST {
      return Err(UnsupportedVersion(TYPE_REQUEST));
    }
    var ts :- r.Take(8);
    if AbsDiff(BeNat(ts), now) > MAX_CLOCK_SKEW {
      return Err(AuthFailed);
    }
    var len :- r.U16Be();
    if len > MAX_VARIABLE_LEN {
      return Err(LengthExceeded);
    }
    var end := fixedEnd + len + Aead.TAG;
    if |buf| < end {
      return Err(Incomplete);
    }
    var variable := Open(cipher, 1, buf[fixedEnd..end]);
    if variable.None? {
      return Err(AuthFailed);
    }
    var v := new Cursor(variable.value);
    var target :- ReadTargetSocks5(v, names);
    var padding :- v.U16Be();
    var _ :- v.Take(padding);
    var initial := v.Rest();
    return Ok((Target(target.host, target.port), initial, end));
  }

  /** What one credential makes of a buffer. */
  datatype Attempt =
    | Skip
    | Wait
    | Fail(error: ProtocolError)
    | Done(target: Target, session: ShadowsocksBody.Session, end: nat)

  function FixedEnd(cred: Credential): nat {
    KeyLen(cred.suite) + FIXED_HEADER_LEN + Aead.TAG
  }

  function Subkey(x: Crypto, cred: Credential, salt: Bytes): (k: Bytes)
    requires x.Valid() && cred.Valid()
    ensures |k| == 32
  {
    x.subkey(cred.psk[..KeyLen(cred.suite)], salt)
  }

  function RequestCipher(x: Crypto, cred: Credential, salt: Bytes): Aead.Cipher
    requires x.Valid() && cred.Valid()
  {
    x.cipher(cred.suite, Subkey(x, cred, salt)[..KeyLen(cred.suite)])
  }

  function SessionOf(x: Crypto, cred: Credential, salt: Bytes, initial: Bytes, now: nat): ShadowsocksBody.Session
    requires x.Valid() && cred.Valid() && |salt| <= 32
  {
    ShadowsocksBody.Session(cred.suite, cred.psk, salt + Zeros(32 - |salt|), Subkey(x, cred, salt), initial, 2, now)
  }

  function Try(x: Crypto, buf: Bytes, cred: Credential, now: nat, names: Names): (a: Attempt)
    requires x.Valid() && cred.Valid()
    ensures a.Done? ==> a.end <= |buf|
  {
    if |buf| < FixedEnd(cred) then
      Wait
    else
      var salt := buf[..KeyLen(cred.suite)];
      var cipher := RequestCipher(x, cred, salt);
      match Open(cipher, 0, buf[KeyLen(cred.suite)..FixedEnd(cred)])
      case None => Skip
      case Some(fixed) =>
        match AfterFixed(buf, fixed, cipher, FixedEnd(cred), now, names)
        case Ok((target, initial, end)) => Done(target, SessionOf(x, cred, salt, initial, now), end)
        case Err(e) => if e == Incomplete then Wait else Fail(e)
  }

  predicate AllValid(creds: seq<Credential>) {
    forall i :: 0 <= i < |creds| ==> creds[i].Valid()
  }

  /** Credentials from number `i` on; `waiting` says whether an earlier one may still match. */
  function ParseFrom(x: Crypto, buf: Bytes, creds: seq<Credential>, i: nat, waiting: bool, now: nat, names: Names):
      Result<Request, ProtocolError>
    requires x.Valid() && AllValid(creds) && i <= |creds|
    decreases |creds| - i
  {
    if i == |creds| then
      Err(if waiting then Incomplete else AuthFailed)
    else
      match Try(x, buf, creds[i], now, names)
      case Skip => ParseFrom(x, buf, creds, i + 1, waiting, now, names)
      case Wait => ParseFrom(x, buf, creds, i + 1, true, now, names)
      case Fail(e) => Err(e)
      case Done(target, session, end) => Ok(Request(i, target, session, buf[end..]))
  }

  function ParseSpec(x: Crypto, buf: Bytes, creds: seq<Credential>, now: nat, names: Names):
      Result<Request, ProtocolError>
    requires x.Valid() && AllValid(creds)
  {
    ParseFrom(x, buf, creds, 0, false, now, names)
  }

  method Parse(x: Crypto, buf: Bytes, creds: seq<Credential>, now: nat, names: Names)
    returns (request: Result<Request, ProtocolError>)
    requires x.Valid() && AllValid(creds)
    ensures request == ParseSpec(x, buf, creds, now, names)
  {
    hide AfterFixed, Open, Subkey;
    var incomplete := false;
    for index: nat := 0 to |creds|
      invariant ParseSpec(x, buf, creds, now, names) == ParseFrom(x, buf, creds, index, incomplete, now, names)
    {
      var cred := creds[index];
      var keyLen := KeyLen(cred.suite);
      var fixedEnd := keyLen + FIXED_HEADER_LEN + Aead.TAG;
      if |buf| < fixedEnd {
        incomplete := true;
        continue;
      }
      var salt := buf[..keyLen];
      var cipher := RequestCipher(x, cred, salt);
      var fixed := Open(cipher, 0, buf[keyLen..fixedEnd]);
      if fixed.None? {
        continue;
      }
      var decoded := DecodeAfterFixed(buf, fixed.value, cipher, fixedEnd, now, names);
      match decoded {
        case Ok((target, initial, consumed)) =>
          return Ok(Request(index, target, SessionOf(x, cred, salt, initial, now), buf[consumed..]));
        case Err(e) =>
          if e == Incomplete {
            incomplete := true;
          } else {
            return Err(e);
          }
      }
    }
    return Err(if incomplete then Incomplete else AuthFailed);
  }

  lemma SessionValid(x: Crypto, buf: Bytes, creds: seq<Credential>, now: nat, names: Names)
    requires x.Valid() && AllValid(creds) && ParseSpec(x, buf, creds, now, names).Ok?
    ensures ParseSpec(x, buf, creds, now, names).value.session.Valid()
  {
    FromValid(x, buf, creds, 0, false, now, names);
  }

  lemma {:induction false} FromValid(x: Crypto, buf: Bytes, creds: seq<Credential>, i: nat, waiting: bool, now: nat,
                                     names: Names)
    requires x.Valid() && AllValid(creds) && i <= |creds| && ParseFrom(x, buf, creds, i, waiting, now, names).Ok?
    ensures ParseFrom(x, buf, creds, i, waiting, now, names).value.session.Valid()
    decreases |creds| - i
  {
    hide AfterFixed, Open;
    if i < |creds| {
      var a := Try(x, buf, creds[i], now, names);
      hide Try;
      if a.Skip? {
        FromValid(x, buf, creds, i + 1, waiting, now, names);
      } else if a.Wait? {
        FromValid(x, buf, creds, i + 1, true, now, names);
      }
    }
  }

  // ---- more bytes ----

  /** Only waiting can end differently with more bytes. */
  lemma TrySettled(x: Crypto, buf: Bytes, ext: Bytes, cred: Credential, now: nat, names: Names)
    requires x.Valid() && cred.Valid()
    ensures Try(x, buf, cred, now, names).Wait? || Try(x, buf + ext, cred, now, names) == Try(x, buf, cred, now, names)
  {
    hide FixedAt, VariableAt, Subkey;
    if |buf| >= FixedEnd(cred) {
      var more, n, fixedEnd := buf + ext, KeyLen(cred.suite), FixedEnd(cred);
      assert more[..n] == buf[..n] && more[n..fixedEnd] == buf[n..fixedEnd];
      var fixed := Open(RequestCipher(x, cred, buf[..n]), 0, buf[n..fixedEnd]);
      if fixed.Some? {
        var len := FixedAt(fixed.value, now);
        if len.Ok? && |buf| >= fixedEnd + len.value + Aead.TAG {
          var end := fixedEnd + len.value + Aead.TAG;
          assert more[fixedEnd..end] == buf[fixedEnd..end];
        }
      }
    }
  }

  /** No credential before the one that decides is still waiting. */
  predicate NoneWaits(x: Crypto, buf: Bytes, creds: seq<Credential>, i: nat, now: nat, names: Names)
    requires x.Valid() && AllValid(creds) && i <= |creds|
    decreases |creds| - i
  {
    i == |creds| ||
    match Try(x, buf, creds[i], now, names)
    case Skip => NoneWaits(x, buf, creds, i + 1, now, names)
    case Wait => false
    case _ => true
  }

  lemma {:induction false} FromMonotone(x: Crypto, buf: Bytes, ext: Bytes, creds: seq<Credential>, i: nat, now: nat,
                                        names: Names)
    requires x.Valid() && AllValid(creds) && i <= |creds| && NoneWaits(x, buf, creds, i, now, names)
    ensures match ParseFrom(x, buf, creds, i, false, now, names)
      case Ok(r) => ParseFrom(x, buf + ext, creds, i, false, now, names) == Ok(r.(payload := r.payload + ext))
      case Err(e) => ParseFrom(x, buf + ext, creds, i, false, now, names) == Err(e)
    decreases |creds| - i
  {
    hide Try;
    if i < |creds| {
      TrySettled(x, buf, ext, creds[i], now, names);
      match Try(x, buf, creds[i], now, names) {
        case Skip => FromMonotone(x, buf, ext, creds, i + 1, now, names);
        case Done(_, _, end) => assert (buf + ext)[end..] == buf[end..] + ext;
        case _ =>
      }
    }
  }

  /** When no earlier credential waits, a request stays the same request with more payload and a refusal the same
      refusal. */
  lemma ParseMonotone(x: Crypto, buf: Bytes, ext: Bytes, creds: seq<Credential>, now: nat, names: Names)
    requires x.Valid() && AllValid(creds) && NoneWaits(x, buf, creds, 0, now, names)
    ensures match ParseSpec(x, buf, creds, now, names)
      case Ok(r) => ParseSpec(x, buf + ext, creds, now, names) == Ok(r.(payload := r.payload + ext))
      case Err(e) => ParseSpec(x, buf + ext, creds, now, names) == Err(e)
  {
    FromMonotone(x, buf, ext, creds, 0, now, names);
  }

  /** With one credential a result other than `Incomplete` means that none waits. */
  lemma OneCredential(x: Crypto, buf: Bytes, creds: seq<Credential>, now: nat, names: Names)
    requires x.Valid() && AllValid(creds) && |creds| <= 1
    requires ParseSpec(x, buf, creds, now, names) != Err(Incomplete)
    ensures NoneWaits(x, buf, creds, 0, now, names)
  {
    hide Try;
    if |creds| == 1 {
      assert ParseFrom(x, buf, creds, 1, true, now, names) == Err(Incomplete);
      assert NoneWaits(x, buf, creds, 1, now, names);
    }
  }

  // ---- a written header reads back ----

  datatype Wire = Wire(salt: Bytes, ts: nat, address: Address, port: nat, padding: Bytes, initial: Bytes) {
    predicate Writable(names: Names) {
      && ts < Pow256(8) && port < 0x1_0000 && |padding| < 0x1_0000 && address.Writable(names)
      && |PrintVariable(this)| < 0x1_0000
    }

    /** Not more than half a minute old, and not more than half a minute ahead. */
    predicate Timely(now: nat) {
      ts <= now + 30 && now <= ts + 30
    }
  }

  /** Type, time and the length of the variable part. */
  function PrintFixed(w: Wire, len: nat): Bytes
    requires len < 0x1_0000
  {
    [0] + BeBytes(w.ts, 8) + PrintPort(len)
  }

  /** Address, port, padding and the first payload. */
  function PrintVariable(w: Wire): Bytes
    requires w.port < 0x1_0000 && |w.padding| < 0x1_0000 && (w.address.Name? ==> |w.address.name| < 256)
  {
    PrintAddress(w.address, Socks5Kind) + PrintPort(w.port) + PrintPort(|w.padding|) + w.padding + w.initial
  }

  /** The cipher of a client: its key is derived from the shared one, 16 or 32 bytes of it, and the salt. */
  function ClientCipher(x: Crypto, cred: Credential, salt: Bytes): Aead.Cipher
    requires x.Valid() && cred.Valid()
  {
    var n := if cred.suite.Aes128Gcm? then 16 else 32;
    x.cipher(cred.suite, x.subkey(cred.psk[..n], salt)[..n])
  }

  lemma SameCipher(x: Crypto, cred: Credential, salt: Bytes)
    requires x.Valid() && cred.Valid()
    ensures RequestCipher(x, cred, salt) == ClientCipher(x, cred, salt)
  {
  }

  /** What a client sends. */
  function Print(x: Crypto, cred: Credential, w: Wire, names: Names): Bytes
    requires x.Valid() && cred.Valid() && w.Writable(names)
  {
    var c := ClientCipher(x, cred, w.salt);
    w.salt + Seal(c, 0, PrintFixed(w, |PrintVariable(w)|)) + Seal(c, 1, PrintVariable(w))
  }

  lemma {:induction false} BeNatBack(n: nat, width: nat)
    requires n < Pow256(width)
    ensures BeNat(BeBytes(n, width)) == n
  {
    if width > 0 {
      BeNatBack(n / 256, width - 1);
      var b := BeBytes(n, width);
      assert b[..width - 1] == BeBytes(n / 256, width - 1);
    }
  }

  lemma FixedReads(w: Wire, len: nat, now: nat)
    requires w.ts < Pow256(8) && len < 0x1_0000 && w.Timely(now)
    ensures FixedAt(PrintFixed(w, len), now) == Ok(len)
  {
    hide BeBytes, BeNat, PrintPort, Pow256;
    var ts := BeBytes(w.ts, 8);
    var fixed := PrintFixed(w, len);
    assert fixed[1..9] == ts;
    BeNatBack(w.ts, 8);
    PortRoundTrip([TYPE_REQUEST] + ts, len, []);
    assert [TYPE_REQUEST] + ts + PrintPort(len) + [] == fixed;
  }

  lemma VariableReads(w: Wire, names: Names)
    requires w.Writable(names)
    ensures VariableAt(PrintVariable(w), names) == Ok((Target(w.address.Meaning(names), w.port), w.initial))
  {
    hide PrintAddress, PrintPort, U16At, TakeAt, HostAt;
    var address, port, padLen := PrintAddress(w.address, Socks5Kind), PrintPort(w.port), PrintPort(|w.padding|);
    var b := PrintVariable(w);
    AddressRoundTrip([], w.address, port + padLen + w.padding + w.initial, Socks5Kind, names);
    assert b == [] + address + (port + padLen + w.padding + w.initial);
    PortRoundTrip(address, w.port, padLen + w.padding + w.initial);
    assert b == address + port + (padLen + w.padding + w.initial);
    PortRoundTrip(address + port, |w.padding|, w.padding + w.initial);
    assert b == address + port + padLen + (w.padding + w.initial);
    PaddingReads(address + port + padLen, w.padding, w.initial);
    assert b == address + port + padLen + w.padding + w.initial;
    assert b[|address + port + padLen + w.padding|..] == w.initial;
  }

  lemma PaddingReads(before: Bytes, padding: Bytes, after: Bytes)
    requires |padding| < 0x1_0000
    ensures TakeAt(before + padding + after, |before|, |padding|) == Ok((padding, |before| + |padding|))
  {
    assert (before + padding + after)[|before|..|before| + |padding|] == padding;
  }

  /** The credential a request was written with makes of it its target, its session and its payload. */
  lemma TryReads(x: Crypto, cred: Credential, w: Wire, now: nat, names: Names, payload: Bytes)
    requires x.Valid() && cred.Valid() && w.Writable(names) && |w.salt| == KeyLen(cred.suite)
    requires ClientCipher(x, cred, w.salt).Lawful() && w.Timely(now)
    ensures Try(x, Print(x, cred, w, names) + payload, cred, now, names)
         == Done(Target(w.address.Meaning(names), w.port), SessionOf(x, cred, w.salt, w.initial, now),
                 |Print(x, cred, w, names)|)
  {
    hide PrintVariable, PrintFixed, FixedAt, VariableAt, NonceFor, RequestCipher, ClientCipher, HasControl;
    SameCipher(x, cred, w.salt);
    var c, variable := ClientCipher(x, cred, w.salt), PrintVariable(w);
    var fixed := PrintFixed(w, |variable|);
    assert |fixed| == FIXED_HEADER_LEN by { FixedLen(w, |variable|); }
    var sealedFixed, sealedVariable := Seal(c, 0, fixed), Seal(c, 1, variable);
    var buf := Print(x, cred, w, names) + payload;
    assert buf == w.salt + sealedFixed + sealedVariable + payload;
    var n, fixedEnd := |w.salt|, FixedEnd(cred);
    Cuts(w.salt, sealedFixed, sealedVariable, payload);
    assert buf[..n] == w.salt && buf[n..fixedEnd] == sealedFixed;
    assert buf[fixedEnd..fixedEnd + |variable| + Aead.TAG] == sealedVariable;
    FixedReads(w, |variable|, now);
    VariableReads(w, names);
  }

  /** A request of any other time is refused by the credential it was written with, as soon as its fixed part is there,
      and by the whole parser when no earlier credential opens it. */
  lemma UntimelyRefused(x: Crypto, creds: seq<Credential>, user: nat, w: Wire, now: nat, names: Names, more: Bytes)
    requires x.Valid() && AllValid(creds) && user < |creds| && w.Writable(names)
             && |w.salt| == KeyLen(creds[user].suite)
    requires ClientCipher(x, creds[user], w.salt).Lawful() && !w.Timely(now)
    ensures var buf := Print(x, creds[user], w, names) + more;
      && (forall k :: |w.salt| + 27 <= k <= |buf| ==> Try(x, buf[..k], creds[user], now, names) == Fail(AuthFailed))
      && ((forall j :: 0 <= j < user ==> Try(x, buf, creds[j], now, names).Skip?) ==>
           ParseSpec(x, buf, creds, now, names) == Err(AuthFailed))
  {
    hide PrintVariable, PrintFixed, FixedAt, NonceFor, RequestCipher, ClientCipher, HasControl, VariableAt;
    var cred := creds[user];
    SameCipher(x, cred, w.salt);
    var c, variable := ClientCipher(x, cred, w.salt), PrintVariable(w);
    var fixed := PrintFixed(w, |variable|);
    assert |fixed| == FIXED_HEADER_LEN by { FixedLen(w, |variable|); }
    var sealedFixed, sealedVariable := Seal(c, 0, fixed), Seal(c, 1, variable);
    var buf := Print(x, cred, w, names) + more;
    assert buf == w.salt + sealedFixed + sealedVariable + more;
    Cuts(w.salt, sealedFixed, sealedVariable, more);
    FixedUntimely(w, |variable|, now);
    forall k | |w.salt| + 27 <= k <= |buf| ensures Try(x, buf[..k], cred, now, names) == Fail(AuthFailed) {
      assert buf[..k][..|w.salt|] == w.salt;
      assert buf[..k][|w.salt|..FixedEnd(cred)] == sealedFixed;
    }
    if forall j :: 0 <= j < user ==> Try(x, buf, creds[j], now, names).Skip? {
      assert buf[..|buf|] == buf;
      hide Try;
      SkipTo(x, buf, creds, 0, user, now, names);
    }
  }

  lemma FixedUntimely(w: Wire, len: nat, now: nat)
    requires w.ts < Pow256(8) && len < 0x1_0000 && !w.Timely(now)
    ensures FixedAt(PrintFixed(w, len), now) == Err(AuthFailed)
  {
    hide BeBytes, BeNat, PrintPort, Pow256;
    assert PrintFixed(w, len)[1..9] == BeBytes(w.ts, 8);
    BeNatBack(w.ts, 8);
  }

  lemma Cuts(a: Bytes, b: Bytes, c: Bytes, d: Bytes)
    ensures var s := a + b + c + d;
      && s[..|a|] == a && s[|a|..|a| + |b|] == b && s[|a| + |b|..|a| + |b| + |c|] == c
  {
  }

  lemma FixedLen(w: Wire, len: nat)
    requires len < 0x1_0000
    ensures |PrintFixed(w, len)| == FIXED_HEADER_LEN
  {
  }

  /** A written request parses to its credential, its normalised target, the session the body goes on with and
      exactly the payload, when no earlier credential opens it. */
  lemma RoundTrip(x: Crypto, creds: seq<Credential>, user: nat, w: Wire, now: nat, names: Names, payload: Bytes)
    requires x.Valid() && AllValid(creds) && user < |creds| && w.Writable(names)
             && |w.salt| == KeyLen(creds[user].suite)
    requires ClientCipher(x, creds[user], w.salt).Lawful() && w.Timely(now)
    requires forall j :: 0 <= j < user ==> Try(x, Print(x, creds[user], w, names) + payload, creds[j], now, names).Skip?
    ensures ParseSpec(x, Print(x, creds[user], w, names) + payload, creds, now, names)
         == Ok(Request(user, Target(w.address.Meaning(names), w.port),
                       SessionOf(x, creds[user], w.salt, w.initial, now), payload))
  {
    hide Try, Print;
    TryReads(x, creds[user], w, now, names, payload);
    var buf := Print(x, creds[user], w, names) + payload;
    assert buf[|Print(x, creds[user], w, names)|..] == payload;
    SkipTo(x, buf, creds, 0, user, now, names);
  }

  lemma {:induction false} SkipTo(x: Crypto, buf: Bytes, creds: seq<Credential>, i: nat, user: nat, now: nat,
                                  names: Names)
    requires x.Valid() && AllValid(creds) && i <= user < |creds|
    requires forall j :: i <= j < user ==> Try(x, buf, creds[j], now, names).Skip?
    ensures ParseFrom(x, buf, creds, i, false, now, names) == ParseFrom(x, buf, creds, user, false, now, names)
    decreases user - i
  {
    hide Try;
    if i < user {
      SkipTo(x, buf, creds, i + 1, user, now, names);
    }
  }

  /** No credential but `user` makes anything of the buffer. */
  predicate OthersQuiet(x: Crypto, buf: Bytes, creds: seq<Credential>, user: nat, now: nat, names: Names)
    requires x.Valid() && AllValid(creds)
  {
    forall j :: 0 <= j < |creds| && j != user ==> var a := Try(x, buf, creds[j], now, names); a.Skip? || a.Wait?
  }

  /** Then the one credential decides: its request, or `Incomplete` while it waits. */
  lemma {:induction false} FromQuiet(x: Crypto, buf: Bytes, creds: seq<Credential>, user: nat, now: nat, names: Names,
                                     i: nat, waiting: bool)
    requires x.Valid() && AllValid(creds) && user < |creds| && OthersQuiet(x, buf, creds, user, now, names)
    requires var a := Try(x, buf, creds[user], now, names); a.Wait? || a.Done?
    requires i <= |creds| && (i > user ==> waiting)
    ensures match Try(x, buf, creds[user], now, names)
      case Done(target, session, end) =>
        i <= user ==> ParseFrom(x, buf, creds, i, waiting, now, names) == Ok(Request(user, target, session, buf[end..]))
      case _ => ParseFrom(x, buf, creds, i, waiting, now, names) == Err(Incomplete)
    decreases |creds| - i
  {
    hide Try;
    if i < |creds| {
      var a := Try(x, buf, creds[i], now, names);
      if a.Skip? {
        FromQuiet(x, buf, creds, user, now, names, i + 1, waiting);
      } else if a.Wait? {
        FromQuiet(x, buf, creds, user, now, names, i + 1, true);
      }
    }
  }

  /** Cut anywhere inside its header, a request makes its credential wait. */
  lemma PrefixWaits(x: Crypto, buf: Bytes, cred: Credential, now: nat, names: Names, k: nat)
    requires x.Valid() && cred.Valid() && Try(x, buf, cred, now, names).Done? && k < Try(x, buf, cred, now, names).end
    ensures Try(x, buf[..k], cred, now, names).Wait?
  {
    hide Try;
    assert buf == buf[..k] + buf[k..];
    TrySettled(x, buf[..k], buf[k..], cred, now, names);
  }

  // ---- requests that are cut short ----

  /** Less is there than the fields announce: address, port, padding length and padding. */
  predicate VariableShort(v: Bytes, names: Names) {
    || HostShort(v, 0, Socks5Kind)
    || (HostSound(v, 0, Socks5Kind, names)
        && var end := HostEnd(v, 0, Socks5Kind);
           |v| < end + 4 || |v| < end + 4 + Join(v[end + 2], v[end + 3]))
  }

  /** The variable part is `Incomplete` exactly when it is short. */
  lemma VariableShortIff(v: Bytes, names: Names)
    ensures VariableAt(v, names) == Err(Incomplete) <==> VariableShort(v, names)
  {
    hide HostAt, HostShort, HostSound, HostEnd;
    HostCases(v, 0, Socks5Kind, names);
  }

  /** The fixed part that a buffer opens to. */
  function OpenedFixed(x: Crypto, buf: Bytes, cred: Credential): Option<Bytes>
    requires x.Valid() && cred.Valid() && |buf| >= FixedEnd(cred)
  {
    var n := KeyLen(cred.suite);
    Open(RequestCipher(x, cred, buf[..n]), 0, buf[n..FixedEnd(cred)])
  }

  /** What the fixed part announces as the length of the variable part, if it is acceptable. */
  function Announced(x: Crypto, buf: Bytes, cred: Credential, now: nat): Option<nat>
    requires x.Valid() && cred.Valid() && |buf| >= FixedEnd(cred)
  {
    match OpenedFixed(x, buf, cred)
    case None => None
    case Some(fixed) =>
      match FixedAt(fixed, now)
      case Err(_) => None
      case Ok(len) => Some(len)
  }

  /** The whole request header has arrived, as far as a credential can tell. */
  predicate Complete(x: Crypto, buf: Bytes, cred: Credential, now: nat)
    requires x.Valid() && cred.Valid()
  {
    && |buf| >= FixedEnd(cred)
    && (Announced(x, buf, cred, now).Some? ==> |buf| >= FixedEnd(cred) + Announced(x, buf, cred, now).value + Aead.TAG)
  }

  /** The variable part that a complete buffer opens to. */
  function OpenedVariable(x: Crypto, buf: Bytes, cred: Credential, now: nat): Option<Bytes>
    requires x.Valid() && cred.Valid() && Complete(x, buf, cred, now)
  {
    var len := Announced(x, buf, cred, now);
    if len.None? then None
    else
      var end := FixedEnd(cred) + len.value + Aead.TAG;
      Open(RequestCipher(x, cred, buf[..KeyLen(cred.suite)]), 1, buf[FixedEnd(cred)..end])
  }

  /** An authenticated fixed part has all its eleven bytes. */
  lemma FixedWhole(x: Crypto, buf: Bytes, cred: Credential, now: nat)
    requires x.Valid() && cred.Valid() && |buf| >= FixedEnd(cred) && OpenedFixed(x, buf, cred).Some?
    ensures |OpenedFixed(x, buf, cred).value| == FIXED_HEADER_LEN
    ensures FixedAt(OpenedFixed(x, buf, cred).value, now) != Err(Incomplete)
  {
    hide RequestCipher, BeNat, Join;
    CipherMatches(x, cred, buf[..KeyLen(cred.suite)]);
  }

  lemma CipherMatches(x: Crypto, cred: Credential, salt: Bytes)
    requires x.Valid() && cred.Valid()
    ensures RequestCipher(x, cred, salt).LengthsMatch()
  {
    hide Aead.Cipher.LengthsMatch;
  }

  /** On a complete buffer a credential waits exactly when the variable part opens and is itself cut short. */
  lemma CompleteWaits(x: Crypto, buf: Bytes, cred: Credential, now: nat, names: Names)
    requires x.Valid() && cred.Valid() && Complete(x, buf, cred, now)
    ensures var variable := OpenedVariable(x, buf, cred, now);
      Try(x, buf, cred, now, names).Wait? <==> variable.Some? && VariableShort(variable.value, names)
  {
    hide FixedAt, VariableAt, VariableShort, RequestCipher, Open;
    if OpenedFixed(x, buf, cred).Some? {
      FixedWhole(x, buf, cred, now);
      var variable := OpenedVariable(x, buf, cred, now);
      if variable.Some? {
        VariableShortIff(variable.value, names);
      }
    }
  }

  lemma CompleteKept(x: Crypto, buf: Bytes, ext: Bytes, cred: Credential, now: nat)
    requires x.Valid() && cred.Valid() && Complete(x, buf, cred, now)
    ensures Complete(x, buf + ext, cred, now)
            && OpenedVariable(x, buf + ext, cred, now) == OpenedVariable(x, buf, cred, now)
  {
    hide FixedAt, RequestCipher, Open;
    var more, n, fixedEnd := buf + ext, KeyLen(cred.suite), FixedEnd(cred);
    assert more[..n] == buf[..n] && more[n..fixedEnd] == buf[n..fixedEnd];
    var len := Announced(x, buf, cred, now);
    if len.Some? {
      assert more[fixedEnd..fixedEnd + len.value + Aead.TAG] == buf[fixedEnd..fixedEnd + len.value + Aead.TAG];
    }
  }

  /** Once the whole header is there, `Incomplete` under one credential means that an authenticated variable part is
      itself cut short, and no further byte will change it; otherwise a complete buffer has its verdict. */
  lemma CompleteIncomplete(x: Crypto, buf: Bytes, ext: Bytes, cred: Credential, now: nat, names: Names)
    requires x.Valid() && cred.Valid() && Complete(x, buf, cred, now)
    ensures var v := OpenedVariable(x, buf, cred, now);
      ParseSpec(x, buf, [cred], now, names) == Err(Incomplete) <==> v.Some? && VariableShort(v.value, names)
    ensures ParseSpec(x, buf, [cred], now, names) == Err(Incomplete) ==>
            ParseSpec(x, buf + ext, [cred], now, names) == Err(Incomplete)
  {
    hide Try, VariableShort, OpenedVariable, Complete;
    CompleteKept(x, buf, ext, cred, now);
    CompleteWaits(x, buf, cred, now, names);
    CompleteWaits(x, buf + ext, cred, now, names);
    WaitingAlone(x, buf, cred, now, names);
    WaitingAlone(x, buf + ext, cred, now, names);
  }

  lemma WaitingAlone(x: Crypto, buf: Bytes, cred: Credential, now: nat, names: Names)
    requires x.Valid() && cred.Valid()
    ensures ParseSpec(x, buf, [cred], now, names) == Err(Incomplete) <==> Try(x, buf, cred, now, names).Wait?
  {
    FailIsTerminal(x, buf, cred, now, names);
    hide Try;
    assert ParseFrom(x, buf, [cred], 1, true, now, names) == Err(Incomplete);
    assert ParseFrom(x, buf, [cred], 1, false, now, names) == Err(AuthFailed);
  }

  lemma FailIsTerminal(x: Crypto, buf: Bytes, cred: Credential, now: nat, names: Names)
    requires x.Valid() && cred.Valid()
    ensures Try(x, buf, cred, now, names) != Fail(Incomplete)
  {
    hide AfterFixed, Open;
  }

  /** The fixed part, its 65535 bytes at most, and the tag are always a complete header. */
  lemma EnoughIsComplete(x: Crypto, buf: Bytes, cred: Credential, now: nat)
    requires x.Valid() && cred.Valid() && |buf| >= FixedEnd(cred) + MAX_VARIABLE_LEN + Aead.TAG
    ensures Complete(x, buf, cred, now)
  {
    hide OpenedFixed, BeNat, Join;
  }

  /** Whatever the primitives: a sealed variable part that is cut short waits for ever, however much follows it. */
  lemma WaitsForEver(x: Crypto, cred: Credential, w: Wire, variable: Bytes, now: nat, names: Names, more: Bytes)
    requires x.Valid() && cred.Valid() && |w.salt| == KeyLen(cred.suite) && ClientCipher(x, cred, w.salt).Lawful()
    requires w.ts < Pow256(8) && w.Timely(now)
    requires |variable| < 0x1_0000 && VariableShort(variable, names)
    ensures var c := ClientCipher(x, cred, w.salt);
      ParseSpec(x, w.salt + Seal(c, 0, PrintFixed(w, |variable|)) + Seal(c, 1, variable) + more, [cred], now, names)
        == Err(Incomplete)
  {
    hide PrintFixed, FixedAt, VariableAt, VariableShort, NonceFor, RequestCipher, ClientCipher, ParseSpec;
    SameCipher(x, cred, w.salt);
    var c, fixed := ClientCipher(x, cred, w.salt), PrintFixed(w, |variable|);
    assert |fixed| == FIXED_HEADER_LEN by { FixedLen(w, |variable|); }
    var sealedFixed, sealedVariable := Seal(c, 0, fixed), Seal(c, 1, variable);
    var buf := w.salt + sealedFixed + sealedVariable + more;
    var n, fixedEnd := |w.salt|, FixedEnd(cred);
    Cuts(w.salt, sealedFixed, sealedVariable, more);
    assert buf[..n] == w.salt && buf[n..fixedEnd] == sealedFixed;
    assert buf[fixedEnd..fixedEnd + |variable| + Aead.TAG] == sealedVariable;
    FixedReads(w, |variable|, now);
    assert OpenedFixed(x, buf, cred) == Some(fixed);
    assert Announced(x, buf, cred, now) == Some(|variable|);
    assert OpenedVariable(x, buf, cred, now) == Some(variable);
    hide OpenedVariable, Complete;
    CompleteIncomplete(x, buf, [], cred, now, names);
  }

  // ---- whose verdict is kept ----

  /** A credential opens the fixed part of a buffer. */
  predicate OpensFixed(x: Crypto, buf: Bytes, cred: Credential)
    requires x.Valid() && cred.Valid()
  {
    |buf| >= FixedEnd(cred) && OpenedFixed(x, buf, cred).Some?
  }

  /** A credential opens the fixed part, and the header is complete and not cut short: refused or accepted. */
  predicate Settles(x: Crypto, buf: Bytes, cred: Credential, now: nat, names: Names)
    requires x.Valid() && cred.Valid()
  {
    && OpensFixed(x, buf, cred) && Complete(x, buf, cred, now)
    && var v := OpenedVariable(x, buf, cred, now);
       v.Some? ==> !VariableShort(v.value, names)
  }

  /** The header is complete, its variable part opens, has all its fields and holds a sound address. */
  predicate Accepts(x: Crypto, buf: Bytes, cred: Credential, now: nat, names: Names)
    requires x.Valid() && cred.Valid()
  {
    && Complete(x, buf, cred, now)
    && var v := OpenedVariable(x, buf, cred, now);
       v.Some? && !VariableShort(v.value, names) && HostSound(v.value, 0, Socks5Kind, names)
  }

  lemma VariableOkIff(v: Bytes, names: Names)
    ensures VariableAt(v, names).Ok? <==> !VariableShort(v, names) && HostSound(v, 0, Socks5Kind, names)
  {
    hide HostAt, HostShort, HostSound, HostEnd;
    HostCases(v, 0, Socks5Kind, names);
  }

  /** A credential refuses or accepts exactly when it settles, and has a request exactly when it accepts. */
  lemma SettlesIff(x: Crypto, buf: Bytes, cred: Credential, now: nat, names: Names)
    requires x.Valid() && cred.Valid()
    ensures var a := Try(x, buf, cred, now, names);
      (a.Fail? || a.Done? <==> Settles(x, buf, cred, now, names)) && (a.Done? <==> Accepts(x, buf, cred, now, names))
  {
    hide FixedAt, VariableAt, VariableShort, HostSound, RequestCipher, Open;
    if OpensFixed(x, buf, cred) {
      FixedWhole(x, buf, cred, now);
      if Complete(x, buf, cred, now) {
        var variable := OpenedVariable(x, buf, cred, now);
        if variable.Some? {
          VariableShortIff(variable.value, names);
          VariableOkIff(variable.value, names);
        }
      }
    }
  }

  /** The first credential from number `i` on that settles. */
  function FirstSettled(x: Crypto, buf: Bytes, creds: seq<Credential>, i: nat, now: nat, names: Names): (d: nat)
    requires x.Valid() && AllValid(creds) && i <= |creds|
    ensures i <= d <= |creds|
    ensures forall j :: i <= j < d ==> !Settles(x, buf, creds[j], now, names)
    ensures d < |creds| ==> Settles(x, buf, creds[d], now, names)
    decreases |creds| - i
  {
    if i == |creds| || Settles(x, buf, creds[i], now, names) then i
    else FirstSettled(x, buf, creds, i + 1, now, names)
  }

  /** That credential gives the verdict. */
  lemma {:induction false} SettledIsVerdict(x: Crypto, buf: Bytes, creds: seq<Credential>, i: nat, waiting: bool,
                                            now: nat, names: Names)
    requires x.Valid() && AllValid(creds) && i <= |creds|
    ensures var d, r := FirstSettled(x, buf, creds, i, now, names), ParseFrom(x, buf, creds, i, waiting, now, names);
      if d < |creds| then
        match Try(x, buf, creds[d], now, names)
        case Fail(e) => r == Err(e)
        case Done(target, session, end) => r == Ok(Request(d, target, session, buf[end..]))
        case _ => true
      else r == Err(Incomplete) || r == Err(AuthFailed)
    decreases |creds| - i
  {
    hide Try, Settles;
    if i < |creds| {
      SettlesIff(x, buf, creds[i], now, names);
      var a := Try(x, buf, creds[i], now, names);
      if a.Skip? {
        SettledIsVerdict(x, buf, creds, i + 1, waiting, now, names);
      } else if a.Wait? {
        SettledIsVerdict(x, buf, creds, i + 1, true, now, names);
      }
    }
  }

  /** The same request with more payload, or the same refusal. */
  predicate Kept(now: Result<Request, ProtocolError>, later: Result<Request, ProtocolError>, ext: Bytes) {
    match now
    case Ok(r) => later == Ok(r.(payload := r.payload + ext))
    case Err(e) => later == Err(e)
  }

  lemma SettledStays(x: Crypto, buf: Bytes, ext: Bytes, cred: Credential, now: nat, names: Names)
    requires x.Valid() && cred.Valid() && Settles(x, buf, cred, now, names)
    ensures Settles(x, buf + ext, cred, now, names)
    ensures Try(x, buf + ext, cred, now, names) == Try(x, buf, cred, now, names)
  {
    hide Try, Settles;
    SettlesIff(x, buf, cred, now, names);
    SettlesIff(x, buf + ext, cred, now, names);
    TrySettled(x, buf, ext, cred, now, names);
  }

  /** With more bytes the verdict of a credential that settles can only move to an earlier one that settles by then. It
      is kept exactly when none does, or when the first that does refuses as the other did. */
  lemma KeptIff(x: Crypto, buf: Bytes, ext: Bytes, creds: seq<Credential>, now: nat, names: Names)
    requires x.Valid() && AllValid(creds) && FirstSettled(x, buf, creds, 0, now, names) < |creds|
    ensures var d, d' := FirstSettled(x, buf, creds, 0, now, names), FirstSettled(x, buf + ext, creds, 0, now, names);
      && d' <= d
      && (Kept(ParseSpec(x, buf, creds, now, names), ParseSpec(x, buf + ext, creds, now, names), ext)
          <==> d' == d || (!Accepts(x, buf, creds[d], now, names)
                           && Try(x, buf + ext, creds[d'], now, names) == Try(x, buf, creds[d], now, names)))
  {
    hide Try, Settles, Accepts;
    var d, d' := FirstSettled(x, buf, creds, 0, now, names), FirstSettled(x, buf + ext, creds, 0, now, names);
    SettledStays(x, buf, ext, creds[d], now, names);
    SettlesIff(x, buf, creds[d], now, names);
    SettlesIff(x, buf + ext, creds[d'], now, names);
    SettledIsVerdict(x, buf, creds, 0, false, now, names);
    SettledIsVerdict(x, buf + ext, creds, 0, false, now, names);
    var a := Try(x, buf, creds[d], now, names);
    if a.Done? {
      DoneEnds(x, buf, creds[d], now, names);
      assert (buf + ext)[a.end..] == buf[a.end..] + ext;
    }
  }

  lemma DoneEnds(x: Crypto, buf: Bytes, cred: Credential, now: nat, names: Names)
    requires x.Valid() && cred.Valid() && Try(x, buf, cred, now, names).Done?
    ensures Try(x, buf, cred, now, names).end <= |buf|
  {
  }

  /** When no two credentials open one buffer, the verdict of one that settles is final, whatever the key lengths. */
  lemma ExclusiveKept(x: Crypto, buf: Bytes, ext: Bytes, creds: seq<Credential>, now: nat, names: Names)
    requires x.Valid() && AllValid(creds) && FirstSettled(x, buf, creds, 0, now, names) < |creds|
    requires forall i, j :: 0 <= i < j < |creds| && OpensFixed(x, buf + ext, creds[i]) ==>
               !OpensFixed(x, buf + ext, creds[j])
    ensures Kept(ParseSpec(x, buf, creds, now, names), ParseSpec(x, buf + ext, creds, now, names), ext)
  {
    KeptIff(x, buf, ext, creds, now, names);
    SettledStays(x, buf, ext, creds[FirstSettled(x, buf, creds, 0, now, names)], now, names);
    hide Try, OpensFixed;
  }

  /** A verdict that is not `Incomplete` follows from that of fewer bytes: the same request with more payload, or some
      refusal after a refusal. */
  predicate Follows(now: Result<Request, ProtocolError>, later: Result<Request, ProtocolError>, ext: Bytes) {
    match now
    case Ok(r) => later == Ok(r.(payload := r.payload + ext))
    case Err(e) => e != Incomplete ==> later.Err? && later != Err(Incomplete)
  }

  /** An earlier credential settles with more bytes, when a later one had a request, or accepts, when it had refused. */
  predicate Overtaken(x: Crypto, buf: Bytes, ext: Bytes, creds: seq<Credential>, now: nat, names: Names)
    requires x.Valid() && AllValid(creds)
  {
    var d, d' := FirstSettled(x, buf, creds, 0, now, names), FirstSettled(x, buf + ext, creds, 0, now, names);
    d' < d < |creds| && (Accepts(x, buf, creds[d], now, names) || Accepts(x, buf + ext, creds[d'], now, names))
  }

  /** For any credentials: the outcome follows exactly when no earlier credential overtakes. */
  lemma FollowsIff(x: Crypto, buf: Bytes, ext: Bytes, creds: seq<Credential>, now: nat, names: Names)
    requires x.Valid() && AllValid(creds)
    ensures Follows(ParseSpec(x, buf, creds, now, names), ParseSpec(x, buf + ext, creds, now, names), ext)
       <==> !Overtaken(x, buf, ext, creds, now, names)
  {
    hide Try, Settles, Accepts;
    var d, d' := FirstSettled(x, buf, creds, 0, now, names), FirstSettled(x, buf + ext, creds, 0, now, names);
    SettledIsVerdict(x, buf, creds, 0, false, now, names);
    SettledIsVerdict(x, buf + ext, creds, 0, false, now, names);
    if d < |creds| {
      KeptIff(x, buf, ext, creds, now, names);
      SettlesIff(x, buf, creds[d], now, names);
      SettlesIff(x, buf + ext, creds[d'], now, names);
      FailIsTerminal(x, buf, creds[d], now, names);
      FailIsTerminal(x, buf + ext, creds[d'], now, names);
    } else {
      NoneSettled(x, buf, ext, creds, 0, false, now, names);
    }
  }

  /** When no credential settles and none waits, none opens the buffer, and none ever will. */
  lemma {:induction false} NoneSettled(x: Crypto, buf: Bytes, ext: Bytes, creds: seq<Credential>, i: nat, waiting: bool,
                                       now: nat, names: Names)
    requires x.Valid() && AllValid(creds) && i <= |creds| && FirstSettled(x, buf, creds, i, now, names) == |creds|
    ensures var r := ParseFrom(x, buf, creds, i, waiting, now, names);
      r != Err(Incomplete) ==> ParseFrom(x, buf + ext, creds, i, waiting, now, names) == r
    decreases |creds| - i
  {
    hide Try, Settles;
    if i < |creds| {
      SettlesIff(x, buf, creds[i], now, names);
      var a := Try(x, buf, creds[i], now, names);
      TrySettled(x, buf, ext, creds[i], now, names);
      if a.Skip? {
        NoneSettled(x, buf, ext, creds, i + 1, waiting, now, names);
      } else {
        WaitingStays(x, buf, creds, i + 1, now, names);
      }
    }
  }

  /** Once one waits and none settles, the verdict is `Incomplete`. */
  lemma {:induction false} WaitingStays(x: Crypto, buf: Bytes, creds: seq<Credential>, i: nat, now: nat, names: Names)
    requires x.Valid() && AllValid(creds) && i <= |creds| && FirstSettled(x, buf, creds, i, now, names) == |creds|
    ensures ParseFrom(x, buf, creds, i, true, now, names) == Err(Incomplete)
    decreases |creds| - i
  {
    hide Try, Settles;
    if i < |creds| {
      SettlesIff(x, buf, creds[i], now, names);
      WaitingStays(x, buf, creds, i + 1, now, names);
    }
  }

  // ---- the condition is needed ----

  /** One lawful cipher for each key length: the short keys seal with zeros, the long ones with a one and zeros. */
  function TwoTags(): (x: Crypto)
    ensures x.Valid()
    ensures forall u, k :: x.cipher(u, k).Lawful()
  {
    Crypto((u: Suite, _) => Aead.Tagged(if u.Aes128Gcm? then Zeros(16) else [1] + Zeros(15)), (_, _) => Zeros(32))
  }

  lemma TheirCiphers(salt: Bytes)
    ensures RequestCipher(TwoTags(), Credential(Aes256Gcm, Zeros(32)), salt) == Aead.Tagged([1] + Zeros(15))
    ensures RequestCipher(TwoTags(), Credential(Aes128Gcm, Zeros(32)), salt) == Aead.Tagged(Zeros(16))
  {
  }

  /** 59 bytes, where each key reads its tag. */
  function TwoFronts(): (buf: Bytes)
    ensures |buf| == 59
  {
    Zeros(32) + [1] + Zeros(26)
  }

  lemma FrontsRead()
    ensures TwoFronts()[..43][16..43] == Zeros(16) + ([1] + Zeros(10))
    ensures TwoFronts()[32..59] == ([1] + Zeros(15)) + Zeros(11)
  {
  }

  /** With two credentials of different key lengths a refusal can change, under lawful ciphers: the short key refuses
      43 bytes for their type while the long key waits, and at 59 bytes the long key refuses them for their time. */
  lemma TwoCredentialsUnstable(names: Names)
    ensures var creds := [Credential(Aes256Gcm, Zeros(32)), Credential(Aes128Gcm, Zeros(32))];
      && AllValid(creds)
      && ParseSpec(TwoTags(), TwoFronts()[..43], creds, 1000, names) == Err(UnsupportedVersion(0))
      && ParseSpec(TwoTags(), TwoFronts(), creds, 1000, names) == Err(AuthFailed)
  {
    var long, short := Credential(Aes256Gcm, Zeros(32)), Credential(Aes128Gcm, Zeros(32));
    FrontsRead();
    hide TwoTags, TwoFronts, RequestCipher, OpenedFixed;
    var buf := TwoFronts();
    TheirCiphers(buf[..43][..16]);
    TheirCiphers(buf[..32]);
    OpensTo(TwoTags(), buf[..43], short, Zeros(16), [1] + Zeros(10));
    OpensTo(TwoTags(), buf, long, [1] + Zeros(15), Zeros(11));
    WrongType(TwoTags(), buf[..43], short, 1000, names);
    ShortWaits(TwoTags(), buf[..43], long, 1000, names);
    OldTime(TwoTags(), buf, long, names);
    hide Try;
    WaitThenFail(TwoTags(), buf[..43], long, short, UnsupportedVersion(0), 1000, names);
  }

  lemma OpensTo(x: Crypto, buf: Bytes, cred: Credential, tag: Bytes, fixed: Bytes)
    requires x.Valid() && cred.Valid() && |buf| >= FixedEnd(cred) && |tag| == Aead.TAG
    requires RequestCipher(x, cred, buf[..KeyLen(cred.suite)]) == Aead.Tagged(tag)
    requires buf[KeyLen(cred.suite)..FixedEnd(cred)] == tag + fixed
    ensures OpenedFixed(x, buf, cred) == Some(fixed)
  {
    assert (tag + fixed)[..Aead.TAG] == tag && (tag + fixed)[Aead.TAG..] == fixed;
  }

  lemma WaitThenFail(x: Crypto, buf: Bytes, first: Credential, second: Credential, e: ProtocolError, now: nat,
                     names: Names)
    requires x.Valid() && first.Valid() && second.Valid()
    requires Try(x, buf, first, now, names) == Wait && Try(x, buf, second, now, names) == Fail(e)
    ensures ParseSpec(x, buf, [first, second], now, names) == Err(e)
  {
    hide Try;
    assert ParseFrom(x, buf, [first, second], 1, true, now, names) == Err(e);
  }

  lemma ShortWaits(x: Crypto, buf: Bytes, cred: Credential, now: nat, names: Names)
    requires x.Valid() && cred.Valid() && |buf| < FixedEnd(cred)
    ensures Try(x, buf, cred, now, names) == Wait
  {
  }

  lemma WrongType(x: Crypto, buf: Bytes, cred: Credential, now: nat, names: Names)
    requires x.Valid() && cred.Valid() && |buf| >= FixedEnd(cred) && OpenedFixed(x, buf, cred) == Some([1] + Zeros(10))
    ensures Try(x, buf, cred, now, names) == Fail(UnsupportedVersion(0))
  {
    hide Open, RequestCipher;
    assert FixedAt([1] + Zeros(10), now) == Err(UnsupportedVersion(0));
  }

  lemma OldTime(x: Crypto, buf: Bytes, cred: Credential, names: Names)
    requires x.Valid() && cred.Valid() && |buf| >= FixedEnd(cred) && OpenedFixed(x, buf, cred) == Some(Zeros(11))
    ensures Try(x, buf, cred, 1000, names) == Fail(AuthFailed)
  {
    hide Open, RequestCipher, BeNat;
    assert Zeros(11)[1..9] == Zeros(8);
    BeNatOfZeros(8);
    assert FixedAt(Zeros(11), 1000) == Err(AuthFailed);
  }

  /** A written request for port 0 of 0.0.0.0, its salt all zeros, under the long key. */
  function LongRequest(now: nat): Wire {
    Wire(Zeros(32), now, V4(Zeros(4)), 0, [], [])
  }

  /** Of the salt and the sealed fixed part behind it, the bytes that the short key opens. */
  lemma FrontShows(tag: Bytes, fixed: Bytes, rest: Bytes)
    requires |tag| == Aead.TAG && |fixed| == FIXED_HEADER_LEN
    ensures (Zeros(32) + (tag + fixed) + rest)[..43][16..43] == Zeros(16) + tag[..11]
  {
    assert (Zeros(32) + (tag + fixed) + rest)[..43] == Zeros(32) + tag[..11];
    assert (Zeros(32) + tag[..11])[16..43] == Zeros(16) + tag[..11];
  }

  /** The short key reads its tag of zeros in the salt, and the long key's tag as the fixed part. */
  lemma LongRequestFront(now: nat, names: Names)
    requires now < Pow256(8)
    ensures LongRequest(now).Writable(names)
    ensures var wire := Print(TwoTags(), Credential(Aes256Gcm, Zeros(32)), LongRequest(now), names);
      |wire| > 43 && wire[..43][16..43] == Zeros(16) + ([1] + Zeros(10))
  {
    hide Pow256, PrintFixed;
    var w := LongRequest(now);
    FixedLen(w, |PrintVariable(w)|);
    var tag: Bytes := [1] + Zeros(15);
    var c := ClientCipher(TwoTags(), Credential(Aes256Gcm, Zeros(32)), w.salt);
    assert c == Aead.Tagged(tag);
    FrontShows(tag, PrintFixed(w, |PrintVariable(w)|), Seal(c, 1, PrintVariable(w)));
    assert tag[..11] == [1] + Zeros(10);
  }

  /** A refusal can even become a request: a written request of the long key is refused at 43 bytes, for the type that
      the short key reads there, and accepted when it is whole. */
  lemma RefusedThenAccepted(now: nat, names: Names)
    requires now < Pow256(8)
    ensures var creds := [Credential(Aes256Gcm, Zeros(32)), Credential(Aes128Gcm, Zeros(32))];
      && AllValid(creds) && LongRequest(now).Writable(names)
      && var wire := Print(TwoTags(), creds[0], LongRequest(now), names);
         && |wire| > 43
         && ParseSpec(TwoTags(), wire[..43], creds, now, names) == Err(UnsupportedVersion(0))
         && ParseSpec(TwoTags(), wire, creds, now, names).Ok?
         && ParseSpec(TwoTags(), wire, creds, now, names).value.user == 0
  {
    hide Pow256, BeBytes, TwoTags, RequestCipher, ClientCipher, OpenedFixed, Print, Aead.Cipher.Lawful;
    var long, short, w := Credential(Aes256Gcm, Zeros(32)), Credential(Aes128Gcm, Zeros(32)), LongRequest(now);
    LongRequestFront(now, names);
    var wire := Print(TwoTags(), long, w, names);
    TheirCiphers(wire[..43][..16]);
    OpensTo(TwoTags(), wire[..43], short, Zeros(16), [1] + Zeros(10));
    WrongType(TwoTags(), wire[..43], short, now, names);
    ShortWaits(TwoTags(), wire[..43], long, now, names);
    LongLawful(w.salt);
    TryReads(TwoTags(), long, w, now, names, []);
    assert wire + [] == wire;
    hide Try;
    WaitThenFail(TwoTags(), wire[..43], long, short, UnsupportedVersion(0), now, names);
  }

  lemma LongLawful(salt: Bytes)
    ensures ClientCipher(TwoTags(), Credential(Aes256Gcm, Zeros(32)), salt).Lawful()
  {
    hide TwoTags, Aead.Cipher.Lawful;
  }
}
