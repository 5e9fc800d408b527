/** What the VMess parser accepts is what a client sends: a timely identifier of a user and a sealed header that holds a
    written one. */
module VmessAccepted {
  import opened Wrappers
  import opened Bits
  import opened Reader
  import opened Addr
  import opened VmessHeader

  // ---- the identifier ----

  /** Dropping the last bytes of a number drops its last digits. */
  lemma {:induction false} DigitsDropped(b: Bytes, i: nat)
    requires i <= |b|
    ensures ByteShift(BeNat(b), i) == BeNat(b[..|b| - i])
  {
    if i == 0 {
      assert b[..|b|] == b;
    } else {
      DigitsDropped(b, i - 1);
      BeNatNext(b, |b| - i);
    }
  }

  lemma TimeBound(b: Bytes)
    requires |b| == 8
    ensures BeNat(b) < 0x1_0000_0000_0000_0000
  {
    DigitsDropped(b, 8);
    hide BeNat;
    ByteShifts(BeNat(b));
    hide ByteShift;
  }

  lemma TimeByte(b: Bytes, n: nat)
    requires |b| == 8 && n < 8 && BeNat(b) < 0x1_0000_0000_0000_0000
    ensures |TimeBytes(BeNat(b))| == 8 && TimeBytes(BeNat(b))[n] == b[n]
  {
    hide TimeBytes, ByteShift, BeNat;
    TimeDigits(BeNat(b));
    DigitsDropped(b, 7 - n);
    BeNatNext(b, n);
  }

  /** Any eight bytes are those of a time. */
  lemma TimeForth(b: Bytes)
    requires |b| == 8
    ensures BeNat(b) < 0x1_0000_0000_0000_0000 && TimeBytes(BeNat(b)) == b
  {
    hide TimeBytes, BeNat;
    TimeBound(b);
    TimeByte(b, 0);
    forall n | 0 <= n < 8 ensures TimeBytes(BeNat(b))[n] == b[n] {
      TimeByte(b, n);
    }
  }

  lemma IdentifierBack(x: Crypto, cred: Credential, eauth: Bytes) returns (id: AuthId)
    requires x.Valid() && OpenAuthId(x, cred, eauth).Some?
    ensures Encrypts(x, cred, id, eauth) && id.time == OpenAuthId(x, cred, eauth).value
  {
    hide BeNat, TimeBytes;
    var block := x.decryptBlock(cred.authKey, eauth);
    TimeForth(block[..8]);
    id := AuthId(BeNat(block[..8]), block[8..12]);
    TimeDigits(id.time);
    assert id.Bytes() == block[..8] + block[8..12] == block[..12];
    assert block == block[..12] + block[12..16];
  }

  lemma {:induction false} UserBack(x: Crypto, creds: seq<Credential>, eauth: Bytes) returns (id: AuthId)
    requires x.Valid() && FindUser(x, creds, eauth).Some?
    ensures var (user, ts) := FindUser(x, creds, eauth).value;
      && user < |creds| && Encrypts(x, creds[user], id, eauth) && id.time == ts
      && forall j :: user < j < |creds| ==> Rejects(x, creds[j], eauth)
    decreases |creds|
  {
    hide Encrypts, BeNat;
    var last := |creds| - 1;
    if OpenAuthId(x, creds[last], eauth).Some? {
      id := IdentifierBack(x, creds[last], eauth);
    } else {
      assert Rejects(x, creds[last], eauth);
      hide OpenAuthId, Rejects;
      id := UserBack(x, creds[..last], eauth);
    }
  }

  // ---- the header ----

  lemma FrontIsPrinted(body: Bytes, names: Names) returns (w: Wire)
    requires FieldsAt(body, names).Ok?
    ensures |body| >= 40 && U16At(body, 38).Ok? && HostAt(body, 40, VlessKind, names).Ok?
    ensures var end := HostAt(body, 40, VlessKind, names).value.1;
      end + |w.padding| <= |body| && w.padding == body[end..end + |w.padding|] && w.rest == body[end + |w.padding|..]
    ensures |w.bodyIv| == |w.bodyKey| == 16 && |w.padding| < 16 && w.security < 16 && PrintFront(w) == body[..38]
  {
    hide HostAt;
    var command := CommandFromByte(body[37]).value;
    var end, n := HostAt(body, 40, VlessKind, names).value.1, body[35] / 16;
    w := Wire(body[1..17], body[17..33], body[33], body[34], body[end..end + n], body[35] % 16, body[36], command, 0,
              V4(Zeros(4)), body[end + n..]);
    assert 16 * |w.padding| + w.security == body[35] && CommandByte(command) == body[37];
    assert body[..38] == [body[0]] + body[1..17] + body[17..33]
                         + [body[33], body[34], body[35], body[36], body[37]];
  }

  /** Fields that are read have been written. */
  lemma FieldsArePrinted(body: Bytes, names: Names) returns (w: Wire)
    requires FieldsAt(body, names).Ok?
    ensures w.Writable(names) && body == Print(w)
  {
    var front := FrontIsPrinted(body, names);
    hide FieldsAt, U16At, HostAt, PrintFront, PrintPort, PrintAddress, Print;
    var end := HostAt(body, 40, VlessKind, names).value.1;
    PortIsPrinted(body, 38);
    var port := U16At(body, 38).value.0;
    var address := HostIsPrinted(body, 40, VlessKind, names);
    w := front.(port := port, address := address);
    SameFront(front, port, address);
    Assembled(w, body, end, end + |w.padding|);
  }

  lemma Assembled(w: Wire, body: Bytes, m: nat, n: nat)
    requires |w.padding| < 16 && w.security < 16 && w.port < 0x1_0000 && (w.address.Name? ==> |w.address.name| < 256)
    requires 40 <= m <= n <= |body| && PrintFront(w) == body[..38] && PrintPort(w.port) == body[38..40]
    requires PrintAddress(w.address, VlessKind) == body[40..m] && w.padding == body[m..n] && w.rest == body[n..]
    ensures body == Print(w)
  {
    hide PrintFront, PrintPort, PrintAddress;
    assert body == body[..38] + body[38..40] + body[40..m] + body[m..n] + body[n..];
  }

  lemma SameFront(w: Wire, port: nat, address: Address)
    requires |w.padding| < 16 && w.security < 16
    ensures PrintFront(w.(port := port, address := address)) == PrintFront(w)
  {
  }

  lemma HeaderIsPrinted(x: Crypto, header: Bytes, names: Names) returns (w: Wire)
    requires DecodeHeaderSpec(x, header, names).Ok?
    ensures w.Writable(names) && |x.fnv1a(Print(w))| == 4 && header == Checked(x, Print(w))
  {
    hide FieldsAt, Print;
    w := FieldsArePrinted(header[..|header| - 4], names);
    assert header == header[..|header| - 4] + header[|header| - 4..];
  }

  // ---- the whole request ----

  lemma TwoBytes(b: Bytes)
    requires |b| == 2
    ensures BeNat(b) < 0x1_0000 && b == [BeNat(b) / 256 % 256, BeNat(b) % 256]
  {
    assert b[..1] == [b[0]] && [b[0]][..0] == [];
    assert BeNat([b[0]]) == b[0];
  }

  lemma Accepted(x: Crypto, creds: seq<Credential>, now: nat, names: Names, buf: Bytes)
    returns (s: Sent, w: Wire, payload: Bytes)
    requires x.Valid() && ParseSpec(x, buf, creds, now, names).Ok?
    ensures w.Writable(names) && |x.fnv1a(Print(w))| == 4 && buf == s.Bytes() + payload
    ensures var user := ParseSpec(x, buf, creds, now, names).value.user;
      Opens(x, creds, now, s, user, Checked(x, Print(w)))
  {
    hide FindUser, DecodeHeaderSpec, BeNat, Encrypts, Rejects, Print, Checked;
    var (user, len) := PrefixAt(x, buf, creds, now).value;
    var id := UserBack(x, creds, buf[..16]);
    var end := BodyEnd(len);
    s := Sent(id, buf[..16], buf[16..34], buf[34..42], buf[42..end]);
    payload := buf[end..];
    var plain := x.openLength(creds[user].cmdKey, s.eauth, s.nonce, s.sealedLen);
    TwoBytes(plain.value[..2]);
    assert SaysLength(plain, len);
    var header := x.openHeader(creds[user].cmdKey, s.eauth, s.nonce, s.sealedHeader).value;
    w := HeaderIsPrinted(x, header, names);
    assert buf == buf[..16] + buf[16..34] + buf[34..42] + buf[42..end] + buf[end..];
  }

  /** A buffer is a request of `user` exactly when it is what a client of this user sends, with some payload: a timely
      identifier under the user's key, and behind the sealed length a sealed header that holds a written one. Then it
      means what was written. */
  lemma ParsedIff(x: Crypto, creds: seq<Credential>, now: nat, names: Names, buf: Bytes, user: nat)
    requires x.Valid()
    ensures var r := ParseSpec(x, buf, creds, now, names);
      r.Ok? && r.value.user == user
      <==> exists s: Sent, w: Wire, payload: Bytes :: Sends(x, creds, now, names, s, user, w)
                                                      && buf == s.Bytes() + payload
    ensures forall s: Sent, w: Wire, payload: Bytes ::
              Sends(x, creds, now, names, s, user, w) && buf == s.Bytes() + payload ==>
                ParseSpec(x, buf, creds, now, names) == Ok(Request(user, Meaning(w, names), payload))
  {
    hide ParseSpec, Opens, Print, Checked, Sent.Bytes;
    forall s: Sent, w: Wire, payload: Bytes | Sends(x, creds, now, names, s, user, w) && buf == s.Bytes() + payload
      ensures ParseSpec(x, buf, creds, now, names) == Ok(Request(user, Meaning(w, names), payload))
    {
      RoundTrip(x, creds, now, names, s, user, w, payload);
    }
    var r := ParseSpec(x, buf, creds, now, names);
    if r.Ok? && r.value.user == user {
      var s, w, payload := Accepted(x, creds, now, names, buf);
      assert Sends(x, creds, now, names, s, user, w);
    }
  }

  /** What a client of this user sends. */
  ghost predicate Sends(x: Crypto, creds: seq<Credential>, now: nat, names: Names, s: Sent, user: nat, w: Wire)
    requires x.Valid()
  {
    w.Writable(names) && |x.fnv1a(Print(w))| == 4 && Opens(x, creds, now, s, user, Checked(x, Print(w)))
  }
}
