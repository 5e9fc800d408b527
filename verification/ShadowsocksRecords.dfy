/** The Shadowsocks decoder on any wire at all: what it makes of one record, and of all of them. */
module ShadowsocksRecords {
  import opened Wrappers
  import opened Aead
  import opened ShadowsocksSpec
  import opened ShadowsocksProofs

  /** A decoder between chunks that has done `n` operations and has `pending` before it. */
  function At(n: nat, pending: Bytes): DecState {
    DecState(n, pending, None)
  }

  // ---- one record ----

  /** What stands at the front of a wire: a record with its length and plaintext, less than a record, a length of zero,
      or what does not authenticate. */
  datatype Front = Record(len: nat, plain: Bytes) | Cut | BadSize | Forged

  /** What number `n` opens the first 18 bytes to: the length of the body, high byte first. */
  function SizeIn(c: Cipher, n: nat, wire: Bytes): Option<nat>
    requires c.LengthsMatch() && |wire| >= 18
  {
    match c.open(NumberedNonce(n), wire[..18])
    case None => None
    case Some(plain) => var hi: nat, lo: nat := plain[0], plain[1]; Some(256 * hi + lo)
  }

  /** The length under one number, and the body with its tag under the next. */
  function FrontOf(c: Cipher, n: nat, wire: Bytes): Front
    requires c.LengthsMatch()
  {
    if |wire| < 18 then Cut
    else
      match SizeIn(c, n, wire)
      case None => Forged
      case Some(size) =>
        if size == 0 then BadSize
        else if |wire| < 18 + size + 16 then Cut
        else
          match c.open(NumberedNonce(n + 1), wire[18..18 + size + 16])
          case None => Forged
          case Some(plain) => Record(34 + size, plain)
  }

  /** How a run of the decoder ended; it ends with no other error. */
  function EndOf(o: Outcome<DecState>): Front {
    match o.error
    case Some(LengthExceeded) => BadSize
    case Some(Auth) => Forged
    case Some(_) => Record(0, [])
    case None => Cut
  }

  /** The first operation. */
  lemma SizeDecodes(c: Cipher, n: nat, wire: Bytes)
    requires c.LengthsMatch() && |wire| >= 18
    ensures var o := Run(c, At(n, wire));
      match SizeIn(c, n, wire)
      case None => o.chunks == [] && o.error == Some(Auth)
      case Some(size) =>
        if size == 0 then o.chunks == [] && o.error == Some(LengthExceeded)
        else o == Run(c, DecState(n + 1, wire[18..], Some(size)))
  {
    NonceIsNumbered(n);
    hide NonceFor, NumberedNonce;
    var s := At(n, wire);
    if Opened(c, s).Some? {
      OpenedLength(c, s);
    }
  }

  /** The second. */
  lemma BodyDecodes(c: Cipher, n: nat, wire: Bytes, size: nat)
    requires c.LengthsMatch() && |wire| >= size + 16
    ensures var o := Run(c, DecState(n, wire, Some(size)));
      match c.open(NumberedNonce(n), wire[..size + 16])
      case None => o.chunks == [] && o.error == Some(Auth)
      case Some(plain) => o == Prepend([plain], Run(c, At(n + 1, wire[size + 16..])))
  {
    NonceIsNumbered(n);
    hide NonceFor, NumberedNonce;
    var s := DecState(n, wire, Some(size));
    if Opened(c, s).Some? {
      RunStep(c, s);
    }
  }

  /** What the decoder does with the front of any wire. */
  lemma FrontDecodes(c: Cipher, n: nat, wire: Bytes)
    requires c.LengthsMatch()
    ensures var o := Run(c, At(n, wire));
      match FrontOf(c, n, wire)
      case Record(len, plain) => len <= |wire| && o == Prepend([plain], Run(c, At(n + 2, wire[len..])))
      case end => o.chunks == [] && EndOf(o) == end
  {
    if |wire| < 18 {
      hide NumberedNonce, SizeIn, Cipher.LengthsMatch;
    } else {
      SizeDecodes(c, n, wire);
      if SizeIn(c, n, wire).Some? && SizeIn(c, n, wire).value > 0 {
        AnnouncedDecodes(c, n, wire, SizeIn(c, n, wire).value);
      }
      hide NumberedNonce, SizeIn, Run, Cipher.LengthsMatch;
    }
  }

  /** The body behind a length. */
  lemma AnnouncedDecodes(c: Cipher, n: nat, wire: Bytes, size: nat)
    requires c.LengthsMatch() && |wire| >= 18
    ensures var o := Run(c, DecState(n + 1, wire[18..], Some(size)));
      if |wire| < 34 + size then o.chunks == [] && o.error.None?
      else
        match c.open(NumberedNonce(n + 1), wire[18..34 + size])
        case None => o.chunks == [] && o.error == Some(Auth)
        case Some(plain) => o == Prepend([plain], Run(c, At(n + 2, wire[34 + size..])))
  {
    hide NumberedNonce, Cipher.LengthsMatch;
    var body := wire[18..];
    if |wire| >= 34 + size {
      hide Run;
      BodyDecodes(c, n + 1, body, size);
      assert body[..size + 16] == wire[18..34 + size] && body[size + 16..] == wire[34 + size..];
    }
  }

  // ---- all of them ----

  /** Records from operation `n` on, with their plaintexts. */
  ghost predicate Records(c: Cipher, n: nat, records: seq<Bytes>, plains: seq<Bytes>)
    requires c.LengthsMatch()
    decreases |records|
  {
    if records == [] then plains == []
    else
      && plains != [] && FrontOf(c, n, records[0]) == Record(|records[0]|, plains[0])
      && Records(c, n + 2, records[1..], plains[1..])
  }

  /** The front of a wire is told by the record alone. */
  lemma FrontAlone(c: Cipher, n: nat, wire: Bytes, more: Bytes)
    requires c.LengthsMatch() && FrontOf(c, n, wire).Record?
    ensures var len := FrontOf(c, n, wire).len;
      2 <= len <= |wire| && FrontOf(c, n, wire[..len] + more) == FrontOf(c, n, wire[..len]) == FrontOf(c, n, wire)
  {
    hide NumberedNonce, Cipher.LengthsMatch;
    var len := FrontOf(c, n, wire).len;
    var cut := wire[..len];
    assert cut[..18] == wire[..18] == (cut + more)[..18];
    assert cut[18..len] == wire[18..len] == (cut + more)[18..len];
  }

  /** Whatever the wire, it is records that open to what the decoder puts out, and then what the decoder stops at. */
  lemma {:induction false} WireIsRecords(c: Cipher, n: nat, wire: Bytes) returns (records: seq<Bytes>, rest: Bytes)
    requires c.LengthsMatch()
    ensures var o := Run(c, At(n, wire));
      && Records(c, n, records, o.chunks) && wire == Concat(records) + rest
      && FrontOf(c, n + 2 * |records|, rest) == EndOf(o)
    decreases |wire|
  {
    hide FrontOf, Run, At, Cipher.LengthsMatch;
    FrontDecodes(c, n, wire);
    match FrontOf(c, n, wire) {
      case Record(len, plain) =>
        FrontAlone(c, n, wire, []);
        var later, last := WireIsRecords(c, n + 2, wire[len..]);
        records, rest := [wire[..len]] + later, last;
        assert records[1..] == later && records[0] == wire[..len];
        assert wire == wire[..len] + wire[len..];
        var o := Run(c, At(n + 2, wire[len..]));
        assert ([plain] + o.chunks)[1..] == o.chunks;
      case _ =>
        records, rest := [], wire;
    }
  }

  /** And the other way round: records open to their plaintexts. */
  lemma {:induction false} RecordsDecode(c: Cipher, n: nat, records: seq<Bytes>, plains: seq<Bytes>, rest: Bytes)
    requires c.LengthsMatch() && Records(c, n, records, plains) && !FrontOf(c, n + 2 * |records|, rest).Record?
    ensures var o := Run(c, At(n, Concat(records) + rest));
      o.chunks == plains && EndOf(o) == FrontOf(c, n + 2 * |records|, rest)
    decreases |records|
  {
    hide FrontOf, Run, At, Cipher.LengthsMatch;
    var wire := Concat(records) + rest;
    FrontDecodes(c, n, wire);
    if records == [] {
      assert wire == rest;
    } else {
      var first, later := records[0], Concat(records[1..]) + rest;
      assert wire == first + later && first[..|first|] == first;
      FrontAlone(c, n, first, later);
      assert wire[|first|..] == later;
      RecordsDecode(c, n + 2, records[1..], plains[1..], rest);
      assert plains == [plains[0]] + plains[1..];
    }
  }

  /** The decoder from operation `n` on: it puts out `plains` and ends like `end` exactly if the wire is records with
      these plaintexts, under numbers without gap, and then what ends like it. */
  lemma DecodedIff(c: Cipher, n: nat, wire: Bytes, plains: seq<Bytes>, end: Front)
    requires c.LengthsMatch()
    ensures var o := Decode(c, DecState(n, [], None), wire);
      o.chunks == plains && EndOf(o) == end
      <==> exists records: seq<Bytes>, rest :: Records(c, n, records, plains) && wire == Concat(records) + rest
                                               && FrontOf(c, n + 2 * |records|, rest) == end && !end.Record?
  {
    assert [] + wire == wire;
    assert Decode(c, DecState(n, [], None), wire) == Run(c, At(n, wire));
    hide FrontOf, Run, At, Records, Decode, Concat, Cipher.LengthsMatch;
    var o := Run(c, At(n, wire));
    if o.chunks == plains && EndOf(o) == end {
      var records, rest := WireIsRecords(c, n, wire);
    }
    forall records: seq<Bytes>, rest | Records(c, n, records, plains) && wire == Concat(records) + rest
                                       && FrontOf(c, n + 2 * |records|, rest) == end && !end.Record?
      ensures o.chunks == plains && EndOf(o) == end
    {
      RecordsDecode(c, n, records, plains, rest);
    }
  }
}
