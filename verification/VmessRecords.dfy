/** The VMess decoder on any wire at all: what it makes of one record, and of all of them. */
module VmessRecords {
  import opened Wrappers
  import opened Bits
  import opened Aead
  import opened VmessSpec
  import opened VmessProofs

  /** A decoder that has opened `n` chunks and has `pending` before it. */
  function At(k: Key, n: nat, pending: Bytes): DecState {
    InStep(EncAfter(k, EncState(0, 0), n), pending)
  }

  // ---- one record ----

  /** The size that the first two bytes of record number `n` state: high byte first, unmasked. */
  function SizeIn(k: Key, n: nat, wire: Bytes): nat
    requires |wire| >= 2
  {
    var hi: nat, lo: nat := wire[0], wire[1];
    XorBits(256 * hi + lo, MaskOf(k, n), 16)
  }

  /** There is room for tag and padding, and not for more than 17408 bytes. */
  predicate SizeFits(k: Key, n: nat, wire: Bytes)
    requires |wire| >= 2
  {
    16 + PaddingOf(k, n) <= SizeIn(k, n, wire) <= 17408
  }

  /** What the record's bytes up to its padding open to, under its number in front of bytes 2 to 11 of the IV. */
  function Content(k: Key, n: nat, wire: Bytes): Option<Bytes>
    requires |k.iv| == 16 && |wire| >= 2 && SizeFits(k, n, wire) && |wire| >= 2 + SizeIn(k, n, wire)
  {
    k.cipher.open([n / 256 % 256, n % 256] + k.iv[2..12], wire[2..2 + SizeIn(k, n, wire) - PaddingOf(k, n)])
  }

  /** What stands at the front of a wire: a record with its length and plaintext, less than a record, the end marker,
      a size that is out of bounds, or what does not authenticate. */
  datatype Front = Record(len: nat, plain: Bytes) | Cut | End | BadSize | Forged

  function FrontOf(k: Key, n: nat, wire: Bytes): Front
    requires |k.iv| == 16
  {
    if |wire| < 2 then Cut
    else if !SizeFits(k, n, wire) then BadSize
    else if |wire| < 2 + SizeIn(k, n, wire) then Cut
    else
      match Content(k, n, wire)
      case None => Forged
      case Some(plain) => if plain == [] then End else Record(2 + SizeIn(k, n, wire), plain)
  }

  /** How a run of the decoder ended; it ends with no other error. */
  function EndOf(o: Outcome<DecState>): Front {
    match o.error
    case Some(LengthExceeded) => BadSize
    case Some(Auth) => Forged
    case Some(_) => Record(0, [])
    case None => if o.state.finished then End else Cut
  }

  lemma HeadIs(k: Key, n: nat, wire: Bytes)
    requires |k.iv| == 16 && |wire| >= 2
    ensures var s := Peek(k, At(k, n, wire));
      && s.pending == wire && s.peeked == Some((PaddingOf(k, n), MaskOf(k, n)))
      && s.counter == EncAfter(k, EncState(0, 0), n).counter && !s.finished
      && s.words == EncAfter(k, EncState(0, 0), n).words + WordsPerChunk(k.framing)
      && SizeOf(s) == SizeIn(k, n, wire) && SizeAllowed(s) == SizeFits(k, n, wire)
  {
    NumberedFraming(k, n);
    hide EncAfter, FramingAt, PaddingOf, MaskOf, XorBits, WordsPerChunk;
  }

  lemma NextAt(k: Key, n: nat, wire: Bytes)
    requires |k.iv| == 16 && |wire| >= 2 && |wire| >= 2 + SizeIn(k, n, wire)
    ensures var s := Peek(k, At(k, n, wire));
      && |s.pending| >= 2 && s.peeked.Some? && |s.pending| >= 2 + SizeOf(s)
      && Committed(s) == At(k, n + 1, wire[2 + SizeIn(k, n, wire)..])
  {
    HeadIs(k, n, wire);
    hide SizeIn, SizeFits, SizeOf, SizeAllowed, WordsPerChunk, Peek;
    assert EncAfter(k, EncState(0, 0), n + 1) == NextEnc(k, EncAfter(k, EncState(0, 0), n));
  }

  lemma ContentIs(k: Key, n: nat, wire: Bytes)
    requires |k.iv| == 16 && |wire| >= 2 && SizeFits(k, n, wire) && |wire| >= 2 + SizeIn(k, n, wire)
    ensures var s := Peek(k, At(k, n, wire));
      && |s.pending| >= 2 && s.peeked.Some? && SizeAllowed(s) && |s.pending| >= 2 + SizeOf(s)
      && Opened(k, s) == Content(k, n, wire)
  {
    HeadIs(k, n, wire);
    NumberedNonce(k, n);
    hide SizeIn, SizeFits, SizeOf, SizeAllowed, Peek, EncAfter, NonceFor, PaddingOf, MaskOf;
  }

  /** What the decoder does with the front of any wire. */
  lemma FrontDecodes(k: Key, n: nat, wire: Bytes)
    requires |k.iv| == 16
    ensures var o := Run(k, At(k, n, wire));
      match FrontOf(k, n, wire)
      case Record(len, plain) => len <= |wire| && o == Prepend([plain], Run(k, At(k, n + 1, wire[len..])))
      case end => o.chunks == [] && EndOf(o) == end
  {
    if |wire| < 2 {
    } else if SizeFits(k, n, wire) && |wire| >= 2 + SizeIn(k, n, wire) {
      WholeDecodes(k, n, wire);
    } else {
      CutDecodes(k, n, wire);
    }
    hide SizeIn, SizeFits, Content, Run;
  }

  /** Less than a record, or a size out of bounds. */
  lemma CutDecodes(k: Key, n: nat, wire: Bytes)
    requires |k.iv| == 16 && |wire| >= 2 && (!SizeFits(k, n, wire) || |wire| < 2 + SizeIn(k, n, wire))
    ensures var o := Run(k, At(k, n, wire));
      o.chunks == [] && EndOf(o) == if SizeFits(k, n, wire) then Cut else BadSize
  {
    HeadIs(k, n, wire);
    hide SizeIn, SizeFits, SizeOf, SizeAllowed, Committed, Opened, EncAfter, PaddingOf, MaskOf, WordsPerChunk;
  }

  /** All of a record. */
  lemma WholeDecodes(k: Key, n: nat, wire: Bytes)
    requires |k.iv| == 16 && |wire| >= 2 && SizeFits(k, n, wire) && |wire| >= 2 + SizeIn(k, n, wire)
    ensures var o := Run(k, At(k, n, wire));
      match Content(k, n, wire)
      case None => o.chunks == [] && EndOf(o) == Forged
      case Some(plain) =>
        if plain == [] then o.chunks == [] && EndOf(o) == End
        else o == Prepend([plain], Run(k, At(k, n + 1, wire[2 + SizeIn(k, n, wire)..])))
  {
    HeadIs(k, n, wire);
    NextAt(k, n, wire);
    ContentIs(k, n, wire);
    hide SizeIn, SizeFits, SizeOf, SizeAllowed, Peek, At, Committed, Opened, Content;
    if Content(k, n, wire).Some? && Content(k, n, wire).value != [] {
      RunStep(k, At(k, n, wire));
    }
  }

  // ---- all of them ----

  /** Records from number `n` on, with their plaintexts; none of them is the end marker. */
  ghost predicate Records(k: Key, n: nat, records: seq<Bytes>, plains: seq<Bytes>)
    requires |k.iv| == 16
    decreases |records|
  {
    if records == [] then plains == []
    else
      && plains != [] && FrontOf(k, n, records[0]) == Record(|records[0]|, plains[0])
      && Records(k, n + 1, records[1..], plains[1..])
  }

  /** The front of a wire is told by the record alone. */
  lemma FrontAlone(k: Key, n: nat, wire: Bytes, more: Bytes)
    requires |k.iv| == 16 && FrontOf(k, n, wire).Record? && FrontOf(k, n, wire).len <= |wire|
    ensures var len := FrontOf(k, n, wire).len;
      FrontOf(k, n, wire[..len] + more) == FrontOf(k, n, wire[..len]) == FrontOf(k, n, wire)
  {
    hide PaddingOf, MaskOf, XorBits;
    var len := FrontOf(k, n, wire).len;
    var cut := wire[..len];
    assert SizeIn(k, n, cut) == SizeIn(k, n, wire) == SizeIn(k, n, cut + more);
    assert cut[2..len - PaddingOf(k, n)] == wire[2..len - PaddingOf(k, n)] == (cut + more)[2..len - PaddingOf(k, n)];
  }

  lemma RecordLen(k: Key, n: nat, wire: Bytes)
    requires |k.iv| == 16 && FrontOf(k, n, wire).Record?
    ensures 2 <= FrontOf(k, n, wire).len <= |wire|
  {
    hide SizeIn, SizeFits, Content;
  }

  /** Whatever the wire, it is records that open to what the decoder puts out, and then what the decoder stops at. */
  lemma {:induction false} WireIsRecords(k: Key, n: nat, wire: Bytes) returns (records: seq<Bytes>, rest: Bytes)
    requires |k.iv| == 16
    ensures var o := Run(k, At(k, n, wire));
      && Records(k, n, records, o.chunks) && wire == Concat(records) + rest
      && FrontOf(k, n + |records|, rest) == EndOf(o)
    decreases |wire|
  {
    hide FrontOf, Run, At;
    FrontDecodes(k, n, wire);
    match FrontOf(k, n, wire) {
      case Record(len, plain) =>
        RecordLen(k, n, wire);
        FrontAlone(k, n, wire, []);
        var later, last := WireIsRecords(k, n + 1, wire[len..]);
        records, rest := [wire[..len]] + later, last;
        assert records[1..] == later && records[0] == wire[..len];
        assert wire == wire[..len] + wire[len..];
        var o := Run(k, At(k, n + 1, wire[len..]));
        assert ([plain] + o.chunks)[1..] == o.chunks;
      case _ =>
        records, rest := [], wire;
    }
  }

  /** And the other way round: records open to their plaintexts, whatever stands in their padding. */
  lemma {:induction false} RecordsDecode(k: Key, n: nat, records: seq<Bytes>, plains: seq<Bytes>, rest: Bytes)
    requires |k.iv| == 16 && Records(k, n, records, plains) && !FrontOf(k, n + |records|, rest).Record?
    ensures var o := Run(k, At(k, n, Concat(records) + rest));
      o.chunks == plains && EndOf(o) == FrontOf(k, n + |records|, rest)
    decreases |records|
  {
    hide FrontOf, Run, At;
    var wire := Concat(records) + rest;
    FrontDecodes(k, n, wire);
    if records == [] {
      assert wire == rest;
    } else {
      var first, later := records[0], Concat(records[1..]) + rest;
      assert wire == first + later && first[..|first|] == first;
      RecordLen(k, n, first);
      FrontAlone(k, n, first, later);
      assert wire[|first|..] == later;
      RecordsDecode(k, n + 1, records[1..], plains[1..], rest);
      assert plains == [plains[0]] + plains[1..];
    }
  }

  lemma NoRecordEnds(k: Key, n: nat, rest: Bytes, o: Outcome<DecState>)
    requires |k.iv| == 16 && FrontOf(k, n, rest) == EndOf(o)
    ensures !EndOf(o).Record?
  {
    if EndOf(o).Record? {
      RecordLen(k, n, rest);
    }
  }

  lemma FromStart(k: Key, wire: Bytes)
    requires |k.iv| == 16
    ensures Decode(k, Start([]), wire) == Run(k, At(k, 0, wire))
  {
    hide Run;
    assert EncAfter(k, EncState(0, 0), 0) == EncState(0, 0);
    assert [] + wire == wire;
  }

  /** The decoder from the start of a stream: it puts out `plains` and ends like `end` exactly if the wire is records
      with these plaintexts, numbered from 0 without gap, and then what ends like it. */
  lemma DecodedIff(k: Key, wire: Bytes, plains: seq<Bytes>, end: Front)
    requires |k.iv| == 16
    ensures var o := Decode(k, Start([]), wire);
      o.chunks == plains && EndOf(o) == end
      <==> exists records: seq<Bytes>, rest :: Records(k, 0, records, plains) && wire == Concat(records) + rest
                                   && FrontOf(k, |records|, rest) == end && !end.Record?
  {
    hide FrontOf, Run, At, Records, Decode, Concat;
    FromStart(k, wire);
    var o := Run(k, At(k, 0, wire));
    if o.chunks == plains && EndOf(o) == end {
      var records, rest := WireIsRecords(k, 0, wire);
      NoRecordEnds(k, |records|, rest, o);
    }
    forall records: seq<Bytes>, rest | Records(k, 0, records, plains) && wire == Concat(records) + rest
                           && FrontOf(k, |records|, rest) == end && !end.Record?
      ensures o.chunks == plains && EndOf(o) == end
    {
      RecordsDecode(k, 0, records, plains, rest);
    }
  }

  /** After the end marker nothing is read any more. */
  lemma EndIsFinal(k: Key, n: nat, wire: Bytes, more: Bytes)
    requires |k.iv| == 16 && FrontOf(k, n, wire) == End
    ensures var o := Run(k, At(k, n, wire)); o.error.None? && Decode(k, o.state, more) == Outcome(o.state, [], None)
  {
    FrontDecodes(k, n, wire);
    hide FrontOf, Run, At;
  }
}
