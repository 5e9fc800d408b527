/** Base64: the encoder of share links and the decoder of pre-shared keys (sections 3.5 and 4 of RFC 4648). */
module Base64 {
  import opened Wrappers
  import opened Bits

  /** A value of six bits. */
  type sextet = x: int | 0 <= x < 64

  const PAD: byte := 61

  // ---- the alphabets ----

  /** Letters, digits, then two marks. */
  function CharOf(v: sextet, plus: byte, slash: byte): byte {
    if v < 26 then 65 + v else if v < 52 then 71 + v else if v < 62 then v - 4 else if v == 62 then plus else slash
  }

  function StdChar(v: sextet): byte {
    CharOf(v, 43, 47)
  }

  /** The value of a character of the standard alphabet. */
  function ValueOf(c: byte): Option<sextet> {
    if 65 <= c <= 90 then Some(c - 65)
    else if 97 <= c <= 122 then Some(c - 71)
    else if 48 <= c <= 57 then Some(c + 4)
    else if c == 43 then Some(62)
    else if c == 47 then Some(63)
    else None
  }

  lemma ValueOfChar(v: sextet)
    ensures ValueOf(StdChar(v)) == Some(v)
  {
  }

  lemma CharOfValue(c: byte)
    ensures ValueOf(c).Some? ==> StdChar(ValueOf(c).value) == c
  {
  }

  predicate IsSpace(c: byte) {
    c in {9, 10, 12, 13, 32}
  }

  // ---- encoding ----

  // Three bytes as four values, and back.

  function S0(b0: byte): sextet { b0 / 4 }

  function S1(b0: byte, b1: byte): sextet { b0 % 4 * 16 + b1 / 16 }

  function S2(b1: byte, b2: byte): sextet { b1 % 16 * 4 + b2 / 64 }

  function S3(b2: byte): sextet { b2 % 64 }

  function B0(v0: sextet, v1: sextet): byte { v0 * 4 + v1 / 16 }

  function B1(v1: sextet, v2: sextet): byte { v1 % 16 * 16 + v2 / 4 }

  function B2(v2: sextet, v3: sextet): byte { v2 % 4 * 64 + v3 }

  lemma BytesBack(b0: byte, b1: byte, b2: byte)
    ensures B0(S0(b0), S1(b0, b1)) == b0 && B1(S1(b0, b1), S2(b1, b2)) == b1 && B2(S2(b1, b2), S3(b2)) == b2
    ensures S1(b0, 0) % 16 == 0 && S2(b1, 0) % 4 == 0
  {
  }

  lemma SextetsBack(v0: sextet, v1: sextet, v2: sextet, v3: sextet)
    ensures S0(B0(v0, v1)) == v0 && S1(B0(v0, v1), B1(v1, v2)) == v1 && S2(B1(v1, v2), B2(v2, v3)) == v2
    ensures S3(B2(v2, v3)) == v3
    ensures v1 % 16 == 0 ==> S1(B0(v0, v1), 0) == v1
    ensures v2 % 4 == 0 ==> S2(B1(v1, v2), 0) == v2
  {
  }

  /** Six bits at a time, three bytes to four values; missing bits are zero. */
  function Sextets(b: Bytes): seq<sextet> {
    if b == [] then []
    else if |b| == 1 then [S0(b[0]), S1(b[0], 0)]
    else if |b| == 2 then [S0(b[0]), S1(b[0], b[1]), S2(b[1], 0)]
    else [S0(b[0]), S1(b[0], b[1]), S2(b[1], b[2]), S3(b[2])] + Sextets(b[3..])
  }

  function Chars(vs: seq<sextet>, alphabet: sextet -> byte): (s: Bytes)
    ensures |s| == |vs| && forall i :: 0 <= i < |vs| ==> s[i] == alphabet(vs[i])
  {
    seq(|vs|, i requires 0 <= i < |vs| => alphabet(vs[i]))
  }

  function Padding(n: nat): Bytes {
    match n % 3
    case 0 => []
    case 1 => [PAD, PAD]
    case _ => [PAD]
  }

  function Encoding(b: Bytes, alphabet: sextet -> byte, pad: bool): Bytes {
    Chars(Sextets(b), alphabet) + if pad then Padding(|b|) else []
  }

  /** One group of up to three bytes as a 24-bit number. */
  function Group(b0: nat, b1: nat, b2: nat): nat {
    b0 * 0x1_0000 + b1 * 0x100 + b2
  }

  lemma GroupSextets(b0: byte, b1: byte, b2: byte)
    ensures var n := Group(b0, b1, b2);
      && n / 0x4_0000 % 64 == S0(b0) && n / 0x1000 % 64 == S1(b0, b1)
      && n / 64 % 64 == S2(b1, b2) && n % 64 == S3(b2)
  {
    var n := Group(b0, b1, b2);
    QuotientUnique(n, 0x4_0000, b0 / 4, b0 % 4 * 0x1_0000 + b1 * 0x100 + b2);
    QuotientUnique(n, 0x1000, b0 * 16 + b1 / 16, b1 % 16 * 0x100 + b2);
    QuotientUnique(b0 * 16 + b1 / 16, 64, b0 / 4, b0 % 4 * 16 + b1 / 16);
    QuotientUnique(n, 64, b0 * 1024 + b1 * 4 + b2 / 64, b2 % 64);
    QuotientUnique(b0 * 1024 + b1 * 4 + b2 / 64, 64, b0 * 16 + b1 / 16, b1 % 16 * 4 + b2 / 64);
  }

  /** The characters of one group of at most three bytes. */
  function GroupText(b: Bytes, alphabet: sextet -> byte, pad: bool): Bytes {
    Chars(Sextets(b), alphabet) + if pad then Padding(|b|) else []
  }

  method EncodeGroup(group: Bytes, alphabet: sextet -> byte, pad: bool) returns (out: Bytes)
    requires 0 < |group| <= 3
    ensures out == GroupText(group, alphabet, pad)
  {
    hide Group, S0, S1, S2, S3;
    var b0: byte, b1: byte := group[0], if |group| > 1 then group[1] else 0;
    var b2: byte := if |group| > 2 then group[2] else 0;
    var n := Group(b0, b1, b2);
    GroupSextets(b0, b1, b2);
    out := [alphabet(n / 0x4_0000 % 64)];
    out := out + [alphabet(n / 0x1000 % 64)];
    if |group| > 1 {
      out := out + [alphabet(n / 64 % 64)];
    } else if pad {
      out := out + [PAD];
    }
    if |group| > 2 {
      out := out + [alphabet(n % 64)];
    } else if pad {
      out := out + [PAD];
    }
    if |group| == 1 {
      GroupOfOne(group, alphabet);
    } else if |group| == 2 {
      GroupOfTwo(group, alphabet);
    } else {
      GroupOfThree(group, alphabet);
    }
  }

  lemma CharsOfTwo(a: sextet, b: sextet, alphabet: sextet -> byte)
    ensures Chars([a, b], alphabet) == [alphabet(a), alphabet(b)]
  {
    var s := Chars([a, b], alphabet);
    assert s[0] == alphabet(a) && s[1] == alphabet(b);
    hide Chars;
    assert s == [s[0], s[1]];
  }

  lemma CharsOfThree(a: sextet, b: sextet, c: sextet, alphabet: sextet -> byte)
    ensures Chars([a, b, c], alphabet) == [alphabet(a), alphabet(b), alphabet(c)]
  {
    assert [a, b, c] == [a, b] + [c];
    CharsOfTwo(a, b, alphabet);
    CharsAppend([a, b], [c], alphabet);
    assert Chars([c], alphabet) == [alphabet(c)];
  }

  lemma CharsOfFour(a: sextet, b: sextet, c: sextet, d: sextet, alphabet: sextet -> byte)
    ensures Chars([a, b, c, d], alphabet) == [alphabet(a), alphabet(b), alphabet(c), alphabet(d)]
  {
    assert [a, b, c, d] == [a, b, c] + [d];
    CharsOfThree(a, b, c, alphabet);
    CharsAppend([a, b, c], [d], alphabet);
    assert Chars([d], alphabet) == [alphabet(d)];
  }

  lemma GroupOfOne(b: Bytes, alphabet: sextet -> byte)
    requires |b| == 1
    ensures Chars(Sextets(b), alphabet) == [alphabet(S0(b[0])), alphabet(S1(b[0], 0))]
  {
    hide S0, S1, S2, S3, Chars;
    assert Sextets(b) == [S0(b[0]), S1(b[0], 0)];
    hide Sextets;
    CharsOfTwo(S0(b[0]), S1(b[0], 0), alphabet);
  }

  lemma GroupOfTwo(b: Bytes, alphabet: sextet -> byte)
    requires |b| == 2
    ensures Chars(Sextets(b), alphabet) == [alphabet(S0(b[0])), alphabet(S1(b[0], b[1])), alphabet(S2(b[1], 0))]
  {
    hide S0, S1, S2, S3, Chars;
    assert Sextets(b) == [S0(b[0]), S1(b[0], b[1]), S2(b[1], 0)];
    hide Sextets;
    CharsOfThree(S0(b[0]), S1(b[0], b[1]), S2(b[1], 0), alphabet);
  }

  lemma GroupOfThree(b: Bytes, alphabet: sextet -> byte)
    requires |b| == 3
    ensures Chars(Sextets(b), alphabet)
         == [alphabet(S0(b[0])), alphabet(S1(b[0], b[1])), alphabet(S2(b[1], b[2])), alphabet(S3(b[2]))]
  {
    hide S0, S1, S2, S3, Chars;
    assert b[3..] == [];
    assert Sextets(b) == [S0(b[0]), S1(b[0], b[1]), S2(b[1], b[2]), S3(b[2])];
    hide Sextets;
    CharsOfFour(S0(b[0]), S1(b[0], b[1]), S2(b[1], b[2]), S3(b[2]), alphabet);
  }

  method EncodeWith(input: Bytes, alphabet: sextet -> byte, pad: bool) returns (out: Bytes)
    ensures out == Encoding(input, alphabet, pad)
  {
    hide Encoding, GroupText;
    NothingEncoded(alphabet, pad);
    out := [];
    var rest := input;
    assert [] + Encoding(input, alphabet, pad) == Encoding(input, alphabet, pad);
    while rest != []
      invariant out + Encoding(rest, alphabet, pad) == Encoding(input, alphabet, pad)
      decreases |rest|
    {
      var group := rest[..if |rest| < 3 then |rest| else 3];
      var text := EncodeGroup(group, alphabet, pad);
      EncodingStep(rest, alphabet, pad);
      assert out + (text + Encoding(rest[|group|..], alphabet, pad))
             == out + text + Encoding(rest[|group|..], alphabet, pad);
      out := out + text;
      rest := rest[|group|..];
    }
  }

  lemma NothingEncoded(alphabet: sextet -> byte, pad: bool)
    ensures Encoding([], alphabet, pad) == []
  {
  }

  /** Encoding one group after another; only the last one is padded. */
  lemma EncodingStep(rest: Bytes, alphabet: sextet -> byte, pad: bool)
    requires rest != []
    ensures var group := rest[..if |rest| < 3 then |rest| else 3];
      Encoding(rest, alphabet, pad) == GroupText(group, alphabet, pad) + Encoding(rest[|group|..], alphabet, pad)
  {
    hide S0, S1, S2, S3;
    NothingEncoded(alphabet, pad);
    if |rest| <= 3 {
      assert rest[..|rest|] == rest && rest[|rest|..] == [];
    } else {
      var group, after := rest[..3], rest[3..];
      assert group[3..] == [];
      assert Sextets(group) == [S0(rest[0]), S1(rest[0], rest[1]), S2(rest[1], rest[2]), S3(rest[2])];
      hide Chars, Padding;
      assert Padding(3) == [] by { NoPadding(); }
      assert Sextets(rest) == Sextets(group) + Sextets(after);
      CharsAppend(Sextets(group), Sextets(after), alphabet);
      SamePadding(|rest|);
    }
  }

  lemma NoPadding()
    ensures Padding(3) == []
  {
  }

  lemma SamePadding(n: nat)
    requires n >= 3
    ensures Padding(n - 3) == Padding(n)
  {
  }

  lemma CharsAppend(a: seq<sextet>, b: seq<sextet>, alphabet: sextet -> byte)
    ensures Chars(a + b, alphabet) == Chars(a, alphabet) + Chars(b, alphabet)
  {
  }

  // ---- decoding ----

  /** Bytes so far, and the bits left over. */
  datatype Acc = Acc(out: Bytes, rem: nat, bits: nat)

  predicate Sane(a: Acc) {
    a.bits in {0, 2, 4, 6} && a.rem < Pow2(a.bits)
  }

  /** Six more bits, and a byte out if there are eight. */
  function Feed(a: Acc, v: sextet): (r: Acc)
    requires Sane(a)
    ensures Sane(r)
  {
    Powers();
    var rem := a.rem * 64 + v;
    if a.bits == 0 then Acc(a.out, rem, 6)
    else if a.bits == 2 then Acc(a.out + [rem], 0, 0)
    else if a.bits == 4 then Acc(a.out + [rem / 4], rem % 4, 2)
    else Acc(a.out + [rem / 16], rem % 16, 4)
  }

  lemma Powers()
    ensures Pow2(0) == 1 && Pow2(2) == 4 && Pow2(4) == 16 && Pow2(6) == 64 && Pow2(8) == 256 && Pow2(10) == 1024
            && Pow2(12) == 4096
  {
    assert Pow2(4) == 4 * Pow2(2);
    assert Pow2(6) == 4 * Pow2(4);
    assert Pow2(8) == 4 * Pow2(6);
    assert Pow2(10) == 4 * Pow2(8);
    assert Pow2(12) == 4 * Pow2(10);
  }

  function FeedAll(a: Acc, vs: seq<sextet>): (r: Acc)
    requires Sane(a)
    ensures Sane(r)
    decreases |vs|
  {
    if vs == [] then a else FeedAll(Feed(a, vs[0]), vs[1..])
  }

  const EMPTY := Acc([], 0, 0)

  /** The values of a text and whether it has padding; `None` for a foreign character or data after padding. */
  function Scan(s: Bytes, padded: bool): (r: Option<(seq<sextet>, bool)>) {
    if s == [] then
      Some(([], padded))
    else
      var c, rest := s[0], s[1..];
      if IsSpace(c) then Scan(rest, padded)
      else if c == PAD then Scan(rest, true)
      else if padded || ValueOf(c).None? then None
      else
        match Scan(rest, false)
        case None => None
        case Some((vs, p)) => Some(([ValueOf(c).value] + vs, p))
  }

  function DecodeSpec(s: Bytes): Option<Bytes> {
    match Scan(s, false)
    case None => None
    case Some((vs, padded)) =>
      Sane0();
      var a := FeedAll(EMPTY, vs);
      if a.rem != 0 || |vs| % 4 == 1 || (padded && vs == []) then None else Some(a.out)
  }

  lemma Sane0()
    ensures Sane(EMPTY)
  {
  }

  /** `scan` with `done` in front. */
  function After(done: seq<sextet>, scan: Option<(seq<sextet>, bool)>): Option<(seq<sextet>, bool)> {
    match scan
    case None => None
    case Some((vs, p)) => Some((done + vs, p))
  }

  lemma {:induction false} FeedLast(a: Acc, vs: seq<sextet>, v: sextet)
    requires Sane(a)
    ensures FeedAll(a, vs + [v]) == Feed(FeedAll(a, vs), v)
    decreases |vs|
  {
    hide Feed, Sane;
    if vs == [] {
      assert [v][1..] == [];
      assert FeedAll(a, [v]) == FeedAll(Feed(a, v), []);
    } else {
      assert (vs + [v])[1..] == vs[1..] + [v];
      FeedLast(Feed(a, vs[0]), vs[1..], v);
    }
  }

  /** Reducing modulo 2^32 keeps the remainder modulo a divisor of it. */
  lemma ModTwice(x: nat, m: nat, c: nat)
    requires m > 0 && m * c == 0x1_0000_0000
    ensures x % 0x1_0000_0000 % m == x % m
  {
    var q, r := x / 0x1_0000_0000, x % 0x1_0000_0000;
    assert x == m * (c * q + r / m) + r % m by {
      assert x == (m * c) * q + r && r == m * (r / m) + r % m;
      assert (m * c) * q == m * (c * q);
      assert m * (c * q) + m * (r / m) == m * (c * q + r / m);
    }
    QuotientUnique(x, m, c * q + r / m, r % m);
  }

  /** Of `acc` with six more bits, the low bits are those of the remainder with six more bits. */
  lemma LowBits(acc: nat, p: nat, rem: nat, v: sextet, c: nat)
    requires p > 0 && acc % p == rem && 64 * p * c == 0x1_0000_0000
    ensures (acc * 64 + v) % 0x1_0000_0000 % (64 * p) == rem * 64 + v
  {
    ModTwice(acc * 64 + v, 64 * p, c);
    assert acc * 64 + v == (64 * p) * (acc / p) + (rem * 64 + v) by {
      assert acc == p * (acc / p) + rem;
      assert (p * (acc / p)) * 64 == (64 * p) * (acc / p);
    }
    QuotientUnique(acc * 64 + v, 64 * p, acc / p, rem * 64 + v);
  }

  /** A 32-bit accumulator that keeps old bits on top agrees with one that drops them. */
  lemma Accumulate(acc: u32, bits: nat, rem: nat, v: sextet)
    requires bits in {0, 2, 4, 6} && rem < Pow2(bits) && acc % Pow2(bits) == rem
    ensures var wide: u32 := (acc * 64 + v) % 0x1_0000_0000;
      && (bits == 0 ==> wide % 64 == rem * 64 + v)
      && (bits == 2 ==> wide % 0x100 == rem * 64 + v)
      && (bits == 4 ==> wide / 4 % 0x100 == (rem * 64 + v) / 4 && wide % 4 == (rem * 64 + v) % 4)
      && (bits == 6 ==> wide / 16 % 0x100 == (rem * 64 + v) / 16 && wide % 16 == (rem * 64 + v) % 16)
  {
    Powers();
    hide Pow2;
    var wide := (acc * 64 + v) % 0x1_0000_0000;
    if bits == 0 {
      LowBits(acc, 1, rem, v, 0x400_0000);
    } else if bits == 2 {
      LowBits(acc, 4, rem, v, 0x100_0000);
    } else if bits == 4 {
      LowBits(acc, 16, rem, v, 0x40_0000);
      Low(wide, 4);
    } else {
      LowBits(acc, 64, rem, v, 0x10_0000);
      Low(wide, 16);
    }
  }

  /** The middle and low parts of a number. */
  lemma Low(x: nat, m: nat)
    requires m in {4, 16}
    ensures x / m % 0x100 == x % (m * 0x100) / m && x % m == x % (m * 0x100) % m
  {
    var big, low := x / (m * 0x100), x % (m * 0x100);
    QuotientUnique(x, m, 0x100 * big + low / m, low % m);
    QuotientUnique(0x100 * big + low / m, 0x100, big, low / m);
  }

  /** Decode, or refuse; white space is skipped, padding only ends the data. */
  method Decode(input: Bytes) returns (r: Option<Bytes>)
    ensures r == DecodeSpec(input)
  {
    hide Feed, ValueOf, IsSpace, Pow2;
    Powers();
    Sane0();
    var out: Bytes, acc: u32, bits: nat, chars: nat, padded := [], 0, 0, 0, false;
    ghost var done: seq<sextet> := [];
    FedNothing(EMPTY);
    AfterNothing(Scan(input, false));
    assert input[0..] == input;
    for i := 0 to |input|
      invariant bits in {0, 2, 4, 6} && chars == |done|
      invariant FeedAll(EMPTY, done) == Acc(out, acc % Pow2(bits), bits)
      invariant Scan(input, false) == After(done, Scan(input[i..], padded))
    {
      var c := input[i];
      assert input[i..][1..] == input[i + 1..];
      if IsSpace(c) {
        continue;
      }
      if c == PAD {
        padded := true;
        continue;
      }
      if padded {
        return None;
      }
      chars := chars + 1;
      var value := ValueOf(c);
      if value.None? {
        return None;
      }
      ghost var before := Acc(out, acc % Pow2(bits), bits);
      Accumulate(acc, bits, acc % Pow2(bits), value.value);
      FeedLast(EMPTY, done, value.value);
      acc := (acc * 64 + value.value) % 0x1_0000_0000;
      bits := bits + 6;
      if bits >= 8 {
        bits := bits - 8;
        out := out + [acc / Pow2(bits) % 0x100];
      }
      FeedCases(before, value.value);
      AfterNext(done, value.value, Scan(input[i + 1..], false));
      done := done + [value.value];
    }
    assert input[|input|..] == [] && done + [] == done;
    if bits >= 8 || acc % Pow2(bits) != 0 {
      return None;
    }
    if chars % 4 == 1 || (padded && chars == 0) {
      return None;
    }
    return Some(out);
  }

  lemma FeedCases(a: Acc, v: sextet)
    requires Sane(a)
    ensures var rem := a.rem * 64 + v;
      && (a.bits == 0 ==> Feed(a, v) == Acc(a.out, rem, 6))
      && (a.bits == 2 ==> rem < 256 && Feed(a, v) == Acc(a.out + [rem], 0, 0))
      && (a.bits == 4 ==> rem / 4 < 256 && Feed(a, v) == Acc(a.out + [rem / 4], rem % 4, 2))
      && (a.bits == 6 ==> rem / 16 < 256 && Feed(a, v) == Acc(a.out + [rem / 16], rem % 16, 4))
  {
    Powers();
  }

  lemma AfterNothing(scan: Option<(seq<sextet>, bool)>)
    ensures After([], scan) == scan
  {
    if scan.Some? {
      assert [] + scan.value.0 == scan.value.0;
    }
  }

  lemma AfterNext(done: seq<sextet>, v: sextet, scan: Option<(seq<sextet>, bool)>)
    ensures After(done, After([v], scan)) == After(done + [v], scan)
  {
    if scan.Some? {
      assert done + ([v] + scan.value.0) == done + [v] + scan.value.0;
    }
  }

  // ---- what decodes, and to what ----

  /** The text without white space and padding. */
  function Compact(s: Bytes): Bytes {
    if s == [] then [] else if IsSpace(s[0]) || s[0] == PAD then Compact(s[1..]) else [s[0]] + Compact(s[1..])
  }

  predicate HasPad(s: Bytes) {
    PAD in s
  }

  /** After padding there is only white space and more padding. */
  predicate PaddingLast(s: Bytes) {
    s == [] || ((s[0] == PAD ==> Compact(s[1..]) == []) && PaddingLast(s[1..]))
  }

  /** Once padded, a text scans exactly if nothing but white space and padding is left. */
  lemma {:induction false} ScanPadded(s: Bytes)
    ensures Scan(s, true) == if Compact(s) == [] then Some(([], true)) else None
    ensures Compact(s) == [] ==> PaddingLast(s)
  {
    if s != [] {
      ScanPadded(s[1..]);
    }
  }

  /** A text scans to `vs` exactly if, apart from white space and final padding, it is their characters. */
  lemma {:induction false} ScanIff(s: Bytes, vs: seq<sextet>, padded: bool)
    ensures Scan(s, false) == Some((vs, padded)) <==>
      Compact(s) == Chars(vs, StdChar) && PaddingLast(s) && padded == HasPad(s)
  {
    hide ValueOf, StdChar, IsSpace;
    if s != [] {
      var c, rest := s[0], s[1..];
      assert s == [c] + rest;
      if IsSpace(c) {
        assert !IsSpace(PAD) by { NotSpace(0); }
        ScanIff(rest, vs, padded);
      } else if c == PAD {
        ScanPadded(rest);
        NoChars(vs);
      } else {
        assert Compact(s) == [c] + Compact(rest);
        if vs == [] {
        } else {
          ScanIff(rest, vs[1..], padded);
          CharOfValue(c);
          ValueOfChar(vs[0]);
          assert ([c] + Compact(rest))[1..] == Compact(rest);
          assert Chars(vs, StdChar)[1..] == Chars(vs[1..], StdChar);
          assert vs == [vs[0]] + vs[1..];
        }
      }
    } else {
      NoChars(vs);
    }
  }

  lemma NotSpace(v: sextet)
    ensures !IsSpace(PAD) && !IsSpace(StdChar(v)) && StdChar(v) != PAD
  {
  }

  lemma NoChars(vs: seq<sextet>)
    ensures Chars(vs, StdChar) == [] <==> vs == []
  {
  }

  lemma FeedTwo(a: Acc, vs: seq<sextet>)
    requires Sane(a) && |vs| >= 2
    ensures FeedAll(a, vs) == FeedAll(Feed(Feed(a, vs[0]), vs[1]), vs[2..])
  {
    hide Feed, Sane;
    assert vs[1..][1..] == vs[2..];
  }

  lemma FeedFour(a: Acc, vs: seq<sextet>)
    requires Sane(a) && |vs| >= 4
    ensures FeedAll(a, vs) == FeedAll(Feed(Feed(Feed(Feed(a, vs[0]), vs[1]), vs[2]), vs[3]), vs[4..])
  {
    hide Feed, Sane;
    FeedTwo(a, vs);
    FeedTwo(Feed(Feed(a, vs[0]), vs[1]), vs[2..]);
    assert vs[2..][2..] == vs[4..];
  }

  /** The four steps of a group. */
  lemma FeedSteps(out: Bytes, v0: sextet, v1: sextet, v2: sextet, v3: sextet)
    ensures Sane(Acc(out, 0, 0)) && Feed(Acc(out, 0, 0), v0) == Acc(out, v0, 6)
    ensures Sane(Acc(out, v0, 6)) && Feed(Acc(out, v0, 6), v1) == Acc(out + [B0(v0, v1)], v1 % 16, 4)
    ensures Sane(Acc(out, v1 % 16, 4)) && Feed(Acc(out, v1 % 16, 4), v2) == Acc(out + [B1(v1, v2)], v2 % 4, 2)
    ensures Sane(Acc(out, v2 % 4, 2)) && Feed(Acc(out, v2 % 4, 2), v3) == Acc(out + [B2(v2, v3)], 0, 0)
  {
    Powers();
  }

  lemma FedNothing(a: Acc)
    requires Sane(a)
    ensures FeedAll(a, []) == a
  {
  }

  /** Two values at the end make one byte. */
  lemma PairOut(out: Bytes, vs: seq<sextet>)
    requires |vs| == 2
    ensures Sane(Acc(out, 0, 0)) && FeedAll(Acc(out, 0, 0), vs) == Acc(out + [B0(vs[0], vs[1])], vs[1] % 16, 4)
  {
    hide FeedAll, Feed, Sane, B0, B1, B2;
    FeedSteps(out, vs[0], vs[1], 0, 0);
    FeedTwo(Acc(out, 0, 0), vs);
    assert vs[2..] == [];
    FedNothing(Feed(Feed(Acc(out, 0, 0), vs[0]), vs[1]));
  }

  /** Three values at the end make two bytes. */
  lemma TripleOut(out: Bytes, vs: seq<sextet>)
    requires |vs| == 3
    ensures Sane(Acc(out, 0, 0))
    ensures FeedAll(Acc(out, 0, 0), vs) == Acc(out + [B0(vs[0], vs[1]), B1(vs[1], vs[2])], vs[2] % 4, 2)
  {
    hide FeedAll, Feed, Sane, B0, B1, B2;
    var two := out + [B0(vs[0], vs[1])];
    PairOut(out, vs[..2]);
    FeedSteps(out, 0, 0, 0, 0);
    FeedLast(Acc(out, 0, 0), vs[..2], vs[2]);
    assert vs[..2] + [vs[2]] == vs;
    FeedSteps(two, 0, vs[1], vs[2], 0);
    assert two + [B1(vs[1], vs[2])] == out + [B0(vs[0], vs[1]), B1(vs[1], vs[2])];
  }

  /** Four values make three bytes and leave nothing over. */
  lemma QuadOut(out: Bytes, vs: seq<sextet>)
    requires |vs| >= 4
    ensures Sane(Acc(out, 0, 0)) && Sane(Acc(out + [B0(vs[0], vs[1]), B1(vs[1], vs[2]), B2(vs[2], vs[3])], 0, 0))
    ensures FeedAll(Acc(out, 0, 0), vs)
         == FeedAll(Acc(out + [B0(vs[0], vs[1]), B1(vs[1], vs[2]), B2(vs[2], vs[3])], 0, 0), vs[4..])
  {
    hide FeedAll, Feed, Sane, B0, B1, B2;
    var one, two := out + [B0(vs[0], vs[1])], out + [B0(vs[0], vs[1])] + [B1(vs[1], vs[2])];
    FeedSteps(out, vs[0], vs[1], 0, 0);
    FeedSteps(one, 0, vs[1], vs[2], 0);
    FeedSteps(two, 0, 0, vs[2], vs[3]);
    FeedFour(Acc(out, 0, 0), vs);
    var three := out + [B0(vs[0], vs[1]), B1(vs[1], vs[2]), B2(vs[2], vs[3])];
    assert two + [B2(vs[2], vs[3])] == three;
    FeedSteps(three, 0, 0, 0, 0);
  }

  /** Feeding the values of a byte string gives it back with nothing left over. */
  lemma {:induction false} FeedSextets(out: Bytes, b: Bytes)
    ensures Sane(Acc(out, 0, 0))
    ensures var a := FeedAll(Acc(out, 0, 0), Sextets(b)); a.out == out + b && a.rem == 0
    ensures |Sextets(b)| % 4 != 1 && (Sextets(b) == [] <==> b == [])
    decreases |b|
  {
    hide FeedAll, S0, S1, S2, S3, B0, B1, B2;
    var vs := Sextets(b);
    SaneStart(out);
    if b == [] {
      FedNothing(Acc(out, 0, 0));
    } else if |b| == 1 {
      PairOut(out, vs);
      BytesBack(b[0], 0, 0);
    } else if |b| == 2 {
      TripleOut(out, vs);
      BytesBack(b[0], b[1], 0);
    } else {
      QuadOut(out, vs);
      BytesBack(b[0], b[1], b[2]);
      assert vs[4..] == Sextets(b[3..]);
      assert [b[0], b[1], b[2]] == b[..3];
      FeedSextets(out + b[..3], b[3..]);
      assert out + b[..3] + b[3..] == out + b;
    }
  }

  lemma SaneStart(out: Bytes)
    ensures Sane(Acc(out, 0, 0))
  {
  }

  /** Values that leave nothing over are the values of the bytes that came out. */
  lemma {:induction false} SextetsUnique(out: Bytes, vs: seq<sextet>, b: Bytes)
    requires |vs| % 4 != 1
    requires Sane(Acc(out, 0, 0)) && FeedAll(Acc(out, 0, 0), vs).rem == 0 && FeedAll(Acc(out, 0, 0), vs).out == out + b
    ensures vs == Sextets(b)
    decreases |vs|
  {
    hide FeedAll, S0, S1, S2, S3, B0, B1, B2;
    if vs == [] {
      FedNothing(Acc(out, 0, 0));
      SameTail(out, b, []);
    } else if |vs| == 2 {
      PairOut(out, vs);
      SameTail(out, b, [B0(vs[0], vs[1])]);
      SextetsBack(vs[0], vs[1], 0, 0);
    } else if |vs| == 3 {
      TripleOut(out, vs);
      SameTail(out, b, [B0(vs[0], vs[1]), B1(vs[1], vs[2])]);
      SextetsBack(vs[0], vs[1], vs[2], 0);
    } else {
      QuadOut(out, vs);
      var three := [B0(vs[0], vs[1]), B1(vs[1], vs[2]), B2(vs[2], vs[3])];
      OutGrows(Acc(out + three, 0, 0), vs[4..]);
      assert out + three <= out + b;
      assert b[..3] == three by {
        assert (out + b)[|out|..|out| + 3] == three;
      }
      assert out + b == out + three + b[3..];
      SextetsUnique(out + three, vs[4..], b[3..]);
      SextetsBack(vs[0], vs[1], vs[2], vs[3]);
      assert vs == vs[..4] + vs[4..];
    }
  }

  lemma SameTail(out: Bytes, b: Bytes, c: Bytes)
    requires out + b == out + c
    ensures b == c
  {
    assert b == (out + b)[|out|..] && c == (out + c)[|out|..];
  }

  lemma {:induction false} OutGrows(a: Acc, vs: seq<sextet>)
    requires Sane(a)
    ensures a.out <= FeedAll(a, vs).out
    decreases |vs|
  {
    if vs != [] {
      OutGrows(Feed(a, vs[0]), vs[1..]);
    }
  }

  /** A text decodes to `b` exactly if, apart from white space and final padding, it is the unpadded encoding of `b`,
      and padding does not stand alone. */
  lemma DecodeIff(s: Bytes, b: Bytes)
    ensures DecodeSpec(s) == Some(b) <==>
      Compact(s) == Encoding(b, StdChar, false) && PaddingLast(s) && (HasPad(s) ==> b != [])
  {
    hide FeedAll, Sextets, Scan, Compact, PaddingLast;
    Sane0();
    FeedSextets([], b);
    assert [] + b == b;
    assert Encoding(b, StdChar, false) == Chars(Sextets(b), StdChar);
    ScanIff(s, Sextets(b), HasPad(s));
    if DecodeSpec(s) == Some(b) {
      var (vs, padded) := Scan(s, false).value;
      ScanIff(s, vs, padded);
      SextetsUnique([], vs, b);
    }
  }

  lemma {:induction false} CompactChars(vs: seq<sextet>, pads: Bytes)
    requires forall i :: 0 <= i < |pads| ==> pads[i] == PAD
    ensures Compact(Chars(vs, StdChar) + pads) == Chars(vs, StdChar) && PaddingLast(Chars(vs, StdChar) + pads)
    ensures HasPad(Chars(vs, StdChar) + pads) <==> pads != []
    decreases |vs|
  {
    hide StdChar, IsSpace;
    if vs == [] {
      OnlyPads(pads);
      assert Chars(vs, StdChar) + pads == pads;
      assert pads != [] ==> pads[0] in pads;
    } else {
      NotSpace(vs[0]);
      CompactChars(vs[1..], pads);
      assert Chars(vs, StdChar) + pads == [StdChar(vs[0])] + (Chars(vs[1..], StdChar) + pads);
    }
  }

  lemma {:induction false} OnlyPads(pads: Bytes)
    requires forall i :: 0 <= i < |pads| ==> pads[i] == PAD
    ensures Compact(pads) == [] && PaddingLast(pads)
  {
    if pads != [] {
      OnlyPads(pads[1..]);
    }
  }

  /** Decoding undoes standard encoding, padded or not. */
  lemma RoundTrip(b: Bytes, pad: bool)
    ensures DecodeSpec(Encoding(b, StdChar, pad)) == Some(b)
  {
    hide DecodeSpec, Compact, PaddingLast, Sextets, HasPad;
    var pads := if pad then Padding(|b|) else [];
    CompactChars(Sextets(b), pads);
    DecodeIff(Encoding(b, StdChar, pad), b);
    assert Encoding(b, StdChar, false) == Chars(Sextets(b), StdChar);
  }
}
