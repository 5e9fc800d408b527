/** The texts of both encoders compared with RFC 4648: the alphabets of tables 1 and 2, the digits, the padding and the
    test vectors of section 10. */
module Base64Text {
  import opened Wrappers
  import opened Base64

  const UPPER := "ABCDEFGHIJKLMNOPQRSTUVWXYZ"
  const LOWER := "abcdefghijklmnopqrstuvwxyz"
  const DIGITS := "0123456789"
  const STD := UPPER + LOWER + DIGITS + "+/"
  const URL_SAFE := UPPER + LOWER + DIGITS + "-_"

  function UrlChar(v: sextet): byte {
    CharOf(v, 45, 95)
  }

  /** `n` characters in a row. */
  function Row(first: nat, n: nat): (s: string)
    requires first + n <= 128
    ensures |s| == n && forall i :: 0 <= i < n ==> s[i] as int == first + i
  {
    if n == 0 then "" else Row(first, n - 1) + [(first + n - 1) as char]
  }

  lemma UpperRow()
    ensures UPPER == Row(65, 26)
  {
    assert Row(65, 6) == "ABCDEF";
    assert Row(65, 12) == "ABCDEFGHIJKL";
    assert Row(65, 18) == "ABCDEFGHIJKLMNOPQR";
    assert Row(65, 23) == "ABCDEFGHIJKLMNOPQRSTUVW";
  }

  lemma LowerRow()
    ensures LOWER == Row(97, 26)
  {
    assert Row(97, 6) == "abcdef";
    assert Row(97, 12) == "abcdefghijkl";
    assert Row(97, 18) == "abcdefghijklmnopqr";
    assert Row(97, 23) == "abcdefghijklmnopqrstuvw";
  }

  lemma DigitRow()
    ensures DIGITS == Row(48, 10)
  {
  }

  lemma CharAt(upper: string, lower: string, digits: string, last: string, v: sextet)
    requires upper == Row(65, 26) && lower == Row(97, 26) && digits == Row(48, 10) && |last| == 2
    requires last[0] as int < 128 && last[1] as int < 128
    ensures |upper + lower + digits + last| == 64
    ensures CharOf(v, last[0] as int, last[1] as int) == (upper + lower + digits + last)[v] as int
  {
    hide Row;
  }

  /** Character `v` of both alphabets. */
  lemma AlphabetsAre(v: sextet)
    ensures |STD| == |URL_SAFE| == 64 && StdChar(v) == STD[v] as int && UrlChar(v) == URL_SAFE[v] as int
  {
    UpperRow();
    LowerRow();
    DigitRow();
    hide UPPER, LOWER, DIGITS;
    CharAt(UPPER, LOWER, DIGITS, "+/", v);
    CharAt(UPPER, LOWER, DIGITS, "-_", v);
  }

  /** The padded text under the standard alphabet. */
  method Standard(input: Bytes) returns (out: Bytes)
    ensures out == Encoding(input, StdChar, true)
  {
    out := EncodeWith(input, StdChar, true);
  }

  /** The text under the URL-safe alphabet, without padding. */
  method UrlSafe(input: Bytes) returns (out: Bytes)
    ensures out == Encoding(input, UrlChar, false)
  {
    out := EncodeWith(input, UrlChar, false);
  }

  // ---- the digits ----

  function Value(b: byte): nat {
    b
  }

  /** The number that bytes denote behind `high`, the most significant first. */
  function Number(high: nat, b: Bytes): nat
    decreases |b|
  {
    if b == [] then high else Number(256 * high + Value(b[0]), b[1..])
  }

  /** The number that values of six bits denote behind `high`. */
  function Digits(high: nat, vs: seq<sextet>): nat
    decreases |vs|
  {
    if vs == [] then high else Digits(64 * high + vs[0], vs[1..])
  }

  /** What the missing bytes of the last group leave: four zero bits after one byte, two after two. */
  function Filling(n: nat): nat {
    match n % 3
    case 0 => 1
    case 1 => 16
    case _ => 4
  }

  lemma DigitsOfTwo(high: nat, a: sextet, b: sextet)
    ensures Digits(high, [a, b]) == 64 * (64 * high + a) + b
  {
    assert [a, b][1..] == [b];
    assert Digits(64 * high + a, [b]) == 64 * (64 * high + a) + b;
  }

  lemma DigitsOfThree(high: nat, a: sextet, b: sextet, c: sextet)
    ensures Digits(high, [a, b, c]) == 64 * (64 * (64 * high + a) + b) + c
  {
    assert [a, b, c][1..] == [b, c];
    DigitsOfTwo(64 * high + a, b, c);
  }

  lemma GroupDigits(high: nat, b0: byte, b1: byte, b2: byte)
    ensures 64 * (64 * high + S0(b0)) + S1(b0, 0) == 16 * (256 * high + b0)
    ensures 64 * (64 * (64 * high + S0(b0)) + S1(b0, b1)) + S2(b1, 0) == 4 * (65536 * high + 256 * b0 + b1)
    ensures 64 * (64 * (64 * (64 * high + S0(b0)) + S1(b0, b1)) + S2(b1, b2)) + S3(b2)
         == 16777216 * high + 65536 * b0 + 256 * b1 + b2
  {
  }

  lemma DigitsOfFour(high: nat, a: sextet, b: sextet, c: sextet, d: sextet, rest: seq<sextet>)
    ensures Digits(high, [a, b, c, d] + rest) == Digits(64 * (64 * (64 * (64 * high + a) + b) + c) + d, rest)
  {
    var vs := [a, b, c, d] + rest;
    assert vs[1..] == [b, c, d] + rest && vs[1..][1..] == [c, d] + rest;
    assert vs[1..][1..][1..] == [d] + rest && vs[1..][1..][1..][1..] == rest;
    assert Digits(64 * (64 * high + a) + b, [c, d] + rest)
        == Digits(64 * (64 * (64 * (64 * high + a) + b) + c) + d, rest);
  }

  lemma NumberOfThree(high: nat, b: Bytes)
    requires |b| >= 3
    ensures Number(high, b) == Number(16777216 * high + 65536 * Value(b[0]) + 256 * Value(b[1]) + Value(b[2]), b[3..])
  {
    assert b[1..][1..] == b[2..] && b[2..][1..] == b[3..];
    assert Number(256 * (256 * high + Value(b[0])) + Value(b[1]), b[2..])
        == Number(16777216 * high + 65536 * Value(b[0]) + 256 * Value(b[1]) + Value(b[2]), b[3..]);
  }

  lemma FillingAgain(n: nat)
    ensures Filling(0) == 1 && Filling(1) == 16 && Filling(2) == 4 && Filling(n + 3) == Filling(n)
  {
  }

  lemma OneByte(high: nat, b: Bytes)
    requires |b| == 1
    ensures Digits(high, Sextets(b)) == 16 * Number(high, b)
  {
    GroupDigits(high, b[0], 0, 0);
    assert Sextets(b) == [S0(b[0]), S1(b[0], 0)];
    hide S0, S1, Sextets, Digits;
    DigitsOfTwo(high, S0(b[0]), S1(b[0], 0));
    assert Number(high, b) == Number(256 * high + Value(b[0]), []);
  }

  lemma TwoBytes(high: nat, b: Bytes)
    requires |b| == 2
    ensures Digits(high, Sextets(b)) == 4 * Number(high, b)
  {
    GroupDigits(high, b[0], b[1], 0);
    assert Sextets(b) == [S0(b[0]), S1(b[0], b[1]), S2(b[1], 0)];
    hide S0, S1, S2, Sextets, Digits;
    DigitsOfThree(high, S0(b[0]), S1(b[0], b[1]), S2(b[1], 0));
    assert b[1..][1..] == [];
    assert Number(256 * high + Value(b[0]), b[1..]) == 65536 * high + 256 * Value(b[0]) + Value(b[1]);
  }

  lemma ThreeBytes(high: nat, b: Bytes)
    requires |b| >= 3
    ensures var next := 16777216 * high + 65536 * Value(b[0]) + 256 * Value(b[1]) + Value(b[2]);
      Digits(high, Sextets(b)) == Digits(next, Sextets(b[3..])) && Number(high, b) == Number(next, b[3..])
  {
    GroupDigits(high, b[0], b[1], b[2]);
    NumberOfThree(high, b);
    hide Digits, Number, S0, S1, S2, S3;
    DigitsOfFour(high, S0(b[0]), S1(b[0], b[1]), S2(b[1], b[2]), S3(b[2]), Sextets(b[3..]));
  }

  /** The values of a text are the digits of the number that the bytes denote, filled up with zero bits. */
  lemma {:induction false} SameNumber(high: nat, b: Bytes)
    ensures Digits(high, Sextets(b)) == Filling(|b|) * Number(high, b)
    decreases |b|
  {
    FillingAgain(0);
    if b == [] {
    } else if |b| == 1 {
      OneByte(high, b);
    } else if |b| == 2 {
      TwoBytes(high, b);
    } else {
      var next := 16777216 * high + 65536 * Value(b[0]) + 256 * Value(b[1]) + Value(b[2]);
      ThreeBytes(high, b);
      FillingAgain(|b| - 3);
      hide Digits, Number, Sextets, Filling, Value;
      SameNumber(next, b[3..]);
    }
  }

  // ---- length and characters ----

  lemma {:induction false} SextetNumber(b: Bytes, q: nat, r: nat)
    requires |b| == 3 * q + r && r < 3
    ensures |Sextets(b)| == 4 * q + if r == 0 then 0 else r + 1
    decreases |b|
  {
    hide S0, S1, S2, S3;
    if q > 0 {
      SextetNumber(b[3..], q - 1, r);
    }
  }

  lemma PaddingLength(q: nat, r: nat)
    requires r < 3
    ensures |Padding(3 * q + r)| == if r == 0 then 0 else 3 - r
  {
  }

  /** Every three bytes are four characters; of one more byte there are two, of two more three, and padding makes them
      four. */
  lemma TextLength(b: Bytes, q: nat, r: nat, alphabet: sextet -> byte)
    requires |b| == 3 * q + r && r < 3
    ensures |Encoding(b, alphabet, false)| == 4 * q + if r == 0 then 0 else r + 1
    ensures |Encoding(b, alphabet, true)| == 4 * q + if r == 0 then 0 else 4
    ensures Encoding(b, alphabet, true) == Encoding(b, alphabet, false) + [61, 61][..if r == 0 then 0 else 3 - r]
  {
    SextetNumber(b, q, r);
    PaddingLength(q, r);
  }

  /** A character of the text is the alphabet's for the value in its place. */
  lemma TextAt(b: Bytes, i: nat)
    requires i < |Sextets(b)|
    ensures i < |Encoding(b, StdChar, true)| && Encoding(b, StdChar, true)[i] == STD[Sextets(b)[i]] as int
    ensures i < |Encoding(b, UrlChar, false)| && Encoding(b, UrlChar, false)[i] == URL_SAFE[Sextets(b)[i]] as int
  {
    hide Sextets;
    AlphabetsAre(Sextets(b)[i]);
  }

  /** The URL-safe text has no plus, no slash and no equals sign. */
  lemma UrlClean(b: Bytes, i: nat)
    requires i < |Encoding(b, UrlChar, false)|
    ensures Encoding(b, UrlChar, false)[i] != '+' as int && Encoding(b, UrlChar, false)[i] != '/' as int
    ensures Encoding(b, UrlChar, false)[i] != '=' as int
  {
    hide Sextets;
    var v := Sextets(b)[i];
    assert Encoding(b, UrlChar, false)[i] == UrlChar(v);
  }

  // ---- test vectors ----

  lemma ThreeMore(b: Bytes)
    requires |b| >= 3
    ensures Encoding(b, StdChar, true) == Encoding(b[..3], StdChar, true) + Encoding(b[3..], StdChar, true)
  {
    EncodingStep(b, StdChar, true);
    hide StdChar, Sextets, Chars, Padding;
    assert GroupText(b[..3], StdChar, true) == Encoding(b[..3], StdChar, true);
  }

  lemma One(b: Bytes)
    requires |b| == 1
    ensures Encoding(b, StdChar, true) == [StdChar(S0(b[0])), StdChar(S1(b[0], 0)), 61, 61]
  {
    GroupOfOne(b, StdChar);
    PaddingLength(0, 1);
  }

  lemma Two(b: Bytes)
    requires |b| == 2
    ensures Encoding(b, StdChar, true) == [StdChar(S0(b[0])), StdChar(S1(b[0], b[1])), StdChar(S2(b[1], 0)), 61]
  {
    GroupOfTwo(b, StdChar);
  }

  lemma Three(b: Bytes)
    requires |b| == 3
    ensures Encoding(b, StdChar, true)
         == [StdChar(S0(b[0])), StdChar(S1(b[0], b[1])), StdChar(S2(b[1], b[2])), StdChar(S3(b[2]))]
  {
    GroupOfThree(b, StdChar);
    NoPadding();
  }

  /** The vectors of section 10 of RFC 4648: "f", "fo", "foo", "foob", "fooba" and "foobar" are "Zg==", "Zm8=", "Zm9v",
      "Zm9vYg==", "Zm9vYmE=" and "Zm9vYmFy". */
  lemma Vectors()
    ensures Encoding([102], StdChar, true) == [90, 103, 61, 61]
    ensures Encoding([102, 111], StdChar, true) == [90, 109, 56, 61]
    ensures Encoding([102, 111, 111], StdChar, true) == [90, 109, 57, 118]
    ensures Encoding([102, 111, 111, 98], StdChar, true) == [90, 109, 57, 118, 89, 103, 61, 61]
    ensures Encoding([102, 111, 111, 98, 97], StdChar, true) == [90, 109, 57, 118, 89, 109, 69, 61]
    ensures Encoding([102, 111, 111, 98, 97, 114], StdChar, true) == [90, 109, 57, 118, 89, 109, 70, 121]
  {
    hide Encoding;
    One([102]);
    Two([102, 111]);
    Three([102, 111, 111]);
    One([98]);
    Two([98, 97]);
    Three([98, 97, 114]);
    Split([102, 111, 111], [98]);
    Split([102, 111, 111], [98, 97]);
    Split([102, 111, 111], [98, 97, 114]);
    assert [102, 111, 111] + [98] == [102, 111, 111, 98];
    assert [102, 111, 111] + [98, 97] == [102, 111, 111, 98, 97];
    assert [102, 111, 111] + [98, 97, 114] == [102, 111, 111, 98, 97, 114];
  }

  lemma Split(a: Bytes, b: Bytes)
    requires |a| == 3
    ensures Encoding(a + b, StdChar, true) == Encoding(a, StdChar, true) + Encoding(b, StdChar, true)
  {
    hide Encoding;
    assert (a + b)[..3] == a && (a + b)[3..] == b;
    ThreeMore(a + b);
  }
}
