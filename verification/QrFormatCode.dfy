/** The error correction of the format information: its check bits are a remainder, and any two words are far apart. */
module QrFormatCode {
  import opened BinaryCode
  import opened QrTables
  import opened QrFormat

  // ---- the check bits are a remainder ----

  lemma StepIsRound(rem: bv32)
    requires rem < 0x400
    ensures CheckStep(rem) == Round(FormatCode, rem)
  {
    if rem & 0x200 != 0 {
      assert rem >> 9 == 1;
    } else {
      assert rem >> 9 == 0;
    }
  }

  lemma {:induction false} CheckIsRest(data: bv32, n: nat)
    requires data < 0x400
    ensures CheckBits(data, n) == Rest(FormatCode, data, n)
  {
    hide CheckStep, Round;
    if n > 0 {
      CheckIsRest(data, n - 1);
      CheckBitsFit(data, n - 1);
      StepIsRound(CheckBits(data, n - 1));
    }
  }

  lemma ShiftedFive(data: bv32)
    ensures Shifted(data, 5) == data << 5
  {
    hide TimesX;
    assert Shifted(data, 1) == TimesX(Shifted(data, 0)) == TimesX(data);
    assert Shifted(data, 3) == TimesX(Shifted(data, 2)) == TimesX(TimesX(Shifted(data, 1)));
    assert Shifted(data, 5) == TimesX(Shifted(data, 4)) == TimesX(TimesX(Shifted(data, 3)));
    FiveShifts(data);
  }

  lemma FiveShifts(data: bv32)
    ensures TimesX(TimesX(TimesX(TimesX(TimesX(data))))) == data << 5
  {
  }

  lemma TwiceFive(data: bv32)
    ensures (data << 5) << 5 == data << 10
  {
  }

  lemma ShiftedTen(data: bv32)
    ensures Shifted(data, 10) == data << 10
  {
    hide Shifted;
    ShiftedTwice(data, 5, 5);
    ShiftedFive(data);
    ShiftedFive(data << 5);
    TwiceFive(data);
  }

  lemma FollowedIsAdd(data: bv32, check: bv32)
    requires data < 0x20 && check < 0x400
    ensures Followed(data, check) == Add(Shifted(data, 10), check)
  {
    hide Shifted;
    ShiftedTen(data);
    OrIsAdd(data, check);
  }

  lemma OrIsAdd(data: bv32, check: bv32)
    requires data < 0x20 && check < 0x400
    ensures Followed(data, check) == Add(data << 10, check)
  {
  }

  lemma CodewordIsWord(data: bv32)
    requires data < 0x20
    ensures Codeword(data) == Word(FormatCode, data)
  {
    hide CheckBits, Rest, Shifted, Followed, Add;
    CheckIsRest(data, 10);
    CheckBitsFit(data, 10);
    FollowedIsAdd(data, CheckBits(data, 10));
  }

  /** The check bits are the one choice of ten bits that makes data followed by them a multiple of the generator. */
  lemma CheckBitsIff(data: bv32, check: bv32)
    requires data < 0x20 && check < 0x400
    ensures IsMultiple(FormatCode, Followed(data, check)) <==> check == CheckBits(data, 10)
  {
    hide CheckBits, Rest, Shifted, Followed, Add, IsMultiple;
    CheckIsRest(data, 10);
    FollowedIsAdd(data, check);
    RestIff(FormatCode, data, check);
  }

  // ---- any two format words are far apart ----

  function One(b: bool): nat {
    if b then 1 else 0
  }

  /** How many of its fifteen bits are set. */
  function Weight(w: bv32): nat {
    One(Bit(w, 0)) + One(Bit(w, 1)) + One(Bit(w, 2)) + One(Bit(w, 3)) + One(Bit(w, 4))
    + One(Bit(w, 5)) + One(Bit(w, 6)) + One(Bit(w, 7)) + One(Bit(w, 8)) + One(Bit(w, 9))
    + One(Bit(w, 10)) + One(Bit(w, 11)) + One(Bit(w, 12)) + One(Bit(w, 13)) + One(Bit(w, 14))
  }

  /** In how many of fifteen bits two words differ. */
  function Distance(a: bv32, b: bv32): nat {
    Weight(Add(a, b))
  }

  lemma AddFits(a: bv32, b: bv32)
    requires a < 0x20 && b < 0x20
    ensures Add(a, b) < 0x20
  {
  }

  lemma CodewordAdd(a: bv32, b: bv32)
    requires a < 0x20 && b < 0x20
    ensures Add(a, b) < 0x20 && Codeword(Add(a, b)) == Add(Codeword(a), Codeword(b))
  {
    hide Add, Word, Codeword;
    AddFits(a, b);
    CodewordIsWord(a);
    CodewordIsWord(b);
    CodewordIsWord(Add(a, b));
    WordAdd(FormatCode, a, b);
  }

  lemma FirstRounds()
    ensures CheckBits(1, 10) == 0x137
  {
    assert CheckBits(1, 2) == CheckStep(CheckBits(1, 1)) == 4;
    assert CheckBits(1, 4) == CheckStep(CheckBits(1, 3)) == 0x10;
    assert CheckBits(1, 6) == CheckStep(CheckBits(1, 5)) == 0x40;
    assert CheckBits(1, 8) == CheckStep(CheckBits(1, 7)) == 0x100;
    assert CheckBits(1, 10) == CheckStep(CheckBits(1, 9)) == 0x137;
  }

  /** Doubling the data is one round more. */
  lemma NextBase(data: bv32, check: bv32)
    requires data < 0x200 && CheckBits(data, 10) == check
    ensures CheckBits(TimesX(data), 10) == CheckStep(check)
  {
    assert TimesX(data) < 0x400 && !Has(data, 0x200);
    hide CheckStep, TimesX, Has;
    CheckIsRest(TimesX(data), 10);
    CheckIsRest(data, 11);
    RestDouble(FormatCode, data, 10);
    assert CheckBits(data, 11) == CheckStep(CheckBits(data, 10));
  }

  /** The check bits of the five single data bits. */
  lemma SingleBits()
    ensures CheckBits(1, 10) == 0x137 && CheckBits(2, 10) == 0x26E && CheckBits(4, 10) == 0x1EB
    ensures CheckBits(8, 10) == 0x3D6 && CheckBits(0x10, 10) == 0x29B
  {
    FirstRounds();
    hide CheckBits;
    NextBase(1, 0x137);
    NextBase(2, 0x26E);
    NextBase(4, 0x1EB);
    NextBase(8, 0x3D6);
  }

  lemma {:induction false} NoData(n: nat)
    ensures CheckBits(0, n) == 0
  {
    assert CheckStep(0) == 0;
    hide CheckStep;
    if n > 0 {
      NoData(n - 1);
    }
  }

  /** The five bits of data, put together. */
  function FromBits(b4: bool, b3: bool, b2: bool, b1: bool, b0: bool): bv32 {
    Add(If(b4, 0x10), Add(If(b3, 8), Add(If(b2, 4), Add(If(b1, 2), If(b0, 1)))))
  }

  lemma PartsSmall(b4: bool, b3: bool, b2: bool, b1: bool, b0: bool)
    ensures FromBits(b4, b3, b2, b1, b0) < 0x20
    ensures Add(If(b1, 2), If(b0, 1)) < 4 && Add(If(b2, 4), Add(If(b1, 2), If(b0, 1))) < 8
    ensures Add(If(b3, 8), Add(If(b2, 4), Add(If(b1, 2), If(b0, 1)))) < 0x10
  {
  }

  lemma BitsOfData(data: bv32)
    requires data < 0x20
    ensures data == FromBits(Has(data, 0x10), Has(data, 8), Has(data, 4), Has(data, 2), Has(data, 1))
  {
  }

  function WordFromBits(b4: bool, b3: bool, b2: bool, b1: bool, b0: bool): bv32 {
    Add(If(b4, 0x429B), Add(If(b3, 0x23D6), Add(If(b2, 0x11EB), Add(If(b1, 0xA6E), If(b0, 0x537)))))
  }

  lemma LowBits(b4: bool, b3: bool, b2: bool, b1: bool, b0: bool)
    ensures var w := WordFromBits(b4, b3, b2, b1, b0);
      && Bit(w, 0) == ((b4 != b2) != b0)
      && Bit(w, 1) == ((((b4 != b3) != b2) != b1) != b0)
      && Bit(w, 2) == ((b3 != b1) != b0)
      && Bit(w, 3) == ((b4 != b2) != b1)
      && Bit(w, 4) == ((b4 != b3) != b0)
  {
  }

  lemma MiddleBits(b4: bool, b3: bool, b2: bool, b1: bool, b0: bool)
    ensures var w := WordFromBits(b4, b3, b2, b1, b0);
      && Bit(w, 5) == ((b2 != b1) != b0)
      && Bit(w, 6) == ((b3 != b2) != b1)
      && Bit(w, 7) == ((b4 != b3) != b2)
      && Bit(w, 8) == ((b3 != b2) != b0)
      && Bit(w, 9) == ((b4 != b3) != b1)
  {
  }

  lemma HighBits(b4: bool, b3: bool, b2: bool, b1: bool, b0: bool)
    ensures var w := WordFromBits(b4, b3, b2, b1, b0);
      && Bit(w, 10) == b0
      && Bit(w, 11) == b1
      && Bit(w, 12) == b2
      && Bit(w, 13) == b3
      && Bit(w, 14) == b4
  {
  }

  lemma Heavy(b4: bool, b3: bool, b2: bool, b1: bool, b0: bool)
    requires b4 || b3 || b2 || b1 || b0
    ensures Weight(WordFromBits(b4, b3, b2, b1, b0)) >= 7
  {
    hide WordFromBits, Bit;
    LowBits(b4, b3, b2, b1, b0);
    MiddleBits(b4, b3, b2, b1, b0);
    HighBits(b4, b3, b2, b1, b0);
  }

  /** The codewords of the five single data bits. */
  lemma SingleWords()
    ensures Codeword(1) == 0x537 && Codeword(2) == 0xA6E && Codeword(4) == 0x11EB
    ensures Codeword(8) == 0x23D6 && Codeword(0x10) == 0x429B && Codeword(0) == 0
  {
    SingleBits();
    NoData(10);
    hide CheckBits;
  }

  lemma CodewordOfBits(b4: bool, b3: bool, b2: bool, b1: bool, b0: bool)
    ensures Codeword(FromBits(b4, b3, b2, b1, b0)) == WordFromBits(b4, b3, b2, b1, b0)
  {
    SingleWords();
    PartsSmall(b4, b3, b2, b1, b0);
    hide Add, Codeword;
    var low2 := Add(If(b1, 2), If(b0, 1));
    var low3 := Add(If(b2, 4), low2);
    var low4 := Add(If(b3, 8), low3);
    CodewordAdd(If(b1, 2), If(b0, 1));
    CodewordAdd(If(b2, 4), low2);
    CodewordAdd(If(b3, 8), low3);
    CodewordAdd(If(b4, 0x10), low4);
  }

  lemma NotAllClear(data: bv32)
    requires 0 < data < 0x20
    ensures Has(data, 0x10) || Has(data, 8) || Has(data, 4) || Has(data, 2) || Has(data, 1)
  {
  }

  /** A codeword other than zero has at least seven bits set. */
  lemma CodewordHeavy(data: bv32)
    requires 0 < data < 0x20
    ensures Weight(Codeword(data)) >= 7
  {
    hide Weight, Codeword, FromBits, WordFromBits;
    BitsOfData(data);
    var b4, b3, b2, b1, b0 := Has(data, 0x10), Has(data, 8), Has(data, 4), Has(data, 2), Has(data, 1);
    CodewordOfBits(b4, b3, b2, b1, b0);
    NotAllClear(data);
    Heavy(b4, b3, b2, b1, b0);
  }

  /** The fixed pattern cancels out of a difference. */
  lemma DifferenceIsCodeword(a: bv32, b: bv32)
    requires a < 0x20 && b < 0x20
    ensures Add(a, b) < 0x20 && Add(FormatWord(a), FormatWord(b)) == Codeword(Add(a, b))
  {
    hide Add, Codeword;
    CodewordAdd(a, b);
    MaskIsAdd(Codeword(a));
    MaskIsAdd(Codeword(b));
    CommonCancels(Codeword(a), Codeword(b), 0x5412);
  }

  lemma MaskIsAdd(w: bv32)
    ensures w ^ 0x5412 == Add(w, 0x5412)
  {
  }

  /** Any two different format words differ in at least seven bits. */
  lemma FormatApart(e: Ecc, mask: nat, e': Ecc, mask': nat)
    requires mask < 8 && mask' < 8 && (e != e' || mask != mask')
    ensures Distance(FormatWord(FormatData(e, mask)), FormatWord(FormatData(e', mask'))) >= 7
  {
    hide Weight, FormatWord, Codeword;
    FormatRoundTrip(e, mask);
    FormatRoundTrip(e', mask');
    var a, b := FormatData(e, mask), FormatData(e', mask');
    DataSmall(e, mask);
    DataSmall(e', mask');
    hide FormatData, Add;
    AddCancels(a, b);
    DifferenceIsCodeword(a, b);
    CodewordHeavy(Add(a, b));
  }

  lemma DataSmall(e: Ecc, mask: nat)
    requires mask < 8
    ensures FormatData(e, mask) < 0x20
  {
    hide LevelCode, MaskCode;
    CodeBits(e, mask);
    JoinCodes(LevelCode(e), MaskCode(mask));
  }

  /** Up to three damaged bits leave one level and mask they can come from. */
  lemma OneFormat(e: Ecc, mask: nat, e': Ecc, mask': nat, received: bv32)
    requires mask < 8 && mask' < 8
    requires Distance(FormatWord(FormatData(e, mask)), received) <= 3
    requires Distance(FormatWord(FormatData(e', mask')), received) <= 3
    ensures e == e' && mask == mask'
  {
    hide FormatWord, FormatData, Distance;
    if e != e' || mask != mask' {
      FormatApart(e, mask, e', mask');
      Triangle(FormatWord(FormatData(e, mask)), FormatWord(FormatData(e', mask')), received);
    }
  }

  lemma Triangle(a: bv32, b: bv32, r: bv32)
    ensures Distance(a, b) <= Distance(a, r) + Distance(b, r)
  {
    hide Bit;
    forall i: nat | i < 15 ensures One(Bit(Add(a, b), i)) <= One(Bit(Add(a, r), i)) + One(Bit(Add(b, r), i)) {
      BitOfSum(a, b, r, i);
    }
  }

  lemma BitOfSum(a: bv32, b: bv32, r: bv32, i: nat)
    requires i < 15
    ensures Bit(Add(a, b), i) ==> Bit(Add(a, r), i) || Bit(Add(b, r), i)
  {
  }
}
