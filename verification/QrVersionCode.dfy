/** The error correction of the version information: its check bits are a remainder, and any two words are far apart. */
module QrVersionCode {
  import opened BinaryCode
  import opened QrVersion

  // ---- the check bits are a remainder ----

  lemma StepIsRound(rem: bv32)
    requires rem < 0x1000
    ensures VersionRound(rem) == Round(VersionCode, rem)
  {
    if rem & 0x800 != 0 {
      assert rem >> 11 == 1;
    } else {
      assert rem >> 11 == 0;
    }
  }

  lemma {:induction false} CheckIsRest(v: bv32, n: nat)
    requires v < 0x1000
    ensures VersionCheck(v, n) == Rest(VersionCode, v, n) < 0x1000
  {
    hide VersionRound, Round;
    if n > 0 {
      CheckIsRest(v, n - 1);
      StepIsRound(VersionCheck(v, n - 1));
    }
    RestSmall(VersionCode, v, n);
  }

  lemma ShiftedSix(v: bv32)
    ensures Shifted(v, 6) == v << 6
  {
    hide TimesX;
    assert Shifted(v, 2) == TimesX(Shifted(v, 1)) == TimesX(TimesX(Shifted(v, 0)));
    assert Shifted(v, 4) == TimesX(Shifted(v, 3)) == TimesX(TimesX(Shifted(v, 2)));
    assert Shifted(v, 6) == TimesX(Shifted(v, 5)) == TimesX(TimesX(Shifted(v, 4)));
    SixShifts(v);
  }

  lemma SixShifts(v: bv32)
    ensures TimesX(TimesX(TimesX(TimesX(TimesX(TimesX(v)))))) == v << 6
  {
  }

  lemma TwiceSix(v: bv32)
    ensures (v << 6) << 6 == v << 12
  {
  }

  lemma OrIsAdd(v: bv32, check: bv32)
    requires v < 64 && check < 0x1000
    ensures VersionAnd(v, check) == Add(v << 12, check)
  {
  }

  lemma AndIsAdd(v: bv32, check: bv32)
    requires v < 64 && check < 0x1000
    ensures VersionAnd(v, check) == Add(Shifted(v, 12), check)
  {
    hide Shifted;
    ShiftedTwice(v, 6, 6);
    ShiftedSix(v);
    ShiftedSix(v << 6);
    TwiceSix(v);
    OrIsAdd(v, check);
  }

  lemma VersionIsWord(v: bv32)
    requires v < 64
    ensures VersionWord(v) == Word(VersionCode, v)
  {
    hide VersionCheck, Rest, Shifted, VersionAnd, Add;
    CheckIsRest(v, 12);
    AndIsAdd(v, VersionCheck(v, 12));
  }

  /** The check bits are the one choice of twelve bits that makes the version followed by them a multiple of the
      generator. */
  lemma VersionCheckIff(v: bv32, check: bv32)
    requires v < 64 && check < 0x1000
    ensures IsMultiple(VersionCode, VersionAnd(v, check)) <==> check == VersionCheck(v, 12)
  {
    hide VersionCheck, Rest, Shifted, VersionAnd, Add, IsMultiple;
    CheckIsRest(v, 12);
    AndIsAdd(v, check);
    RestIff(VersionCode, v, check);
  }

  // ---- any two version words are far apart ----

  function One(b: bool): nat {
    if b then 1 else 0
  }

  /** How many of its eighteen bits are set. */
  function Weight(w: bv32): nat {
    One(BitOf(w, 0)) + One(BitOf(w, 1)) + One(BitOf(w, 2)) + One(BitOf(w, 3)) + One(BitOf(w, 4)) + One(BitOf(w, 5))
    + One(BitOf(w, 6)) + One(BitOf(w, 7)) + One(BitOf(w, 8)) + One(BitOf(w, 9)) + One(BitOf(w, 10))
    + One(BitOf(w, 11)) + One(BitOf(w, 12)) + One(BitOf(w, 13)) + One(BitOf(w, 14)) + One(BitOf(w, 15))
    + One(BitOf(w, 16)) + One(BitOf(w, 17))
  }

  function Distance(a: bv32, b: bv32): nat {
    Weight(Add(a, b))
  }

  lemma AddFits(a: bv32, b: bv32)
    requires a < 64 && b < 64
    ensures Add(a, b) < 64
  {
  }

  lemma VersionAdd(a: bv32, b: bv32)
    requires a < 64 && b < 64
    ensures Add(a, b) < 64 && VersionWord(Add(a, b)) == Add(VersionWord(a), VersionWord(b))
  {
    hide Add, Word, VersionWord;
    AddFits(a, b);
    VersionIsWord(a);
    VersionIsWord(b);
    VersionIsWord(Add(a, b));
    WordAdd(VersionCode, a, b);
  }

  lemma FirstRounds()
    ensures VersionCheck(1, 12) == 0xF25
  {
    assert VersionCheck(1, 2) == VersionRound(VersionCheck(1, 1)) == 4;
    assert VersionCheck(1, 4) == VersionRound(VersionCheck(1, 3)) == 0x10;
    assert VersionCheck(1, 6) == VersionRound(VersionCheck(1, 5)) == 0x40;
    assert VersionCheck(1, 8) == VersionRound(VersionCheck(1, 7)) == 0x100;
    assert VersionCheck(1, 10) == VersionRound(VersionCheck(1, 9)) == 0x400;
    assert VersionCheck(1, 12) == VersionRound(VersionCheck(1, 11)) == 0xF25;
  }

  /** Doubling the number is one round more. */
  lemma NextBase(v: bv32, check: bv32)
    requires v < 0x800 && VersionCheck(v, 12) == check
    ensures VersionCheck(TimesX(v), 12) == VersionRound(check)
  {
    assert TimesX(v) < 0x1000 && !Has(v, 0x800);
    hide VersionRound, TimesX, Has;
    CheckIsRest(TimesX(v), 12);
    CheckIsRest(v, 13);
    RestDouble(VersionCode, v, 12);
    assert VersionCheck(v, 13) == VersionRound(VersionCheck(v, 12));
  }

  /** The check bits of the six single bits. */
  lemma SingleBits()
    ensures VersionCheck(1, 12) == 0xF25 && VersionCheck(2, 12) == 0x16F && VersionCheck(4, 12) == 0x2DE
    ensures VersionCheck(8, 12) == 0x5BC && VersionCheck(0x10, 12) == 0xB78 && VersionCheck(0x20, 12) == 0x9D5
  {
    FirstRounds();
    hide VersionCheck;
    NextBase(1, 0xF25);
    NextBase(2, 0x16F);
    NextBase(4, 0x2DE);
    NextBase(8, 0x5BC);
    NextBase(0x10, 0xB78);
  }

  lemma {:induction false} NoNumber(n: nat)
    ensures VersionCheck(0, n) == 0
  {
    assert VersionRound(0) == 0;
    hide VersionRound;
    if n > 0 {
      NoNumber(n - 1);
    }
  }

  lemma SingleWords()
    ensures VersionWord(1) == 0x1F25 && VersionWord(2) == 0x216F && VersionWord(4) == 0x42DE
    ensures VersionWord(8) == 0x85BC && VersionWord(0x10) == 0x1_0B78 && VersionWord(0x20) == 0x2_09D5
    ensures VersionWord(0) == 0
  {
    SingleBits();
    NoNumber(12);
    hide VersionCheck;
  }

  /** The six bits of a number, put together. */
  function FromBits(b5: bool, b4: bool, b3: bool, b2: bool, b1: bool, b0: bool): bv32 {
    Add(If(b5, 0x20), Add(If(b4, 0x10), Add(If(b3, 8), Add(If(b2, 4), Add(If(b1, 2), If(b0, 1))))))
  }

  function WordFromBits(b5: bool, b4: bool, b3: bool, b2: bool, b1: bool, b0: bool): bv32 {
    Add(If(b5, 0x2_09D5), Add(If(b4, 0x1_0B78),
      Add(If(b3, 0x85BC), Add(If(b2, 0x42DE), Add(If(b1, 0x216F), If(b0, 0x1F25))))))
  }

  lemma PartsSmall(b5: bool, b4: bool, b3: bool, b2: bool, b1: bool, b0: bool)
    ensures FromBits(b5, b4, b3, b2, b1, b0) < 64
    ensures Add(If(b1, 2), If(b0, 1)) < 4 && Add(If(b2, 4), Add(If(b1, 2), If(b0, 1))) < 8
    ensures Add(If(b3, 8), Add(If(b2, 4), Add(If(b1, 2), If(b0, 1)))) < 0x10
    ensures Add(If(b4, 0x10), Add(If(b3, 8), Add(If(b2, 4), Add(If(b1, 2), If(b0, 1))))) < 0x20
  {
  }

  lemma WordOfBits(b5: bool, b4: bool, b3: bool, b2: bool, b1: bool, b0: bool)
    ensures VersionWord(FromBits(b5, b4, b3, b2, b1, b0)) == WordFromBits(b5, b4, b3, b2, b1, b0)
  {
    SingleWords();
    PartsSmall(b5, b4, b3, b2, b1, b0);
    hide Add, VersionWord;
    var low2 := Add(If(b1, 2), If(b0, 1));
    var low3 := Add(If(b2, 4), low2);
    var low4 := Add(If(b3, 8), low3);
    var low5 := Add(If(b4, 0x10), low4);
    VersionAdd(If(b1, 2), If(b0, 1));
    VersionAdd(If(b2, 4), low2);
    VersionAdd(If(b3, 8), low3);
    VersionAdd(If(b4, 0x10), low4);
    VersionAdd(If(b5, 0x20), low5);
  }

  lemma LowBits(b5: bool, b4: bool, b3: bool, b2: bool, b1: bool, b0: bool)
    ensures var w := WordFromBits(b5, b4, b3, b2, b1, b0);
      && BitOf(w, 0) == ((b5 != b1) != b0)
      && BitOf(w, 1) == (b2 != b1)
      && BitOf(w, 2) == ((((b5 != b3) != b2) != b1) != b0)
      && BitOf(w, 3) == (((b4 != b3) != b2) != b1)
      && BitOf(w, 4) == (((b5 != b4) != b3) != b2)
      && BitOf(w, 5) == (((b4 != b3) != b1) != b0)
  {
  }

  lemma MiddleBits(b5: bool, b4: bool, b3: bool, b2: bool, b1: bool, b0: bool)
    ensures var w := WordFromBits(b5, b4, b3, b2, b1, b0);
      && BitOf(w, 6) == (((b5 != b4) != b2) != b1)
      && BitOf(w, 7) == ((b5 != b3) != b2)
      && BitOf(w, 8) == ((((b5 != b4) != b3) != b1) != b0)
      && BitOf(w, 9) == ((b4 != b2) != b0)
      && BitOf(w, 10) == (b3 != b0)
      && BitOf(w, 11) == ((b5 != b4) != b0)
  {
  }

  lemma HighBits(b5: bool, b4: bool, b3: bool, b2: bool, b1: bool, b0: bool)
    ensures var w := WordFromBits(b5, b4, b3, b2, b1, b0);
      && BitOf(w, 12) == b0
      && BitOf(w, 13) == b1
      && BitOf(w, 14) == b2
      && BitOf(w, 15) == b3
      && BitOf(w, 16) == b4
      && BitOf(w, 17) == b5
  {
  }

  lemma Heavy(b5: bool, b4: bool, b3: bool, b2: bool, b1: bool, b0: bool)
    requires b5 || b4 || b3 || b2 || b1 || b0
    ensures Weight(WordFromBits(b5, b4, b3, b2, b1, b0)) >= 8
  {
    hide WordFromBits, BitOf;
    LowBits(b5, b4, b3, b2, b1, b0);
    MiddleBits(b5, b4, b3, b2, b1, b0);
    HighBits(b5, b4, b3, b2, b1, b0);
  }

  lemma BitsOfNumber(v: bv32)
    requires v < 64
    ensures v == FromBits(Has(v, 0x20), Has(v, 0x10), Has(v, 8), Has(v, 4), Has(v, 2), Has(v, 1))
    ensures v != 0 ==> Has(v, 0x20) || Has(v, 0x10) || Has(v, 8) || Has(v, 4) || Has(v, 2) || Has(v, 1)
  {
  }

  /** A version word other than zero has at least eight bits set. */
  lemma WordHeavy(v: bv32)
    requires 0 < v < 64
    ensures Weight(VersionWord(v)) >= 8
  {
    hide Weight, VersionWord, FromBits, WordFromBits;
    BitsOfNumber(v);
    WordOfBits(Has(v, 0x20), Has(v, 0x10), Has(v, 8), Has(v, 4), Has(v, 2), Has(v, 1));
    Heavy(Has(v, 0x20), Has(v, 0x10), Has(v, 8), Has(v, 4), Has(v, 2), Has(v, 1));
  }

  /** Any two different version words differ in at least eight bits. */
  lemma VersionApart(v: bv32, v': bv32)
    requires v < 64 && v' < 64 && v != v'
    ensures Distance(VersionWord(v), VersionWord(v')) >= 8
  {
    hide Weight, VersionWord, Add;
    VersionAdd(v, v');
    AddCancels(v, v');
    WordHeavy(Add(v, v'));
  }

  /** Up to three damaged bits leave one version they can come from. */
  lemma OneVersion(v: bv32, v': bv32, received: bv32)
    requires v < 64 && v' < 64
    requires Distance(VersionWord(v), received) <= 3 && Distance(VersionWord(v'), received) <= 3
    ensures v == v'
  {
    hide VersionWord, Distance;
    if v != v' {
      VersionApart(v, v');
      Triangle(VersionWord(v), VersionWord(v'), received);
    }
  }

  lemma Triangle(a: bv32, b: bv32, r: bv32)
    ensures Distance(a, b) <= Distance(a, r) + Distance(b, r)
  {
    hide BitOf;
    forall i: nat | i < 18
      ensures One(BitOf(Add(a, b), i)) <= One(BitOf(Add(a, r), i)) + One(BitOf(Add(b, r), i))
    {
      BitOfSum(a, b, r, i);
    }
  }

  lemma BitOfSum(a: bv32, b: bv32, r: bv32, i: nat)
    requires i < 18
    ensures BitOf(Add(a, b), i) ==> BitOf(Add(a, r), i) || BitOf(Add(b, r), i)
  {
  }
}
