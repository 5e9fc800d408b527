/** The 15-bit format information: section 7.9 of ISO/IEC 18004. */
module QrFormat {
  import opened BinaryCode
  import opened QrTables

  /** The two-bit level code, in an order of its own. */
  function LevelCode(e: Ecc): bv32 {
    match e
    case Low => 1
    case Medium => 0
    case Quartile => 3
    case High => 2
  }

  function MaskCode(mask: nat): bv32
    requires mask < 8
  {
    match mask
    case 0 => 0 case 1 => 1 case 2 => 2 case 3 => 3 case 4 => 4 case 5 => 5 case 6 => 6 case _ => 7
  }

  function FormatData(e: Ecc, mask: nat): bv32
    requires mask < 8
  {
    (LevelCode(e) << 3) | MaskCode(mask)
  }

  function CheckStep(rem: bv32): bv32 {
    (rem << 1) ^ ((rem >> 9) * 0x537)
  }

  /** The check bits after `n` rounds of division by the generator 0x537. */
  function CheckBits(data: bv32, n: nat): bv32 {
    if n == 0 then data else CheckStep(CheckBits(data, n - 1))
  }

  /** Data bits followed by ten more bits. */
  function Followed(data: bv32, check: bv32): bv32 {
    (data << 10) | check
  }

  /** The data bits followed by their check bits. */
  function Codeword(data: bv32): bv32 {
    Followed(data, CheckBits(data, 10))
  }

  function FormatWord(data: bv32): bv32 {
    Codeword(data) ^ 0x5412
  }

  method FormatBits(e: Ecc, mask: nat) returns (bits: bv32)
    requires mask < 8
    ensures bits == FormatWord(FormatData(e, mask))
  {
    hide CheckStep, LevelCode, MaskCode;
    var data := (LevelCode(e) << 3) | MaskCode(mask);
    var rem := data;
    for i := 0 to 10
      invariant rem == CheckBits(data, i)
    {
      rem := CheckStep(rem);
    }
    bits := ((data << 10) | rem) ^ 0x5412;
  }

  predicate Bit(bits: bv32, i: nat)
    requires i < 15
  {
    match i
    case 0 => bits & 1 != 0
    case 1 => bits & 2 != 0
    case 2 => bits & 4 != 0
    case 3 => bits & 8 != 0
    case 4 => bits & 0x10 != 0
    case 5 => bits & 0x20 != 0
    case 6 => bits & 0x40 != 0
    case 7 => bits & 0x80 != 0
    case 8 => bits & 0x100 != 0
    case 9 => bits & 0x200 != 0
    case 10 => bits & 0x400 != 0
    case 11 => bits & 0x800 != 0
    case 12 => bits & 0x1000 != 0
    case 13 => bits & 0x2000 != 0
    case _ => bits & 0x4000 != 0
  }

  /** What a reader makes of bits 14 to 10: the fixed pattern 10101 removed, then level and mask. */
  function ReadFormat(b14: bool, b13: bool, b12: bool, b11: bool, b10: bool): (Ecc, nat) {
    var level := match (!b14, b13)
      case (false, true) => Low
      case (false, false) => Medium
      case (true, true) => Quartile
      case (true, false) => High;
    (level, (if b12 then 0 else 4) + (if b11 then 2 else 0) + (if b10 then 0 else 1))
  }

  lemma CheckStepFits(rem: bv32)
    requires rem < 0x400
    ensures CheckStep(rem) < 0x400
  {
    if rem & 0x200 != 0 {
      assert rem >> 9 == 1;
    } else {
      assert rem >> 9 == 0;
    }
  }

  /** The check bits never reach the five data bits. */
  lemma {:induction false} CheckBitsFit(data: bv32, n: nat)
    requires data < 0x400
    ensures CheckBits(data, n) < 0x400
  {
    if n > 0 {
      hide CheckStep;
      CheckBitsFit(data, n - 1);
      CheckStepFits(CheckBits(data, n - 1));
    }
  }

  lemma DataBits(data: bv32, rem: bv32)
    requires data < 0x20 && rem < 0x400
    ensures Bit(((data << 10) | rem) ^ 0x5412, 14) == !Has(data, 0x10)
    ensures Bit(((data << 10) | rem) ^ 0x5412, 13) == Has(data, 8)
    ensures Bit(((data << 10) | rem) ^ 0x5412, 12) == !Has(data, 4)
    ensures Bit(((data << 10) | rem) ^ 0x5412, 11) == Has(data, 2)
    ensures Bit(((data << 10) | rem) ^ 0x5412, 10) == !Has(data, 1)
  {
  }

  lemma WordBits(data: bv32)
    requires data < 0x20
    ensures Bit(FormatWord(data), 14) == !Has(data, 0x10) && Bit(FormatWord(data), 13) == Has(data, 8)
    ensures Bit(FormatWord(data), 12) == !Has(data, 4) && Bit(FormatWord(data), 11) == Has(data, 2)
    ensures Bit(FormatWord(data), 10) == !Has(data, 1)
  {
    hide Bit, CheckBits, Has;
    CheckBitsFit(data, 10);
    DataBits(data, CheckBits(data, 10));
  }

  lemma JoinCodes(level: bv32, c: bv32)
    requires level < 4 && c < 8
    ensures (level << 3) | c < 0x20
    ensures Has((level << 3) | c, 0x10) == Has(level, 2) && Has((level << 3) | c, 8) == Has(level, 1)
    ensures Has((level << 3) | c, 4) == Has(c, 4) && Has((level << 3) | c, 2) == Has(c, 2)
    ensures Has((level << 3) | c, 1) == Has(c, 1)
  {
  }

  lemma CodeBits(e: Ecc, mask: nat)
    requires mask < 8
    ensures LevelCode(e) < 4 && MaskCode(mask) < 8
    ensures Has(LevelCode(e), 2) == (e == Quartile || e == High) && Has(LevelCode(e), 1) == (e == Low || e == Quartile)
    ensures mask == (if Has(MaskCode(mask), 4) then 4 else 0) + (if Has(MaskCode(mask), 2) then 2 else 0)
                  + (if Has(MaskCode(mask), 1) then 1 else 0)
  {
  }

  /** A reader of the format information recovers level and mask. */
  lemma FormatRoundTrip(e: Ecc, mask: nat)
    requires mask < 8
    ensures var w := FormatWord(FormatData(e, mask));
      ReadFormat(Bit(w, 14), Bit(w, 13), Bit(w, 12), Bit(w, 11), Bit(w, 10)) == (e, mask)
  {
    hide Bit, Has, FormatWord, LevelCode, MaskCode;
    CodeBits(e, mask);
    JoinCodes(LevelCode(e), MaskCode(mask));
    assert FormatData(e, mask) == (LevelCode(e) << 3) | MaskCode(mask);
    hide FormatData;
    WordBits(FormatData(e, mask));
  }
}
