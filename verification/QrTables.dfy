/** Versions, error-correction levels and capacities: tables 1, 7 and 9 of ISO/IEC 18004. */
module QrTables {
  datatype Ecc = Low | Medium | Quartile | High {
    function Index(): (i: nat)
      ensures i < 4
    {
      match this
      case Low => 0
      case Medium => 1
      case Quartile => 2
      case High => 3
    }
  }

  const MIN_VERSION := 1
  const MAX_VERSION := 40

  // Parity codewords in each block, for versions 1 to 40.

  function EccCodewordsLow(v: nat): nat {
    if v <= 10 then (match v
      case 1 => 7 case 2 => 10 case 3 => 15 case 4 => 20 case 5 => 26
      case 6 => 18 case 7 => 20 case 8 => 24 case 9 => 30 case _ => 18)
    else if v <= 20 then (match v
      case 11 => 20 case 12 => 24 case 13 => 26 case 14 => 30 case 15 => 22
      case 16 => 24 case 17 => 28 case 18 => 30 case 19 => 28 case _ => 28)
    else if v <= 30 then (match v
      case 21 => 28 case 22 => 28 case 23 => 30 case 24 => 30 case 25 => 26
      case 26 => 28 case 27 => 30 case 28 => 30 case 29 => 30 case _ => 30)
    else (match v
      case 31 => 30 case 32 => 30 case 33 => 30 case 34 => 30 case 35 => 30
      case 36 => 30 case 37 => 30 case 38 => 30 case 39 => 30 case _ => 30)
  }

  function EccCodewordsMedium(v: nat): nat {
    if v <= 10 then (match v
      case 1 => 10 case 2 => 16 case 3 => 26 case 4 => 18 case 5 => 24
      case 6 => 16 case 7 => 18 case 8 => 22 case 9 => 22 case _ => 26)
    else if v <= 20 then (match v
      case 11 => 30 case 12 => 22 case 13 => 22 case 14 => 24 case 15 => 24
      case 16 => 28 case 17 => 28 case 18 => 26 case 19 => 26 case _ => 26)
    else if v <= 30 then (match v
      case 21 => 26 case 22 => 28 case 23 => 28 case 24 => 28 case 25 => 28
      case 26 => 28 case 27 => 28 case 28 => 28 case 29 => 28 case _ => 28)
    else (match v
      case 31 => 28 case 32 => 28 case 33 => 28 case 34 => 28 case 35 => 28
      case 36 => 28 case 37 => 28 case 38 => 28 case 39 => 28 case _ => 28)
  }

  function EccCodewordsQuartile(v: nat): nat {
    if v <= 10 then (match v
      case 1 => 13 case 2 => 22 case 3 => 18 case 4 => 26 case 5 => 18
      case 6 => 24 case 7 => 18 case 8 => 22 case 9 => 20 case _ => 24)
    else if v <= 20 then (match v
      case 11 => 28 case 12 => 26 case 13 => 24 case 14 => 20 case 15 => 30
      case 16 => 24 case 17 => 28 case 18 => 28 case 19 => 26 case _ => 30)
    else if v <= 30 then (match v
      case 21 => 28 case 22 => 30 case 23 => 30 case 24 => 30 case 25 => 30
      case 26 => 28 case 27 => 30 case 28 => 30 case 29 => 30 case _ => 30)
    else (match v
      case 31 => 30 case 32 => 30 case 33 => 30 case 34 => 30 case 35 => 30
      case 36 => 30 case 37 => 30 case 38 => 30 case 39 => 30 case _ => 30)
  }

  function EccCodewordsHigh(v: nat): nat {
    if v <= 10 then (match v
      case 1 => 17 case 2 => 28 case 3 => 22 case 4 => 16 case 5 => 22
      case 6 => 28 case 7 => 26 case 8 => 26 case 9 => 24 case _ => 28)
    else if v <= 20 then (match v
      case 11 => 24 case 12 => 28 case 13 => 22 case 14 => 24 case 15 => 24
      case 16 => 30 case 17 => 28 case 18 => 28 case 19 => 26 case _ => 28)
    else if v <= 30 then (match v
      case 21 => 30 case 22 => 24 case 23 => 30 case 24 => 30 case 25 => 30
      case 26 => 30 case 27 => 30 case 28 => 30 case 29 => 30 case _ => 30)
    else (match v
      case 31 => 30 case 32 => 30 case 33 => 30 case 34 => 30 case 35 => 30
      case 36 => 30 case 37 => 30 case 38 => 30 case 39 => 30 case _ => 30)
  }

  // Number of blocks, for versions 1 to 40.

  function BlocksLow(v: nat): nat {
    if v <= 10 then (match v
      case 1 => 1 case 2 => 1 case 3 => 1 case 4 => 1 case 5 => 1
      case 6 => 2 case 7 => 2 case 8 => 2 case 9 => 2 case _ => 4)
    else if v <= 20 then (match v
      case 11 => 4 case 12 => 4 case 13 => 4 case 14 => 4 case 15 => 6
      case 16 => 6 case 17 => 6 case 18 => 6 case 19 => 7 case _ => 8)
    else if v <= 30 then (match v
      case 21 => 8 case 22 => 9 case 23 => 9 case 24 => 10 case 25 => 12
      case 26 => 12 case 27 => 12 case 28 => 13 case 29 => 14 case _ => 15)
    else (match v
      case 31 => 16 case 32 => 17 case 33 => 18 case 34 => 19 case 35 => 19
      case 36 => 20 case 37 => 21 case 38 => 22 case 39 => 24 case _ => 25)
  }

  function BlocksMedium(v: nat): nat {
    if v <= 10 then (match v
      case 1 => 1 case 2 => 1 case 3 => 1 case 4 => 2 case 5 => 2
      case 6 => 4 case 7 => 4 case 8 => 4 case 9 => 5 case _ => 5)
    else if v <= 20 then (match v
      case 11 => 5 case 12 => 8 case 13 => 9 case 14 => 9 case 15 => 10
      case 16 => 10 case 17 => 11 case 18 => 13 case 19 => 14 case _ => 16)
    else if v <= 30 then (match v
      case 21 => 17 case 22 => 17 case 23 => 18 case 24 => 20 case 25 => 21
      case 26 => 23 case 27 => 25 case 28 => 26 case 29 => 28 case _ => 29)
    else (match v
      case 31 => 31 case 32 => 33 case 33 => 35 case 34 => 37 case 35 => 38
      case 36 => 40 case 37 => 43 case 38 => 45 case 39 => 47 case _ => 49)
  }

  function BlocksQuartile(v: nat): nat {
    if v <= 10 then (match v
      case 1 => 1 case 2 => 1 case 3 => 2 case 4 => 2 case 5 => 4
      case 6 => 4 case 7 => 6 case 8 => 6 case 9 => 8 case _ => 8)
    else if v <= 20 then (match v
      case 11 => 8 case 12 => 10 case 13 => 12 case 14 => 16 case 15 => 12
      case 16 => 17 case 17 => 16 case 18 => 18 case 19 => 21 case _ => 20)
    else if v <= 30 then (match v
      case 21 => 23 case 22 => 23 case 23 => 25 case 24 => 27 case 25 => 29
      case 26 => 34 case 27 => 34 case 28 => 35 case 29 => 38 case _ => 40)
    else (match v
      case 31 => 43 case 32 => 45 case 33 => 48 case 34 => 51 case 35 => 53
      case 36 => 56 case 37 => 59 case 38 => 62 case 39 => 65 case _ => 68)
  }

  function BlocksHigh(v: nat): nat {
    if v <= 10 then (match v
      case 1 => 1 case 2 => 1 case 3 => 2 case 4 => 4 case 5 => 4
      case 6 => 4 case 7 => 5 case 8 => 6 case 9 => 8 case _ => 8)
    else if v <= 20 then (match v
      case 11 => 11 case 12 => 11 case 13 => 16 case 14 => 16 case 15 => 18
      case 16 => 16 case 17 => 19 case 18 => 21 case 19 => 25 case _ => 25)
    else if v <= 30 then (match v
      case 21 => 25 case 22 => 34 case 23 => 30 case 24 => 32 case 25 => 35
      case 26 => 37 case 27 => 40 case 28 => 42 case 29 => 45 case _ => 48)
    else (match v
      case 31 => 51 case 32 => 54 case 33 => 57 case 34 => 60 case 35 => 63
      case 36 => 66 case 37 => 70 case 38 => 74 case 39 => 77 case _ => 81)
  }

  predicate IsVersion(v: int) {
    MIN_VERSION <= v <= MAX_VERSION
  }

  function EccLen(v: nat, e: Ecc): nat
    requires IsVersion(v)
  {
    match e
    case Low => EccCodewordsLow(v)
    case Medium => EccCodewordsMedium(v)
    case Quartile => EccCodewordsQuartile(v)
    case High => EccCodewordsHigh(v)
  }

  function NumBlocks(v: nat, e: Ecc): nat
    requires IsVersion(v)
  {
    match e
    case Low => BlocksLow(v)
    case Medium => BlocksMedium(v)
    case Quartile => BlocksQuartile(v)
    case High => BlocksHigh(v)
  }

  /** Alignment patterns along each side. */
  function NumAlign(v: nat): nat {
    if v == 1 then 0 else v / 7 + 2
  }

  /** Modules left for data and parity. */
  function NumRawDataModules(v: nat): int {
    var n := v / 7 + 2;
    (16 * v + 128) * v + 64 - (if v >= 2 then (25 * n - 10) * n - 55 else 0) - (if v >= 7 then 36 else 0)
  }

  function NumRawCodewords(v: nat): int {
    NumRawDataModules(v) / 8
  }

  function NumDataCodewords(v: nat, e: Ecc): int
    requires IsVersion(v)
  {
    NumRawCodewords(v) - EccLen(v, e) * NumBlocks(v, e)
  }

  /** Width of the character count field. */
  function CountBits(v: nat): nat {
    if v <= 9 then 8 else 16
  }

  /** Payload bytes that fit. */
  function ByteCapacity(v: nat, e: Ecc): int
    requires IsVersion(v)
  {
    var bits := NumDataCodewords(v, e) * 8;
    var header := 4 + CountBits(v);
    (if bits >= header then bits - header else 0) / 8
  }

  /** What the encoder relies on for one entry of the tables. */
  predicate EntryOk(v: nat, e: Ecc)
    requires IsVersion(v)
  {
    && 0 < EccLen(v, e) && 0 < NumBlocks(v, e)
    && NumBlocks(v, e) * (EccLen(v, e) + 1) <= NumRawCodewords(v)
    && NumRawCodewords(v) <= NumBlocks(v, e) * 254
    && 9 <= NumDataCodewords(v, e) <= (if v <= 9 then 255 else 8000)
  }

  // The raw capacities and the entries, a few versions at a time, by evaluation.

  lemma RawFrom1()
    ensures NumRawCodewords(1) == 26 && NumRawCodewords(2) == 44
    ensures NumRawCodewords(3) == 70 && NumRawCodewords(4) == 100 && NumRawCodewords(5) == 134
  {
  }

  lemma RawFrom6()
    ensures NumRawCodewords(6) == 172 && NumRawCodewords(7) == 196
    ensures NumRawCodewords(8) == 242 && NumRawCodewords(9) == 292 && NumRawCodewords(10) == 346
  {
  }

  lemma RawFrom11()
    ensures NumRawCodewords(11) == 404 && NumRawCodewords(12) == 466
    ensures NumRawCodewords(13) == 532 && NumRawCodewords(14) == 581 && NumRawCodewords(15) == 655
  {
  }

  lemma RawFrom16()
    ensures NumRawCodewords(16) == 733 && NumRawCodewords(17) == 815
    ensures NumRawCodewords(18) == 901 && NumRawCodewords(19) == 991 && NumRawCodewords(20) == 1085
  {
  }

  lemma RawFrom21()
    ensures NumRawCodewords(21) == 1156 && NumRawCodewords(22) == 1258
    ensures NumRawCodewords(23) == 1364 && NumRawCodewords(24) == 1474 && NumRawCodewords(25) == 1588
  {
  }

  lemma RawFrom26()
    ensures NumRawCodewords(26) == 1706 && NumRawCodewords(27) == 1828
    ensures NumRawCodewords(28) == 1921 && NumRawCodewords(29) == 2051 && NumRawCodewords(30) == 2185
  {
  }

  lemma RawFrom31()
    ensures NumRawCodewords(31) == 2323 && NumRawCodewords(32) == 2465
    ensures NumRawCodewords(33) == 2611 && NumRawCodewords(34) == 2761 && NumRawCodewords(35) == 2876
  {
  }

  lemma RawFrom36()
    ensures NumRawCodewords(36) == 3034 && NumRawCodewords(37) == 3196
    ensures NumRawCodewords(38) == 3362 && NumRawCodewords(39) == 3532 && NumRawCodewords(40) == 3706
  {
  }

  lemma LowFrom1()
    ensures EntryOk(1, Low) && EntryOk(2, Low) && EntryOk(3, Low)
    ensures EntryOk(4, Low) && EntryOk(5, Low)
  {
    hide NumRawCodewords;
    RawFrom1();
  }

  lemma LowFrom6()
    ensures EntryOk(6, Low) && EntryOk(7, Low) && EntryOk(8, Low)
    ensures EntryOk(9, Low) && EntryOk(10, Low)
  {
    hide NumRawCodewords;
    RawFrom6();
  }

  lemma LowFrom11()
    ensures EntryOk(11, Low) && EntryOk(12, Low) && EntryOk(13, Low)
    ensures EntryOk(14, Low) && EntryOk(15, Low)
  {
    hide NumRawCodewords;
    RawFrom11();
  }

  lemma LowFrom16()
    ensures EntryOk(16, Low) && EntryOk(17, Low) && EntryOk(18, Low)
    ensures EntryOk(19, Low) && EntryOk(20, Low)
  {
    hide NumRawCodewords;
    RawFrom16();
  }

  lemma LowFrom21()
    ensures EntryOk(21, Low) && EntryOk(22, Low) && EntryOk(23, Low)
    ensures EntryOk(24, Low) && EntryOk(25, Low)
  {
    hide NumRawCodewords;
    RawFrom21();
  }

  lemma LowFrom26()
    ensures EntryOk(26, Low) && EntryOk(27, Low) && EntryOk(28, Low)
    ensures EntryOk(29, Low) && EntryOk(30, Low)
  {
    hide NumRawCodewords;
    RawFrom26();
  }

  lemma LowFrom31()
    ensures EntryOk(31, Low) && EntryOk(32, Low) && EntryOk(33, Low)
    ensures EntryOk(34, Low) && EntryOk(35, Low)
  {
    hide NumRawCodewords;
    RawFrom31();
  }

  lemma LowFrom36()
    ensures EntryOk(36, Low) && EntryOk(37, Low) && EntryOk(38, Low)
    ensures EntryOk(39, Low) && EntryOk(40, Low)
  {
    hide NumRawCodewords;
    RawFrom36();
  }

  lemma MediumFrom1()
    ensures EntryOk(1, Medium) && EntryOk(2, Medium) && EntryOk(3, Medium)
    ensures EntryOk(4, Medium) && EntryOk(5, Medium)
  {
    hide NumRawCodewords;
    RawFrom1();
  }

  lemma MediumFrom6()
    ensures EntryOk(6, Medium) && EntryOk(7, Medium) && EntryOk(8, Medium)
    ensures EntryOk(9, Medium) && EntryOk(10, Medium)
  {
    hide NumRawCodewords;
    RawFrom6();
  }

  lemma MediumFrom11()
    ensures EntryOk(11, Medium) && EntryOk(12, Medium) && EntryOk(13, Medium)
    ensures EntryOk(14, Medium) && EntryOk(15, Medium)
  {
    hide NumRawCodewords;
    RawFrom11();
  }

  lemma MediumFrom16()
    ensures EntryOk(16, Medium) && EntryOk(17, Medium) && EntryOk(18, Medium)
    ensures EntryOk(19, Medium) && EntryOk(20, Medium)
  {
    hide NumRawCodewords;
    RawFrom16();
  }

  lemma MediumFrom21()
    ensures EntryOk(21, Medium) && EntryOk(22, Medium) && EntryOk(23, Medium)
    ensures EntryOk(24, Medium) && EntryOk(25, Medium)
  {
    hide NumRawCodewords;
    RawFrom21();
  }

  lemma MediumFrom26()
    ensures EntryOk(26, Medium) && EntryOk(27, Medium) && EntryOk(28, Medium)
    ensures EntryOk(29, Medium) && EntryOk(30, Medium)
  {
    hide NumRawCodewords;
    RawFrom26();
  }

  lemma MediumFrom31()
    ensures EntryOk(31, Medium) && EntryOk(32, Medium) && EntryOk(33, Medium)
    ensures EntryOk(34, Medium) && EntryOk(35, Medium)
  {
    hide NumRawCodewords;
    RawFrom31();
  }

  lemma MediumFrom36()
    ensures EntryOk(36, Medium) && EntryOk(37, Medium) && EntryOk(38, Medium)
    ensures EntryOk(39, Medium) && EntryOk(40, Medium)
  {
    hide NumRawCodewords;
    RawFrom36();
  }

  lemma QuartileFrom1()
    ensures EntryOk(1, Quartile) && EntryOk(2, Quartile) && EntryOk(3, Quartile)
    ensures EntryOk(4, Quartile) && EntryOk(5, Quartile)
  {
    hide NumRawCodewords;
    RawFrom1();
  }

  lemma QuartileFrom6()
    ensures EntryOk(6, Quartile) && EntryOk(7, Quartile) && EntryOk(8, Quartile)
    ensures EntryOk(9, Quartile) && EntryOk(10, Quartile)
  {
    hide NumRawCodewords;
    RawFrom6();
  }

  lemma QuartileFrom11()
    ensures EntryOk(11, Quartile) && EntryOk(12, Quartile) && EntryOk(13, Quartile)
    ensures EntryOk(14, Quartile) && EntryOk(15, Quartile)
  {
    hide NumRawCodewords;
    RawFrom11();
  }

  lemma QuartileFrom16()
    ensures EntryOk(16, Quartile) && EntryOk(17, Quartile) && EntryOk(18, Quartile)
    ensures EntryOk(19, Quartile) && EntryOk(20, Quartile)
  {
    hide NumRawCodewords;
    RawFrom16();
  }

  lemma QuartileFrom21()
    ensures EntryOk(21, Quartile) && EntryOk(22, Quartile) && EntryOk(23, Quartile)
    ensures EntryOk(24, Quartile) && EntryOk(25, Quartile)
  {
    hide NumRawCodewords;
    RawFrom21();
  }

  lemma QuartileFrom26()
    ensures EntryOk(26, Quartile) && EntryOk(27, Quartile) && EntryOk(28, Quartile)
    ensures EntryOk(29, Quartile) && EntryOk(30, Quartile)
  {
    hide NumRawCodewords;
    RawFrom26();
  }

  lemma QuartileFrom31()
    ensures EntryOk(31, Quartile) && EntryOk(32, Quartile) && EntryOk(33, Quartile)
    ensures EntryOk(34, Quartile) && EntryOk(35, Quartile)
  {
    hide NumRawCodewords;
    RawFrom31();
  }

  lemma QuartileFrom36()
    ensures EntryOk(36, Quartile) && EntryOk(37, Quartile) && EntryOk(38, Quartile)
    ensures EntryOk(39, Quartile) && EntryOk(40, Quartile)
  {
    hide NumRawCodewords;
    RawFrom36();
  }

  lemma HighFrom1()
    ensures EntryOk(1, High) && EntryOk(2, High) && EntryOk(3, High)
    ensures EntryOk(4, High) && EntryOk(5, High)
  {
    hide NumRawCodewords;
    RawFrom1();
  }

  lemma HighFrom6()
    ensures EntryOk(6, High) && EntryOk(7, High) && EntryOk(8, High)
    ensures EntryOk(9, High) && EntryOk(10, High)
  {
    hide NumRawCodewords;
    RawFrom6();
  }

  lemma HighFrom11()
    ensures EntryOk(11, High) && EntryOk(12, High) && EntryOk(13, High)
    ensures EntryOk(14, High) && EntryOk(15, High)
  {
    hide NumRawCodewords;
    RawFrom11();
  }

  lemma HighFrom16()
    ensures EntryOk(16, High) && EntryOk(17, High) && EntryOk(18, High)
    ensures EntryOk(19, High) && EntryOk(20, High)
  {
    hide NumRawCodewords;
    RawFrom16();
  }

  lemma HighFrom21()
    ensures EntryOk(21, High) && EntryOk(22, High) && EntryOk(23, High)
    ensures EntryOk(24, High) && EntryOk(25, High)
  {
    hide NumRawCodewords;
    RawFrom21();
  }

  lemma HighFrom26()
    ensures EntryOk(26, High) && EntryOk(27, High) && EntryOk(28, High)
    ensures EntryOk(29, High) && EntryOk(30, High)
  {
    hide NumRawCodewords;
    RawFrom26();
  }

  lemma HighFrom31()
    ensures EntryOk(31, High) && EntryOk(32, High) && EntryOk(33, High)
    ensures EntryOk(34, High) && EntryOk(35, High)
  {
    hide NumRawCodewords;
    RawFrom31();
  }

  lemma HighFrom36()
    ensures EntryOk(36, High) && EntryOk(37, High) && EntryOk(38, High)
    ensures EntryOk(39, High) && EntryOk(40, High)
  {
    hide NumRawCodewords;
    RawFrom36();
  }

  /** Every entry of the tables is as the encoder relies on. */
  lemma EntryHolds(v: nat, e: Ecc)
    requires IsVersion(v)
    ensures EntryOk(v, e)
  {
    match e {
      case Low =>
        LowFrom1(); LowFrom6(); LowFrom11(); LowFrom16();
        LowFrom21(); LowFrom26(); LowFrom31(); LowFrom36();
      case Medium =>
        MediumFrom1(); MediumFrom6(); MediumFrom11(); MediumFrom16();
        MediumFrom21(); MediumFrom26(); MediumFrom31(); MediumFrom36();
      case Quartile =>
        QuartileFrom1(); QuartileFrom6(); QuartileFrom11(); QuartileFrom16();
        QuartileFrom21(); QuartileFrom26(); QuartileFrom31(); QuartileFrom36();
      case High =>
        HighFrom1(); HighFrom6(); HighFrom11(); HighFrom16();
        HighFrom21(); HighFrom26(); HighFrom31(); HighFrom36();
    }
    hide EntryOk;
  }
}
