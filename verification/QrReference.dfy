/** Two tables of the standard, and what the encoder computes compared with them. */
module QrReference {
  import opened BinaryCode
  import opened QrTables
  import opened QrFormat
  import opened QrFormatCode
  import opened QrVersion
  import QrVersionCode
  import opened QrCanvas

  /** How many bytes fit at the levels L, M, Q and H: table 7 of ISO/IEC 18004. */
  function BytesThatFit(v: nat): (int, int, int, int) {
    if v <= 10 then (match v
      case 1 => (17, 14, 11, 7) case 2 => (32, 26, 20, 14) case 3 => (53, 42, 32, 24) case 4 => (78, 62, 46, 34)
      case 5 => (106, 84, 60, 44) case 6 => (134, 106, 74, 58) case 7 => (154, 122, 86, 64)
      case 8 => (192, 152, 108, 84) case 9 => (230, 180, 130, 98) case _ => (271, 213, 151, 119))
    else if v <= 20 then (match v
      case 11 => (321, 251, 177, 137) case 12 => (367, 287, 203, 155) case 13 => (425, 331, 241, 177)
      case 14 => (458, 362, 258, 194) case 15 => (520, 412, 292, 220) case 16 => (586, 450, 322, 250)
      case 17 => (644, 504, 364, 280) case 18 => (718, 560, 394, 310) case 19 => (792, 624, 442, 338)
      case _ => (858, 666, 482, 382))
    else if v <= 30 then (match v
      case 21 => (929, 711, 509, 403) case 22 => (1003, 779, 565, 439) case 23 => (1091, 857, 611, 461)
      case 24 => (1171, 911, 661, 511) case 25 => (1273, 997, 715, 535) case 26 => (1367, 1059, 751, 593)
      case 27 => (1465, 1125, 805, 625) case 28 => (1528, 1190, 868, 658) case 29 => (1628, 1264, 908, 698)
      case _ => (1732, 1370, 982, 742))
    else (match v
      case 31 => (1840, 1452, 1030, 790) case 32 => (1952, 1538, 1112, 842) case 33 => (2068, 1628, 1168, 898)
      case 34 => (2188, 1722, 1228, 958) case 35 => (2303, 1809, 1283, 983) case 36 => (2431, 1911, 1351, 1051)
      case 37 => (2563, 1989, 1423, 1093) case 38 => (2699, 2099, 1499, 1139) case 39 => (2809, 2213, 1579, 1219)
      case _ => (2953, 2331, 1663, 1273))
  }

  /** The centres of the alignment patterns: annex E of ISO/IEC 18004. */
  function Centres(v: nat): seq<int> {
    if v <= 10 then (match v
      case 1 => [] case 2 => [6, 18] case 3 => [6, 22] case 4 => [6, 26] case 5 => [6, 30] case 6 => [6, 34]
      case 7 => [6, 22, 38] case 8 => [6, 24, 42] case 9 => [6, 26, 46] case _ => [6, 28, 50])
    else if v <= 20 then (match v
      case 11 => [6, 30, 54] case 12 => [6, 32, 58] case 13 => [6, 34, 62] case 14 => [6, 26, 46, 66]
      case 15 => [6, 26, 48, 70] case 16 => [6, 26, 50, 74] case 17 => [6, 30, 54, 78] case 18 => [6, 30, 56, 82]
      case 19 => [6, 30, 58, 86] case _ => [6, 34, 62, 90])
    else if v <= 30 then (match v
      case 21 => [6, 28, 50, 72, 94] case 22 => [6, 26, 50, 74, 98] case 23 => [6, 30, 54, 78, 102]
      case 24 => [6, 28, 54, 80, 106] case 25 => [6, 32, 58, 84, 110] case 26 => [6, 30, 58, 86, 114]
      case 27 => [6, 34, 62, 90, 118] case 28 => [6, 26, 50, 74, 98, 122] case 29 => [6, 30, 54, 78, 102, 126]
      case _ => [6, 26, 52, 78, 104, 130])
    else (match v
      case 31 => [6, 30, 56, 82, 108, 134] case 32 => [6, 34, 60, 86, 112, 138] case 33 => [6, 30, 58, 86, 114, 142]
      case 34 => [6, 34, 62, 90, 118, 146] case 35 => [6, 30, 54, 78, 102, 126, 150]
      case 36 => [6, 24, 50, 76, 102, 128, 154] case 37 => [6, 28, 54, 80, 106, 132, 158]
      case 38 => [6, 32, 58, 84, 110, 136, 162] case 39 => [6, 26, 54, 82, 110, 138, 166]
      case _ => [6, 30, 58, 86, 114, 142, 170])
  }

  /** The data codewords that a table entry leaves: mode, count and terminator take two of them, or three. */
  predicate CapacityOk(v: nat)
    requires IsVersion(v)
  {
    var bytes, more := BytesThatFit(v), if v <= 9 then 2 else 3;
    && NumDataCodewords(v, Low) == bytes.0 + more && NumDataCodewords(v, Medium) == bytes.1 + more
    && NumDataCodewords(v, Quartile) == bytes.2 + more && NumDataCodewords(v, High) == bytes.3 + more
  }

  lemma CapacityFrom1()
    ensures CapacityOk(1) && CapacityOk(2) && CapacityOk(3) && CapacityOk(4) && CapacityOk(5)
  {
    hide NumRawCodewords;
    RawFrom1();
  }

  lemma CapacityFrom6()
    ensures CapacityOk(6) && CapacityOk(7) && CapacityOk(8) && CapacityOk(9) && CapacityOk(10)
  {
    hide NumRawCodewords;
    RawFrom6();
  }

  lemma CapacityFrom11()
    ensures CapacityOk(11) && CapacityOk(12) && CapacityOk(13) && CapacityOk(14) && CapacityOk(15)
  {
    hide NumRawCodewords;
    RawFrom11();
  }

  lemma CapacityFrom16()
    ensures CapacityOk(16) && CapacityOk(17) && CapacityOk(18) && CapacityOk(19) && CapacityOk(20)
  {
    hide NumRawCodewords;
    RawFrom16();
  }

  lemma CapacityFrom21()
    ensures CapacityOk(21) && CapacityOk(22) && CapacityOk(23) && CapacityOk(24) && CapacityOk(25)
  {
    hide NumRawCodewords;
    RawFrom21();
  }

  lemma CapacityFrom26()
    ensures CapacityOk(26) && CapacityOk(27) && CapacityOk(28) && CapacityOk(29) && CapacityOk(30)
  {
    hide NumRawCodewords;
    RawFrom26();
  }

  lemma CapacityFrom31()
    ensures CapacityOk(31) && CapacityOk(32) && CapacityOk(33) && CapacityOk(34) && CapacityOk(35)
  {
    hide NumRawCodewords;
    RawFrom31();
  }

  lemma CapacityFrom36()
    ensures CapacityOk(36) && CapacityOk(37) && CapacityOk(38) && CapacityOk(39) && CapacityOk(40)
  {
    hide NumRawCodewords;
    RawFrom36();
  }

  lemma AllCapacities(v: nat)
    requires IsVersion(v)
    ensures CapacityOk(v)
  {
    hide CapacityOk;
    CapacityFrom1(); CapacityFrom6(); CapacityFrom11(); CapacityFrom16();
    CapacityFrom21(); CapacityFrom26(); CapacityFrom31(); CapacityFrom36();
  }

  function BytesAt(v: nat, e: Ecc): int {
    var bytes := BytesThatFit(v);
    match e
    case Low => bytes.0
    case Medium => bytes.1
    case Quartile => bytes.2
    case High => bytes.3
  }

  lemma HeaderBytes(d: int, countBits: nat)
    requires d >= 9 && countBits in {8, 16}
    ensures (8 * d - (4 + countBits)) / 8 == if countBits == 8 then d - 2 else d - 3
  {
  }

  /** The tables of block numbers and parity lengths leave as many bytes as the standard says, for every version and
      level. */
  lemma CapacityHolds(v: nat, e: Ecc)
    requires IsVersion(v)
    ensures ByteCapacity(v, e) == BytesAt(v, e)
  {
    AllCapacities(v);
    hide NumDataCodewords, BytesThatFit;
    EntryHolds(v, e);
    HeaderBytes(NumDataCodewords(v, e), CountBits(v));
  }

  /** Every level leaves less room than the one below it. */
  predicate Falling(v: nat) {
    var bytes := BytesThatFit(v);
    bytes.0 > bytes.1 > bytes.2 > bytes.3
  }

  lemma FallingFrom1()
    ensures Falling(1) && Falling(2) && Falling(3) && Falling(4) && Falling(5)
    ensures Falling(6) && Falling(7) && Falling(8) && Falling(9) && Falling(10)
  {
  }

  lemma FallingFrom11()
    ensures Falling(11) && Falling(12) && Falling(13) && Falling(14) && Falling(15)
    ensures Falling(16) && Falling(17) && Falling(18) && Falling(19) && Falling(20)
  {
  }

  lemma FallingFrom21()
    ensures Falling(21) && Falling(22) && Falling(23) && Falling(24) && Falling(25)
    ensures Falling(26) && Falling(27) && Falling(28) && Falling(29) && Falling(30)
  {
  }

  lemma FallingFrom31()
    ensures Falling(31) && Falling(32) && Falling(33) && Falling(34) && Falling(35)
    ensures Falling(36) && Falling(37) && Falling(38) && Falling(39) && Falling(40)
  {
  }

  lemma AllFalling(v: nat)
    requires IsVersion(v)
    ensures Falling(v)
  {
    hide Falling;
    FallingFrom1(); FallingFrom11(); FallingFrom21(); FallingFrom31();
  }

  /** The order of the levels, by which the encoder picks the strongest, is that of their parity: a stronger level
      leaves fewer data codewords, in every version. */
  lemma StrongerLeavesLess(v: nat, weaker: Ecc, stronger: Ecc)
    requires IsVersion(v) && weaker.Index() < stronger.Index()
    ensures EccLen(v, weaker) * NumBlocks(v, weaker) < EccLen(v, stronger) * NumBlocks(v, stronger)
    ensures NumDataCodewords(v, stronger) < NumDataCodewords(v, weaker)
  {
    AllFalling(v);
    AllCapacities(v);
    hide BytesThatFit, EccLen, NumBlocks, NumRawCodewords;
  }

  /** Centre number `i`, if there is one, is the one computed. */
  predicate CentreOk(v: nat, i: nat) {
    i < |Centres(v)| ==> Centres(v)[i] == AlignPos(v, i)
  }

  predicate CentresOk(v: nat) {
    && |Centres(v)| == NumAlign(v) <= 7
    && CentreOk(v, 0) && CentreOk(v, 1) && CentreOk(v, 2) && CentreOk(v, 3) && CentreOk(v, 4) && CentreOk(v, 5)
    && CentreOk(v, 6)
  }

  lemma CentresFrom1()
    ensures CentresOk(1) && CentresOk(2) && CentresOk(3) && CentresOk(4) && CentresOk(5)
  {
  }

  lemma CentresFrom6()
    ensures CentresOk(6) && CentresOk(7) && CentresOk(8) && CentresOk(9) && CentresOk(10)
  {
  }

  lemma CentresFrom11()
    ensures CentresOk(11) && CentresOk(12) && CentresOk(13) && CentresOk(14) && CentresOk(15)
  {
  }

  lemma CentresFrom16()
    ensures CentresOk(16) && CentresOk(17) && CentresOk(18) && CentresOk(19) && CentresOk(20)
  {
  }

  lemma CentresFrom21()
    ensures CentresOk(21) && CentresOk(22) && CentresOk(23) && CentresOk(24) && CentresOk(25)
  {
  }

  lemma CentresFrom26()
    ensures CentresOk(26) && CentresOk(27) && CentresOk(28) && CentresOk(29) && CentresOk(30)
  {
  }

  lemma CentresFrom31()
    ensures CentresOk(31) && CentresOk(32) && CentresOk(33) && CentresOk(34) && CentresOk(35)
  {
  }

  lemma CentresFrom36()
    ensures CentresOk(36) && CentresOk(37) && CentresOk(38) && CentresOk(39) && CentresOk(40)
  {
  }

  /** The coordinates computed are those of the standard, in every version. */
  lemma CentresHold(v: nat)
    requires IsVersion(v)
    ensures |Centres(v)| == NumAlign(v) && forall i :: 0 <= i < NumAlign(v) ==> Centres(v)[i] == AlignPos(v, i)
  {
    AllCentres(v);
    hide Centres, AlignPos;
    forall i | 0 <= i < NumAlign(v) ensures CentreOk(v, i) {
    }
  }

  lemma AllCentres(v: nat)
    requires IsVersion(v)
    ensures CentresOk(v)
  {
    hide CentresOk;
    CentresFrom1(); CentresFrom6(); CentresFrom11(); CentresFrom16();
    CentresFrom21(); CentresFrom26(); CentresFrom31(); CentresFrom36();
  }

  // ---- format and version words ----

  /** The format information of each level and mask: table C.1 of ISO/IEC 18004. */
  function FormatTable(e: Ecc, mask: nat): bv32
    requires mask < 8
  {
    match e
    case Low => (match mask
      case 0 => 0x77C4 case 1 => 0x72F3 case 2 => 0x7DAA case 3 => 0x789D
      case 4 => 0x662F case 5 => 0x6318 case 6 => 0x6C41 case _ => 0x6976)
    case Medium => (match mask
      case 0 => 0x5412 case 1 => 0x5125 case 2 => 0x5E7C case 3 => 0x5B4B
      case 4 => 0x45F9 case 5 => 0x40CE case 6 => 0x4F97 case _ => 0x4AA0)
    case Quartile => (match mask
      case 0 => 0x355F case 1 => 0x3068 case 2 => 0x3F31 case 3 => 0x3A06
      case 4 => 0x24B4 case 5 => 0x2183 case 6 => 0x2EDA case _ => 0x2BED)
    case High => (match mask
      case 0 => 0x1689 case 1 => 0x13BE case 2 => 0x1CE7 case 3 => 0x19D0
      case 4 => 0x762 case 5 => 0x255 case 6 => 0xD0C case _ => 0x83B)
  }

  lemma WordOfData(data: bv32)
    requires data < 0x20
    ensures Codeword(data) == WordFromBits(Has(data, 0x10), Has(data, 8), Has(data, 4), Has(data, 2), Has(data, 1))
  {
    hide Has, FromBits, WordFromBits, Codeword;
    BitsOfData(data);
    CodewordOfBits(Has(data, 0x10), Has(data, 8), Has(data, 4), Has(data, 2), Has(data, 1));
  }

  lemma LowWords(mask: nat)
    requires mask < 8
    ensures FormatWord(FormatData(Low, mask)) == FormatTable(Low, mask)
  {
    hide Codeword;
    WordOfData(FormatData(Low, mask));
  }

  lemma MediumWords(mask: nat)
    requires mask < 8
    ensures FormatWord(FormatData(Medium, mask)) == FormatTable(Medium, mask)
  {
    hide Codeword;
    WordOfData(FormatData(Medium, mask));
  }

  lemma QuartileWords(mask: nat)
    requires mask < 8
    ensures FormatWord(FormatData(Quartile, mask)) == FormatTable(Quartile, mask)
  {
    hide Codeword;
    WordOfData(FormatData(Quartile, mask));
  }

  lemma HighWords(mask: nat)
    requires mask < 8
    ensures FormatWord(FormatData(High, mask)) == FormatTable(High, mask)
  {
    hide Codeword;
    WordOfData(FormatData(High, mask));
  }

  /** The format information is the one of the standard, for every level and mask. */
  lemma FormatWordsHold(e: Ecc, mask: nat)
    requires mask < 8
    ensures FormatWord(FormatData(e, mask)) == FormatTable(e, mask)
  {
    hide FormatWord, FormatData, FormatTable;
    match e {
      case Low => LowWords(mask);
      case Medium => MediumWords(mask);
      case Quartile => QuartileWords(mask);
      case High => HighWords(mask);
    }
  }

  /** The version information of versions 7 to 40: table D.1 of ISO/IEC 18004. */
  function VersionTable(v: nat): bv32 {
    if v <= 15 then (match v
      case 7 => 0x7C94 case 8 => 0x85BC case 9 => 0x9A99 case 10 => 0xA4D3 case 11 => 0xBBF6
      case 12 => 0xC762 case 13 => 0xD847 case 14 => 0xE60D case _ => 0xF928)
    else if v <= 23 then (match v
      case 16 => 0x10B78 case 17 => 0x1145D case 18 => 0x12A17 case 19 => 0x13532 case 20 => 0x149A6
      case 21 => 0x15683 case 22 => 0x168C9 case _ => 0x177EC)
    else if v <= 31 then (match v
      case 24 => 0x18EC4 case 25 => 0x191E1 case 26 => 0x1AFAB case 27 => 0x1B08E case 28 => 0x1CC1A
      case 29 => 0x1D33F case 30 => 0x1ED75 case _ => 0x1F250)
    else (match v
      case 32 => 0x209D5 case 33 => 0x216F0 case 34 => 0x228BA case 35 => 0x2379F case 36 => 0x24B0B
      case 37 => 0x2542E case 38 => 0x26A64 case 39 => 0x27541 case _ => 0x28C69)
  }

  lemma WordOfVersion(v: bv32)
    requires v < 64
    ensures VersionWord(v)
         == QrVersionCode.WordFromBits(Has(v, 0x20), Has(v, 0x10), Has(v, 8), Has(v, 4), Has(v, 2), Has(v, 1))
  {
    hide Has, QrVersionCode.FromBits, QrVersionCode.WordFromBits, VersionWord;
    QrVersionCode.BitsOfNumber(v);
    QrVersionCode.WordOfBits(Has(v, 0x20), Has(v, 0x10), Has(v, 8), Has(v, 4), Has(v, 2), Has(v, 1));
  }

  predicate VersionOk(v: nat)
    requires v < 64
  {
    VersionWord(v as bv32) == VersionTable(v)
  }

  lemma VersionsFrom7()
    ensures VersionOk(7) && VersionOk(8) && VersionOk(9) && VersionOk(10) && VersionOk(11)
  {
    hide VersionWord;
    WordOfVersion(7);
    WordOfVersion(8);
    WordOfVersion(9);
    WordOfVersion(10);
    WordOfVersion(11);
  }

  lemma VersionsFrom12()
    ensures VersionOk(12) && VersionOk(13) && VersionOk(14) && VersionOk(15) && VersionOk(16)
  {
    hide VersionWord;
    WordOfVersion(12);
    WordOfVersion(13);
    WordOfVersion(14);
    WordOfVersion(15);
    WordOfVersion(16);
  }

  lemma VersionsFrom17()
    ensures VersionOk(17) && VersionOk(18) && VersionOk(19) && VersionOk(20) && VersionOk(21)
  {
    hide VersionWord;
    WordOfVersion(17);
    WordOfVersion(18);
    WordOfVersion(19);
    WordOfVersion(20);
    WordOfVersion(21);
  }

  lemma VersionsFrom22()
    ensures VersionOk(22) && VersionOk(23) && VersionOk(24) && VersionOk(25) && VersionOk(26)
  {
    hide VersionWord;
    WordOfVersion(22);
    WordOfVersion(23);
    WordOfVersion(24);
    WordOfVersion(25);
    WordOfVersion(26);
  }

  lemma VersionsFrom27()
    ensures VersionOk(27) && VersionOk(28) && VersionOk(29) && VersionOk(30) && VersionOk(31)
  {
    hide VersionWord;
    WordOfVersion(27);
    WordOfVersion(28);
    WordOfVersion(29);
    WordOfVersion(30);
    WordOfVersion(31);
  }

  lemma VersionsFrom32()
    ensures VersionOk(32) && VersionOk(33) && VersionOk(34) && VersionOk(35) && VersionOk(36)
  {
    hide VersionWord;
    WordOfVersion(32);
    WordOfVersion(33);
    WordOfVersion(34);
    WordOfVersion(35);
    WordOfVersion(36);
  }

  lemma VersionsFrom37()
    ensures VersionOk(37) && VersionOk(38) && VersionOk(39) && VersionOk(40)
  {
    hide VersionWord;
    WordOfVersion(37);
    WordOfVersion(38);
    WordOfVersion(39);
    WordOfVersion(40);
  }

  lemma AllVersions(v: nat)
    requires 7 <= v <= 40
    ensures VersionOk(v)
  {
    hide VersionOk;
    VersionsFrom7();
    VersionsFrom12();
    VersionsFrom17();
    VersionsFrom22();
    VersionsFrom27();
    VersionsFrom32();
    VersionsFrom37();
  }

  /** The version information is the one of the standard, for every version that has it. */
  lemma VersionWordsHold(v: nat)
    requires 7 <= v <= 40
    ensures VersionWord(v as bv32) == VersionTable(v)
  {
    hide VersionWord, VersionTable;
    AllVersions(v);
  }
}
