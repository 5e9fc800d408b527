/** The finished symbol module by module, compared with the figures of ISO/IEC 18004. */
module QrPicture {
  import opened Bits
  import opened Grid
  import opened QrTables
  import opened QrFormat
  import opened QrVersion
  import QrVersionCode
  import opened QrCanvas
  import opened QrMask
  import opened QrBits
  import opened QrCount
  import opened QrPlace
  import opened QrReference
  import opened Zigzag
  import opened Qr

  lemma GridPattern(v: nat, codewords: seq<bv8>, x: int, y: int)
    requires IsVersion(v) && 0 <= x < SizeOf(v) && 0 <= y < SizeOf(v) && InPatterns(v, x, y)
    ensures DataGrid(v, codewords).Get(x, y) == PatternColour(v, x, y)
  {
    hide PatternColour, InPatterns, ReadFree, FullOrder, CodewordBits, Placed;
    var size, fn := SizeOf(v), FunctionGrid(v);
    OrderInside(size, (size - 1) / 2);
    FullOrderMembers(size);
    ReadPlaced(PatternGrid(v), fn, FullOrder(size), CodewordBits(codewords));
    assert fn.Get(x, y);
  }

  /** A module of a function pattern outside the format area has the pattern's colour, whatever the data and mask. */
  lemma PatternModule(v: nat, e: Ecc, codewords: seq<bv8>, mask: nat, x: int, y: int)
    requires IsVersion(v) && mask < 8 && 0 <= x < SizeOf(v) && 0 <= y < SizeOf(v)
    requires InPatterns(v, x, y) && !InFormat(SizeOf(v), x, y)
    ensures Symbol(v, e, codewords, mask).Get(x, y) == PatternColour(v, x, y)
  {
    GridPattern(v, codewords, x, y);
    hide PatternColour, InFormat, InPatterns, FormatColour, Invert, DataGrid;
    assert FunctionGrid(v).Get(x, y);
  }

  /** Finder pattern and separator: sections 6.3.3 and 6.3.4 of ISO/IEC 18004. */
  function FinderRow(y: nat): string
    requires y < 8
    ensures |FinderRow(y)| == 8
  {
    match y
    case 0 => "#######."
    case 1 => "#.....#."
    case 2 => "#.###.#."
    case 3 => "#.###.#."
    case 4 => "#.###.#."
    case 5 => "#.....#."
    case 6 => "#######."
    case _ => "........"
  }

  lemma FinderRings(x: nat, y: nat)
    requires x < 8 && y < 8
    ensures Ring(3, 3, x, y) !in {2, 4} <==> FinderRow(y)[x] == '#'
  {
    match y
    case 0 => case 1 => case 2 => case 3 => case 4 => case 5 => case 6 => case _ =>
  }

  /** Alignment patterns keep away from the finder patterns, the format area and the version area. */
  lemma AlignmentClear(v: nat, i: nat, j: nat, x: int, y: int)
    requires IsVersion(v) && i < NumAlign(v) && j < NumAlign(v) && AlignmentAt(v, i, j, x, y)
    ensures var size := SizeOf(v);
      && 4 <= x < size - 4 && 4 <= y < size - 4 && !InFinders(size, x, y) && !InFormat(size, x, y)
      && !InVersion(size, x, y)
  {
    FirstPos(v);
    hide AlignPos;
    if i > 0 {
      InnerPos(v, i);
    }
    if j > 0 {
      InnerPos(v, j);
    }
  }

  lemma NoAlignment(v: nat, x: int, y: int)
    requires IsVersion(v) && InFinders(SizeOf(v), x, y)
    ensures !InAlignments(v, x, y)
  {
    hide AlignmentAt, InFinders;
    if InAlignments(v, x, y) {
      var i, j :| 0 <= i < NumAlign(v) && 0 <= j < NumAlign(v) && AlignmentAt(v, i, j, x, y);
      AlignmentClear(v, i, j, x, y);
    }
  }

  lemma FinderAt(v: nat, x: int, y: int)
    requires IsVersion(v) && InFinders(SizeOf(v), x, y) && 0 <= x < SizeOf(v) && 0 <= y < SizeOf(v)
    ensures PatternColour(v, x, y) == FinderColour(SizeOf(v), x, y)
  {
    NoAlignment(v, x, y);
    hide InAlignments, AlignmentColour, FinderColour, VersionColour;
  }

  lemma FinderPlaces(size: nat, x: nat, y: nat)
    requires size >= 21 && x < 8 && y < 8
    ensures InFinders(size, x, y) && FinderColour(size, x, y) == (Ring(3, 3, x, y) !in {2, 4})
    ensures InFinders(size, size - 1 - x, y) && FinderColour(size, size - 1 - x, y) == (Ring(3, 3, x, y) !in {2, 4})
    ensures InFinders(size, x, size - 1 - y) && FinderColour(size, x, size - 1 - y) == (Ring(3, 3, x, y) !in {2, 4})
  {
  }

  /** The three corners show the finder pattern, turned so that its light edge points inwards. */
  lemma FinderModules(v: nat, e: Ecc, codewords: seq<bv8>, mask: nat, x: nat, y: nat)
    requires IsVersion(v) && mask < 8 && x < 8 && y < 8
    ensures var g, size, dark := Symbol(v, e, codewords, mask), SizeOf(v), FinderRow(y)[x] == '#';
      g.Get(x, y) == g.Get(size - 1 - x, y) == g.Get(x, size - 1 - y) == dark
  {
    hide Symbol, PatternColour, InAlignments, FinderRow, Ring, InFinders, FinderColour;
    var size := SizeOf(v);
    FinderPlaces(size, x, y);
    FinderAt(v, x, y);
    FinderAt(v, size - 1 - x, y);
    FinderAt(v, x, size - 1 - y);
    PatternModule(v, e, codewords, mask, x, y);
    PatternModule(v, e, codewords, mask, size - 1 - x, y);
    PatternModule(v, e, codewords, mask, x, size - 1 - y);
    FinderRings(x, y);
  }

  /** An alignment pattern: section 6.3.6 of ISO/IEC 18004. */
  function AlignmentRow(y: nat): string
    requires y < 5
    ensures |AlignmentRow(y)| == 5
  {
    match y
    case 0 => "#####"
    case 1 => "#...#"
    case 2 => "#.#.#"
    case 3 => "#...#"
    case _ => "#####"
  }

  lemma AlignmentRings(cx: int, cy: int, x: nat, y: nat)
    requires x < 5 && y < 5
    ensures Ring(cx, cy, cx - 2 + x, cy - 2 + y) <= 2
    ensures Ring(cx, cy, cx - 2 + x, cy - 2 + y) != 1 <==> AlignmentRow(y)[x] == '#'
  {
    match y
    case 0 => case 1 => case 2 => case 3 => case _ =>
  }

  /** At every pair of centres but three the symbol shows an alignment pattern. */
  lemma AlignmentModules(v: nat, e: Ecc, codewords: seq<bv8>, mask: nat, i: nat, j: nat, x: nat, y: nat)
    requires IsVersion(v) && mask < 8 && i < |Centres(v)| && j < |Centres(v)| && x < 5 && y < 5
    requires var last := |Centres(v)| - 1; (i, j) != (0, 0) && (i, j) != (0, last) && (i, j) != (last, 0)
    ensures Symbol(v, e, codewords, mask).Get(Centres(v)[i] - 2 + x, Centres(v)[j] - 2 + y)
         == (AlignmentRow(y)[x] == '#')
  {
    CentresHold(v);
    hide Centres, AlignPos, Symbol, AlignmentRow, PatternColour;
    var cx, cy := AlignPos(v, i), AlignPos(v, j);
    var px, py := cx - 2 + x, cy - 2 + y;
    AlignmentRings(cx, cy, x, y);
    assert AlignmentAt(v, i, j, px, py);
    AlignmentClear(v, i, j, px, py);
    PatternModule(v, e, codewords, mask, px, py);
    AlignmentPattern(v, i, j, px, py);
  }

  lemma AlignmentPattern(v: nat, i: nat, j: nat, x: int, y: int)
    requires IsVersion(v) && i < NumAlign(v) && j < NumAlign(v) && AlignmentAt(v, i, j, x, y)
    ensures PatternColour(v, x, y) == (Ring(AlignPos(v, i), AlignPos(v, j), x, y) != 1)
  {
    AlignmentClear(v, i, j, x, y);
    ColourOfOne(v, i, j, x, y);
    hide AlignPos, AlignmentAt, AlignmentColour, Ring, InFormat, InFinders, VersionColour, InVersion;
  }

  lemma StepEven(v: nat) returns (half: nat)
    ensures AlignStep(v) == 2 * half
  {
    var n := v / 7 + 2;
    half := if v == 32 then 13 else (v * 4 + n * 2 + 1) / (n * 2 - 2);
  }

  lemma Doubled(half: int, k: int)
    ensures 2 * half * k == 2 * (half * k)
  {
  }

  lemma CentreEven(v: nat, i: nat)
    ensures AlignPos(v, i) % 2 == 0
  {
    var half := StepEven(v);
    var k := v / 7 + 1 - i;
    Doubled(half, k);
    hide AlignStep;
    assert i > 0 ==> AlignPos(v, i) == 2 * (2 * v + 5 - half * k);
  }

  /** Between the finder patterns row and column 6 alternate, dark at even places. */
  lemma TimingModules(v: nat, e: Ecc, codewords: seq<bv8>, mask: nat, k: nat)
    requires IsVersion(v) && mask < 8 && 8 <= k <= SizeOf(v) - 9
    ensures var g := Symbol(v, e, codewords, mask); g.Get(k, 6) == g.Get(6, k) == (k % 2 == 0)
  {
    hide Symbol, PatternColour;
    PatternModule(v, e, codewords, mask, k, 6);
    PatternModule(v, e, codewords, mask, 6, k);
    TimingPattern(v, k);
  }

  lemma TimingPattern(v: nat, k: nat)
    requires IsVersion(v) && 8 <= k <= SizeOf(v) - 9
    ensures PatternColour(v, k, 6) == PatternColour(v, 6, k) == (k % 2 == 0)
  {
    hide AlignPos, AlignmentAt;
    if InAlignments(v, k, 6) {
      var i, j :| 0 <= i < NumAlign(v) && 0 <= j < NumAlign(v) && AlignmentAt(v, i, j, k, 6);
      AlignmentPattern(v, i, j, k, 6);
      OnLine(v, i, j, k);
    }
    if InAlignments(v, 6, k) {
      var i, j :| 0 <= i < NumAlign(v) && 0 <= j < NumAlign(v) && AlignmentAt(v, i, j, 6, k);
      AlignmentPattern(v, i, j, 6, k);
      OnColumn(v, i, j, k);
    }
    hide AlignmentColour, Ring;
  }

  lemma OnLine(v: nat, i: nat, j: nat, k: nat)
    requires IsVersion(v) && i < NumAlign(v) && j < NumAlign(v) && AlignmentAt(v, i, j, k, 6)
    ensures Ring(AlignPos(v, i), AlignPos(v, j), k, 6) != 1 <==> k % 2 == 0
  {
    CentreEven(v, i);
    FirstPos(v);
    hide AlignPos;
    if j > 0 {
      InnerPos(v, j);
    }
  }

  lemma OnColumn(v: nat, i: nat, j: nat, k: nat)
    requires IsVersion(v) && i < NumAlign(v) && j < NumAlign(v) && AlignmentAt(v, i, j, 6, k)
    ensures Ring(AlignPos(v, i), AlignPos(v, j), 6, k) != 1 <==> k % 2 == 0
  {
    CentreEven(v, j);
    FirstPos(v);
    hide AlignPos;
    if i > 0 {
      InnerPos(v, i);
    }
  }

  // ---- format and version ----

  /** Bit `i` of the second copy of the format information: from the right in row 8, then downwards in column 8. */
  lemma SecondFormatModule(v: nat, e: Ecc, codewords: seq<bv8>, mask: nat, i: nat)
    requires IsVersion(v) && mask < 8 && i < 15
    ensures var g, size, word := Symbol(v, e, codewords, mask), SizeOf(v), FormatWord(FormatData(e, mask));
      && g.Get(8, size - 8)
      && (if i < 8 then g.Get(size - 1 - i, 8) else g.Get(8, size - 15 + i)) == Bit(word, i)
  {
    hide Bit, FormatWord, DataGrid, FunctionGrid, FormatData, Flips;
  }

  /** Bit `i` of the version information in both of its copies: three modules wide next to the finder pattern on the
      right, and turned over at the bottom. */
  lemma VersionModules(v: nat, e: Ecc, codewords: seq<bv8>, mask: nat, i: nat)
    requires 7 <= v && IsVersion(v) && mask < 8 && i < 18
    ensures var g, size := Symbol(v, e, codewords, mask), SizeOf(v);
      g.Get(size - 11 + i % 3, i / 3) == g.Get(i / 3, size - 11 + i % 3) == VersionBit(v, i)
  {
    hide Symbol, PatternColour, VersionBit;
    var a, b := SizeOf(v) - 11 + i % 3, i / 3;
    PatternModule(v, e, codewords, mask, a, b);
    PatternModule(v, e, codewords, mask, b, a);
    VersionPattern(v, i);
  }

  lemma VersionPattern(v: nat, i: nat)
    requires 7 <= v && IsVersion(v) && i < 18
    ensures var size := SizeOf(v);
      PatternColour(v, size - 11 + i % 3, i / 3) == PatternColour(v, i / 3, size - 11 + i % 3) == VersionBit(v, i)
  {
    hide VersionBit, AlignmentColour, InAlignments;
    assert 3 * (i / 3) + i % 3 == i;
  }

  lemma VersionTop(v: bv32, check: bv32)
    requires v < 64 && check < 0x1000
    ensures BitOf(VersionAnd(v, check), 12) == (v & 1 != 0) && BitOf(VersionAnd(v, check), 13) == (v & 2 != 0)
    ensures BitOf(VersionAnd(v, check), 14) == (v & 4 != 0) && BitOf(VersionAnd(v, check), 15) == (v & 8 != 0)
    ensures BitOf(VersionAnd(v, check), 16) == (v & 16 != 0) && BitOf(VersionAnd(v, check), 17) == (v & 32 != 0)
  {
  }

  function Digit(b: bool, n: bv32): bv32 {
    if b then n else 0
  }

  lemma DigitsOf(v: bv32)
    requires v < 64
    ensures v == Digit(v & 1 != 0, 1) | Digit(v & 2 != 0, 2) | Digit(v & 4 != 0, 4) | Digit(v & 8 != 0, 8)
               | Digit(v & 16 != 0, 16) | Digit(v & 32 != 0, 32)
  {
    LowDigits(v);
    HighDigits(v);
    hide Digit;
    Halves(v, Digit(v & 1 != 0, 1), Digit(v & 2 != 0, 2), Digit(v & 4 != 0, 4), Digit(v & 8 != 0, 8),
           Digit(v & 16 != 0, 16), Digit(v & 32 != 0, 32));
  }

  lemma LowDigits(v: bv32)
    ensures v & 7 == Digit(v & 1 != 0, 1) | Digit(v & 2 != 0, 2) | Digit(v & 4 != 0, 4)
  {
  }

  lemma HighDigits(v: bv32)
    ensures v & 56 == Digit(v & 8 != 0, 8) | Digit(v & 16 != 0, 16) | Digit(v & 32 != 0, 32)
  {
  }

  lemma Halves(v: bv32, a: bv32, b: bv32, c: bv32, d: bv32, e: bv32, f: bv32)
    requires v < 64 && v & 7 == a | b | c && v & 56 == d | e | f
    ensures v == a | b | c | d | e | f
  {
    assert v == (v & 7) | (v & 56);
  }

  function Number(b0: bool, b1: bool, b2: bool, b3: bool, b4: bool, b5: bool): bv32 {
    Digit(b0, 1) | Digit(b1, 2) | Digit(b2, 4) | Digit(b3, 8) | Digit(b4, 16) | Digit(b5, 32)
  }

  /** The version as a reader finds it next to the top right finder pattern, the lowest bit first. */
  function ReadVersion(g: Grid): bv32
    requires g.Valid()
  {
    Number(g.Get(g.size - 11, 4), g.Get(g.size - 10, 4), g.Get(g.size - 9, 4), g.Get(g.size - 11, 5),
           g.Get(g.size - 10, 5), g.Get(g.size - 9, 5))
  }

  /** The same at the bottom left. */
  function ReadSecondVersion(g: Grid): bv32
    requires g.Valid()
  {
    Number(g.Get(4, g.size - 11), g.Get(4, g.size - 10), g.Get(4, g.size - 9), g.Get(5, g.size - 11),
           g.Get(5, g.size - 10), g.Get(5, g.size - 9))
  }

  lemma VersionDigits(v: nat)
    requires v < 64
    ensures v as bv32 == Number(VersionBit(v, 12), VersionBit(v, 13), VersionBit(v, 14), VersionBit(v, 15),
                                VersionBit(v, 16), VersionBit(v, 17))
  {
    var b := v as bv32;
    assert b < 64;
    DigitsOf(b);
    hide VersionCheck, BitOf, VersionAnd, Digit;
    QrVersionCode.CheckIsRest(b, 12);
    VersionTop(b, VersionCheck(b, 12));
  }

  lemma VersionRow(v: nat, e: Ecc, codewords: seq<bv8>, mask: nat, r: nat)
    requires 7 <= v && IsVersion(v) && mask < 8 && r < 6
    ensures var g, size := Symbol(v, e, codewords, mask), SizeOf(v);
      && g.Get(size - 11, r) == g.Get(r, size - 11) == VersionBit(v, 3 * r)
      && g.Get(size - 10, r) == g.Get(r, size - 10) == VersionBit(v, 3 * r + 1)
      && g.Get(size - 9, r) == g.Get(r, size - 9) == VersionBit(v, 3 * r + 2)
  {
    hide Symbol, VersionBit;
    QuotientUnique(3 * r, 3, r, 0);
    QuotientUnique(3 * r + 1, 3, r, 1);
    QuotientUnique(3 * r + 2, 3, r, 2);
    VersionModules(v, e, codewords, mask, 3 * r);
    VersionModules(v, e, codewords, mask, 3 * r + 1);
    VersionModules(v, e, codewords, mask, 3 * r + 2);
  }

  /** Both copies of the version information tell the version. */
  lemma SymbolVersion(v: nat, e: Ecc, codewords: seq<bv8>, mask: nat)
    requires 7 <= v && IsVersion(v) && mask < 8
    ensures ReadVersion(Symbol(v, e, codewords, mask)) == v as bv32 == ReadSecondVersion(Symbol(v, e, codewords, mask))
  {
    hide Symbol, VersionBit, Number;
    VersionDigits(v);
    VersionRow(v, e, codewords, mask, 4);
    VersionRow(v, e, codewords, mask, 5);
  }

  // ---- the mask patterns ----

  /** The mask patterns: section 7.8.2 of ISO/IEC 18004. They repeat every six columns, and every six rows but for
      pattern 4, which repeats every four. */
  function MaskRow(mask: nat, y: nat): string
    requires mask < 8 && y < 6
    ensures |MaskRow(mask, y)| == 6
  {
    match mask
    case 0 => (match y
      case 0 => "#.#.#." case 1 => ".#.#.#" case 2 => "#.#.#."
      case 3 => ".#.#.#" case 4 => "#.#.#." case _ => ".#.#.#")
    case 1 => (match y
      case 0 => "######" case 1 => "......" case 2 => "######"
      case 3 => "......" case 4 => "######" case _ => "......")
    case 2 => (match y
      case 0 => "#..#.." case 1 => "#..#.." case 2 => "#..#.."
      case 3 => "#..#.." case 4 => "#..#.." case _ => "#..#..")
    case 3 => (match y
      case 0 => "#..#.." case 1 => "..#..#" case 2 => ".#..#."
      case 3 => "#..#.." case 4 => "..#..#" case _ => ".#..#.")
    case 4 => (match y
      case 0 => "###..." case 1 => "###..." case 2 => "...###"
      case 3 => "...###" case 4 => "###..." case _ => "###...")
    case 5 => (match y
      case 0 => "######" case 1 => "#....." case 2 => "#..#.."
      case 3 => "#.#.#." case 4 => "#..#.." case _ => "#.....")
    case 6 => (match y
      case 0 => "######" case 1 => "###..." case 2 => "##.##."
      case 3 => "#.#.#." case 4 => "#.##.#" case _ => "#...##")
    case _ => (match y
      case 0 => "#.#.#." case 1 => "...###" case 2 => "#...##"
      case 3 => ".#.#.#" case 4 => "###..." case _ => ".###..")
  }

  /** How many rows of a pattern there are. */
  function MaskRowCount(mask: nat): nat {
    if mask == 4 then 4 else 6
  }

  lemma SameResidue(n: int, d: int, k: int, m: int)
    requires d > 0 && n == d * k + m
    ensures n % d == m % d
  {
    assert d * (k + m / d) == d * k + d * (m / d);
    QuotientUnique(n, d, k + m / d, m % d);
  }

  lemma Residues(n: nat, k: int, m: nat)
    requires n == 6 * k + m
    ensures n % 2 == m % 2 && n % 3 == m % 3
  {
    SameResidue(n, 2, 3 * k, m);
    SameResidue(n, 3, 2 * k, m);
  }

  lemma ProductResidue(a: nat, r: nat, b: nat, s: nat)
    ensures (6 * a + r) * (6 * b + s) == 6 * (a * (6 * b + s) + b * r) + r * s
  {
    assert (6 * a + r) * (6 * b + s) == 6 * a * (6 * b + s) + r * (6 * b + s);
    assert 6 * a * (6 * b + s) == 6 * (a * (6 * b + s));
    assert r * (6 * b + s) == 6 * (b * r) + r * s;
  }

  /** All patterns but number 4 depend on remainders alone: of the sum, of the coordinates and of the product. */
  predicate ByRemainders(mask: nat, sum2: nat, y2: nat, x3: nat, sum3: nat, product2: nat, product3: nat) {
    match mask
    case 0 => sum2 == 0
    case 1 => y2 == 0
    case 2 => x3 == 0
    case 3 => sum3 == 0
    case 5 => product2 + product3 == 0
    case 6 => (product2 + product3) % 2 == 0
    case _ => (sum2 + product3) % 2 == 0
  }

  lemma InvertIs(mask: nat, x: nat, y: nat)
    requires mask != 4
    ensures Invert(mask, x, y)
         == ByRemainders(mask, (x + y) % 2, y % 2, x % 3, (x + y) % 3, (x * y) % 2, (x * y) % 3)
  {
  }

  lemma MaskRepeats(mask: nat, a: nat, r: nat, b: nat, s: nat)
    requires mask != 4
    ensures Invert(mask, 6 * a + r, 6 * b + s) == Invert(mask, r, s)
  {
    hide Invert, ByRemainders;
    var x, y := 6 * a + r, 6 * b + s;
    InvertIs(mask, x, y);
    InvertIs(mask, r, s);
    Residues(x, a, r);
    Residues(y, b, s);
    Residues(x + y, a + b, r + s);
    ProductResidue(a, r, b, s);
    Residues(x * y, a * (6 * b + s) + b * r, r * s);
  }

  lemma FourthRepeats(a: nat, r: nat, b: nat, s: nat)
    requires r < 6 && s < 4
    ensures Invert(4, 6 * a + r, 4 * b + s) == Invert(4, r, s)
  {
    QuotientUnique(6 * a + r, 3, 2 * a + r / 3, r % 3);
    QuotientUnique(4 * b + s, 2, 2 * b + s / 2, s % 2);
    var q := r / 3 + s / 2;
    QuotientUnique(2 * (a + b) + q, 2, a + b + q / 2, q % 2);
  }

  lemma MaskRows0(r: nat, s: nat)
    requires r < 6 && s < 6
    ensures Invert(0, r, s) <==> MaskRow(0, s)[r] == '#'
  {
    match s
    case 0 => case 1 => case 2 => case 3 => case 4 => case _ =>
  }

  lemma MaskRows1(r: nat, s: nat)
    requires r < 6 && s < 6
    ensures Invert(1, r, s) <==> MaskRow(1, s)[r] == '#'
  {
    match s
    case 0 => case 1 => case 2 => case 3 => case 4 => case _ =>
  }

  lemma MaskRows2(r: nat, s: nat)
    requires r < 6 && s < 6
    ensures Invert(2, r, s) <==> MaskRow(2, s)[r] == '#'
  {
    match s
    case 0 => case 1 => case 2 => case 3 => case 4 => case _ =>
  }

  lemma MaskRows3(r: nat, s: nat)
    requires r < 6 && s < 6
    ensures Invert(3, r, s) <==> MaskRow(3, s)[r] == '#'
  {
    match s
    case 0 => case 1 => case 2 => case 3 => case 4 => case _ =>
  }

  lemma Mask4Top(r: nat, s: nat)
    requires r < 6 && s < 2
    ensures Invert(4, r, s) <==> MaskRow(4, s)[r] == '#'
  {
    match s
    case 0 => case _ =>
  }

  lemma Mask4Bottom(r: nat, s: nat)
    requires r < 6 && 2 <= s < 4
    ensures Invert(4, r, s) <==> MaskRow(4, s)[r] == '#'
  {
    match s
    case 2 => case _ =>
  }

  lemma Multiples(r: nat)
    ensures (3 * r) % 2 == r % 2 && (3 * r) % 3 == 0 && (4 * r) % 2 == 0 && (4 * r) % 3 == r % 3
    ensures (5 * r) % 2 == r % 2 && (5 * r) % 3 == (2 * r) % 3
  {
    SameResidue(3 * r, 2, r, r);
    SameResidue(3 * r, 3, r, 0);
    SameResidue(4 * r, 2, 2 * r, 0);
    SameResidue(4 * r, 3, r, r);
    SameResidue(5 * r, 2, 2 * r, r);
    SameResidue(5 * r, 3, r, 2 * r);
  }

  lemma Mask5Top(r: nat, s: nat)
    requires r < 6 && s < 3
    ensures Invert(5, r, s) <==> MaskRow(5, s)[r] == '#'
  {
    if s == 0 {
      assert r * s == 0;
    } else if s == 1 {
      assert r * s == 1 * r;
    } else {
      assert r * s == 2 * r;
    }
  }

  lemma Mask5Bottom(r: nat, s: nat)
    requires r < 6 && 3 <= s < 6
    ensures Invert(5, r, s) <==> MaskRow(5, s)[r] == '#'
  {
    Multiples(r);
    if s == 3 {
      assert r * s == 3 * r;
    } else if s == 4 {
      assert r * s == 4 * r;
    } else {
      assert r * s == 5 * r;
    }
  }

  lemma Mask6First(r: nat)
    requires r < 6
    ensures Invert(6, r, 0) <==> MaskRow(6, 0)[r] == '#'
  {
    assert r * 0 == 0;
  }

  lemma Mask6Top(r: nat, s: nat)
    requires r < 6 && 0 < s < 3
    ensures Invert(6, r, s) <==> MaskRow(6, s)[r] == '#'
  {
    if s == 1 {
      assert r * s == 1 * r;
    } else {
      assert r * s == 2 * r;
    }
  }

  lemma Mask6Middle(r: nat, s: nat)
    requires r < 6 && 3 <= s < 5
    ensures Invert(6, r, s) <==> MaskRow(6, s)[r] == '#'
  {
    Multiples(r);
    if s == 3 {
      assert r * s == 3 * r;
    } else {
      assert r * s == 4 * r;
    }
  }

  lemma Mask6Last(r: nat)
    requires r < 6
    ensures Invert(6, r, 5) <==> MaskRow(6, 5)[r] == '#'
  {
    Multiples(r);
    assert r * 5 == 5 * r;
  }

  lemma Mask7First(r: nat)
    requires r < 6
    ensures Invert(7, r, 0) <==> MaskRow(7, 0)[r] == '#'
  {
    assert r * 0 == 0;
  }

  lemma Mask7Top(r: nat, s: nat)
    requires r < 6 && 0 < s < 3
    ensures Invert(7, r, s) <==> MaskRow(7, s)[r] == '#'
  {
    if s == 1 {
      assert r * s == 1 * r;
    } else {
      assert r * s == 2 * r;
    }
  }

  lemma Mask7Middle(r: nat, s: nat)
    requires r < 6 && 3 <= s < 5
    ensures Invert(7, r, s) <==> MaskRow(7, s)[r] == '#'
  {
    Multiples(r);
    if s == 3 {
      assert r * s == 3 * r;
    } else {
      assert r * s == 4 * r;
    }
  }

  lemma Mask7Last(r: nat)
    requires r < 6
    ensures Invert(7, r, 5) <==> MaskRow(7, 5)[r] == '#'
  {
    Multiples(r);
    assert r * 5 == 5 * r;
  }

  lemma MaskRowsMatch(mask: nat, r: nat, s: nat)
    requires mask < 8 && r < 6 && s < MaskRowCount(mask)
    ensures Invert(mask, r, s) <==> MaskRow(mask, s)[r] == '#'
  {
    hide Invert, MaskRow;
    match mask
    case 0 => MaskRows0(r, s);
    case 1 => MaskRows1(r, s);
    case 2 => MaskRows2(r, s);
    case 3 => MaskRows3(r, s);
    case 4 => if s < 2 { Mask4Top(r, s); } else { Mask4Bottom(r, s); }
    case 5 => if s < 3 { Mask5Top(r, s); } else { Mask5Bottom(r, s); }
    case 6 => if s == 0 { Mask6First(r); } else if s < 3 { Mask6Top(r, s); }
              else if s < 5 { Mask6Middle(r, s); } else { Mask6Last(r); }
    case _ => if s == 0 { Mask7First(r); } else if s < 3 { Mask7Top(r, s); }
              else if s < 5 { Mask7Middle(r, s); } else { Mask7Last(r); }
  }

  /** Masking flips what the pattern of the mask shows dark. */
  lemma MaskPicture(mask: nat, x: nat, y: nat)
    requires mask < 8
    ensures Invert(mask, x, y) <==> MaskRow(mask, y % MaskRowCount(mask))[x % 6] == '#'
  {
    hide Invert, MaskRow;
    MaskRowsMatch(mask, x % 6, y % MaskRowCount(mask));
    if mask == 4 {
      FourthRepeats(x / 6, x % 6, y / 4, y % 4);
    } else {
      MaskRepeats(mask, x / 6, x % 6, y / 6, y % 6);
    }
  }
}
