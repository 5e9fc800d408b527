/** The symbol being built: modules, and which of them are function patterns and so not available to data. */
module QrCanvas {
  import opened Bits
  import opened Grid
  import opened QrTables
  import opened QrFormat
  import opened QrVersion

  // ---- where the function patterns are ----

  function Abs(a: int): nat {
    if a < 0 then -a else a
  }

  /** Distance from the centre in rings. */
  function Ring(cx: int, cy: int, x: int, y: int): nat {
    if Abs(x - cx) > Abs(y - cy) then Abs(x - cx) else Abs(y - cy)
  }

  predicate InTiming(x: int, y: int) {
    x == 6 || y == 6
  }

  predicate InFinder(cx: int, cy: int, x: int, y: int) {
    Ring(cx, cy, x, y) <= 4
  }

  predicate InFinders(size: nat, x: int, y: int) {
    InFinder(3, 3, x, y) || InFinder(size - 4, 3, x, y) || InFinder(3, size - 4, x, y)
  }

  predicate InAlignment(cx: int, cy: int, x: int, y: int) {
    Ring(cx, cy, x, y) <= 2
  }

  function AlignStep(v: nat): nat {
    var n := v / 7 + 2;
    if v == 32 then 26 else (v * 4 + n * 2 + 1) / (n * 2 - 2) * 2
  }

  /** Centre coordinate number `i` of the alignment patterns. */
  function AlignPos(v: nat, i: nat): int {
    if i == 0 then 6 else v * 4 + 10 - AlignStep(v) * (v / 7 + 1 - i)
  }

  /** The three corners that hold finder patterns instead. */
  predicate Corner(n: nat, i: nat, j: nat) {
    (i == 0 && (j == 0 || j == n - 1)) || (i == n - 1 && j == 0)
  }

  /** Some alignment pattern covers the module. */
  predicate InAlignments(v: nat, x: int, y: int) {
    exists i, j :: 0 <= i < NumAlign(v) && 0 <= j < NumAlign(v) && AlignmentAt(v, i, j, x, y)
  }

  predicate AlignmentAt(v: nat, i: nat, j: nat, x: int, y: int) {
    !Corner(NumAlign(v), i, j) && InAlignment(AlignPos(v, i), AlignPos(v, j), x, y)
  }

  predicate InVersion(size: nat, x: int, y: int) {
    (size - 11 <= x <= size - 9 && 0 <= y <= 5) || (0 <= x <= 5 && size - 11 <= y <= size - 9)
  }

  predicate InFormatCorner(x: int, y: int) {
    (x == 8 && (0 <= y <= 5 || y == 7 || y == 8)) || (x == 7 && y == 8)
  }

  predicate InFormatFirst(x: int, y: int) {
    InFormatCorner(x, y) || (y == 8 && 0 <= x <= 5)
  }

  predicate InFormatSecond(size: nat, x: int, y: int) {
    (x == 8 && size - 8 <= y < size) || (y == 8 && size - 8 <= x < size)
  }

  predicate InFormat(size: nat, x: int, y: int) {
    InFormatFirst(x, y) || InFormatSecond(size, x, y)
  }

  function SizeOf(v: nat): (size: nat)
    ensures size % 2 == 1 && size >= 17
  {
    QuotientUnique(v * 4 + 17, 2, 2 * v + 8, 1);
    v * 4 + 17
  }

  predicate InPatterns(v: nat, x: int, y: int) {
    || InTiming(x, y) || InFinders(SizeOf(v), x, y) || InAlignments(v, x, y)
    || (v >= 7 && InVersion(SizeOf(v), x, y))
  }

  /** Every module that carries no data. */
  predicate IsFunction(v: nat, x: int, y: int) {
    InPatterns(v, x, y) || InFormat(SizeOf(v), x, y)
  }

  /** The colour of a format module: both copies in their orders, and the module that is always dark. */
  predicate FormatColour(size: nat, bits: bv32, x: int, y: int) {
    if x == 8 && y == size - 8 then true
    else if x == 8 && 0 <= y <= 5 then Bit(bits, y)
    else if x == 8 && y == 7 then Bit(bits, 6)
    else if x == 8 && y == 8 then Bit(bits, 7)
    else if x == 7 && y == 8 then Bit(bits, 8)
    else if y == 8 && 0 <= x <= 5 then Bit(bits, 14 - x)
    else if y == 8 && size - 8 <= x < size then Bit(bits, size - 1 - x)
    else if x == 8 && size - 7 <= y < size then Bit(bits, y - (size - 15))
    else false
  }

  /** Which version bit a module of the version area carries. */
  function VersionIndex(size: nat, x: int, y: int): int {
    if x >= size - 11 then 3 * y + (x - (size - 11)) else 3 * x + (y - (size - 11))
  }

  predicate VersionColour(size: nat, v: nat, x: int, y: int)
    requires v < 64
  {
    InVersion(size, x, y) && 0 <= VersionIndex(size, x, y) < 18 && VersionBit(v, VersionIndex(size, x, y))
  }

  /** Row and column 6 are dark at even places. */
  predicate TimingColour(x: int, y: int) {
    (if x == 6 then y else x) % 2 == 0
  }

  /** A finder pattern's rings 2 and 4 are light. */
  predicate FinderColour(size: nat, x: int, y: int) {
    if InFinder(3, 3, x, y) then Ring(3, 3, x, y) !in {2, 4}
    else if InFinder(size - 4, 3, x, y) then Ring(size - 4, 3, x, y) !in {2, 4}
    else Ring(3, size - 4, x, y) !in {2, 4}
  }

  /** An alignment pattern's ring 1 is light. */
  predicate AlignmentColour(v: nat, x: int, y: int) {
    exists i, j :: 0 <= i < NumAlign(v) && 0 <= j < NumAlign(v) && AlignmentAt(v, i, j, x, y)
      && Ring(AlignPos(v, i), AlignPos(v, j), x, y) != 1
  }

  /** The colour of a function module outside the format area; version, alignment and finder patterns cover timing. */
  predicate PatternColour(v: nat, x: int, y: int)
    requires v < 64
  {
    if v >= 7 && InVersion(SizeOf(v), x, y) then VersionColour(SizeOf(v), v, x, y)
    else if InAlignments(v, x, y) then AlignmentColour(v, x, y)
    else if InFinders(SizeOf(v), x, y) then FinderColour(SizeOf(v), x, y)
    else TimingColour(x, y)
  }

  type Region = (int, int) -> bool

  /** `g` is `before` with the part of `region` inside the symbol repainted. */
  ghost predicate Painted(g: Grid, before: Grid, region: Region, dark: Region) {
    && g.Valid() && before.Valid() && g.size == before.size
    && forall x, y :: g.Get(x, y) == if g.Inside(x, y) && region(x, y) then dark(x, y) else before.Get(x, y)
  }

  /** `mask` is `before` with the part of `region` inside the symbol added. */
  ghost predicate Reserved(mask: Grid, before: Grid, region: Region) {
    Painted(mask, before, region, (x, y) => true)
  }

  /** The part of a region before position (x, y), row by row. */
  function Before(region: Region, x: int, y: int): Region {
    (x', y') => region(x', y') && (y' < y || (y' == y && x' < x))
  }

  lemma PaintOne(g: Grid, before: Grid, region: Region, dark: Region, x: int, y: int)
    requires Painted(g, before, Before(region, x, y), dark) && g.Inside(x, y) && region(x, y)
    ensures Painted(g.Set(x, y, dark(x, y)), before, Before(region, x + 1, y), dark)
  {
  }

  lemma PaintNothing(g: Grid, region: Region, dark: Region)
    requires g.Valid() && forall x, y :: g.Inside(x, y) ==> !region(x, y)
    ensures Painted(g, g, region, dark)
  {
  }

  /** Regions that agree inside the symbol paint the same. */
  lemma SameRegion(g: Grid, before: Grid, region: Region, region': Region, dark: Region)
    requires Painted(g, before, region, dark)
    requires forall x, y :: g.Inside(x, y) ==> region(x, y) == region'(x, y)
    ensures Painted(g, before, region', dark)
  {
  }

  /** Setting one module, if it is inside, paints the region that has it besides. */
  lemma PaintAlso(g: Grid, before: Grid, region: Region, region': Region, dark: Region, a: int, b: int)
    requires Painted(g, before, region, dark)
    requires forall x, y :: region'(x, y) <==> region(x, y) || (x == a && y == b)
    ensures Painted(if g.Inside(a, b) then g.Set(a, b, dark(a, b)) else g, before, region', dark)
  {
  }

  /** The first `i` modules of the vertical timing pattern and the first `j` of the horizontal one. */
  ghost function TimingUpTo(i: nat, j: nat): Region {
    (x, y) => (x == 6 && y < i) || (y == 6 && x < j)
  }

  /** Setting two mirrored modules paints the region that has them besides. */
  lemma PaintPair(g: Grid, before: Grid, region: Region, region': Region, dark: Region, a: int, b: int)
    requires Painted(g, before, region, dark) && g.Inside(a, b) && g.Inside(b, a)
    requires forall x, y :: region'(x, y) <==> region(x, y) || (x == a && y == b) || (x == b && y == a)
    ensures Painted(g.Set(a, b, dark(a, b)).Set(b, a, dark(b, a)), before, region', dark)
  {
  }

  /** The version area up to bit `i`. */
  ghost function VersionUpTo(size: nat, i: nat): Region {
    (x, y) => InVersion(size, x, y) && VersionIndex(size, x, y) < i
  }

  /** Bit `i` is in two mirrored modules. */
  lemma VersionStep(size: nat, i: nat, x: int, y: int)
    requires size >= 21 && i < 18
    ensures var a, b := size - 11 + i % 3, i / 3;
      InVersion(size, x, y) && VersionIndex(size, x, y) == i <==> (x == a && y == b) || (x == b && y == a)
  {
  }

  class Canvas {
    const size: nat
    var modules: Grid
    var functionMask: Grid

    ghost predicate Valid()
      reads this
    {
      modules.Valid() && functionMask.Valid() && modules.size == size && functionMask.size == size
    }

    predicate Inside(x: int, y: int) {
      0 <= x < size && 0 <= y < size
    }

    constructor (version: nat)
      ensures Valid() && size == SizeOf(version)
      ensures modules == Grid.Blank(size) && functionMask == Grid.Blank(size)
    {
      size := SizeOf(version);
      modules := Grid.Blank(SizeOf(version));
      functionMask := Grid.Blank(SizeOf(version));
    }

    /** Set a module; a position outside the symbol is ignored. */
    method Set(x: int, y: int, dark: bool)
      requires Valid()
      modifies this
      ensures Valid() && functionMask == old(functionMask)
      ensures modules == if Inside(x, y) then old(modules).Set(x, y, dark) else old(modules)
    {
      if Inside(x, y) {
        modules := modules.Set(x, y, dark);
      }
    }

    /** Set a module and reserve it. */
    method SetFunction(x: int, y: int, dark: bool)
      requires Valid()
      modifies this
      ensures Valid()
      ensures modules == if Inside(x, y) then old(modules).Set(x, y, dark) else old(modules)
      ensures functionMask == if Inside(x, y) then old(functionMask).Set(x, y, true) else old(functionMask)
    {
      if Inside(x, y) {
        modules := modules.Set(x, y, dark);
        functionMask := functionMask.Set(x, y, true);
      }
    }

    /** The timing patterns: row and column 6, dark at even places. */
    method DrawTiming()
      requires Valid()
      modifies this
      ensures Valid()
      ensures Painted(modules, old(modules), InTiming, TimingColour)
      ensures Reserved(functionMask, old(functionMask), InTiming)
    {
      hide Painted;
      ghost var dark: Region := TimingColour;
      ghost var all: Region := (x, y) => true;
      ghost var m, f := modules, functionMask;
      NoTiming(m, dark);
      NoTiming(f, all);
      for i := 0 to size
        invariant Valid()
        invariant Painted(modules, m, TimingUpTo(i, i), dark)
        invariant Painted(functionMask, f, TimingUpTo(i, i), all)
      {
        PaintAlso(modules, m, TimingUpTo(i, i), TimingUpTo(i + 1, i), dark, 6, i);
        PaintAlso(functionMask, f, TimingUpTo(i, i), TimingUpTo(i + 1, i), all, 6, i);
        SetFunction(6, i, i % 2 == 0);
        PaintAlso(modules, m, TimingUpTo(i + 1, i), TimingUpTo(i + 1, i + 1), dark, i, 6);
        PaintAlso(functionMask, f, TimingUpTo(i + 1, i), TimingUpTo(i + 1, i + 1), all, i, 6);
        SetFunction(i, 6, i % 2 == 0);
      }
      AllTiming(modules, m, dark);
      AllTiming(functionMask, f, all);
    }

    lemma NoTiming(g: Grid, dark: Region)
      requires g.Valid()
      ensures Painted(g, g, TimingUpTo(0, 0), dark)
    {
    }

    lemma AllTiming(g: Grid, before: Grid, dark: Region)
      requires g.Valid() && g.size == size && Painted(g, before, TimingUpTo(size, size), dark)
      ensures Painted(g, before, InTiming, dark)
    {
      SameRegion(g, before, TimingUpTo(size, size), InTiming, dark);
    }

    /** A square pattern of rings around a centre, clamped to the symbol. */
    method DrawSquare(cx: nat, cy: nat, radius: nat, ringDark: nat -> bool)
      requires Valid()
      modifies this
      ensures Valid()
      ensures Painted(modules, old(modules), (x, y) => Ring(cx, cy, x, y) <= radius,
                      (x, y) => ringDark(Ring(cx, cy, x, y)))
      ensures Reserved(functionMask, old(functionMask), (x, y) => Ring(cx, cy, x, y) <= radius)
    {
      hide Painted;
      ghost var region: Region := (x, y) => Ring(cx, cy, x, y) <= radius;
      ghost var dark: Region := (x, y) => ringDark(Ring(cx, cy, x, y));
      ghost var all: Region := (x, y) => true;
      ghost var m, f := modules, functionMask;
      var x0, y0: nat := (if cx < radius then 0 else cx - radius), (if cy < radius then 0 else cy - radius);
      var x1: nat := if cx + radius < size then cx + radius + 1 else size;
      var y1: nat := if cy + radius < size then cy + radius + 1 else size;
      if x1 < x0 || y1 < y0 {
        PaintNothing(m, region, dark);
        PaintNothing(f, region, all);
        return;
      }
      PaintNothing(m, Before(region, x0, y0), dark);
      PaintNothing(f, Before(region, x0, y0), all);
      for y := y0 to y1
        invariant Valid()
        invariant Painted(modules, m, Before(region, x0, y), dark)
        invariant Painted(functionMask, f, Before(region, x0, y), all)
      {
        DrawSquareRow(cx, cy, radius, ringDark, y, x0, x1, m, f);
        SameRegion(modules, m, Before(region, x1, y), Before(region, x0, y + 1), dark);
        SameRegion(functionMask, f, Before(region, x1, y), Before(region, x0, y + 1), all);
      }
      SameRegion(modules, m, Before(region, x0, y1), region, dark);
      SameRegion(functionMask, f, Before(region, x0, y1), region, all);
    }

    /** One row of a square pattern, columns `x0` to `x1`, after everything above it. */
    method DrawSquareRow(cx: nat, cy: nat, radius: nat, ringDark: nat -> bool, y: nat, x0: nat, x1: nat, ghost m: Grid,
                         ghost f: Grid)
      requires Valid() && x0 <= x1 <= size && y < size
      requires forall x :: x0 <= x < x1 ==> Ring(cx, cy, x, y) <= radius
      requires Painted(modules, m, Before((x, y) => Ring(cx, cy, x, y) <= radius, x0, y),
                       (x, y) => ringDark(Ring(cx, cy, x, y)))
      requires Painted(functionMask, f, Before((x, y) => Ring(cx, cy, x, y) <= radius, x0, y), (x, y) => true)
      modifies this
      ensures Valid()
      ensures Painted(modules, m, Before((x, y) => Ring(cx, cy, x, y) <= radius, x1, y),
                      (x, y) => ringDark(Ring(cx, cy, x, y)))
      ensures Painted(functionMask, f, Before((x, y) => Ring(cx, cy, x, y) <= radius, x1, y), (x, y) => true)
    {
      hide Painted;
      ghost var region: Region := (x, y) => Ring(cx, cy, x, y) <= radius;
      ghost var dark: Region := (x, y) => ringDark(Ring(cx, cy, x, y));
      ghost var all: Region := (x, y) => true;
      for x := x0 to x1
        invariant Valid()
        invariant Painted(modules, m, Before(region, x, y), dark)
        invariant Painted(functionMask, f, Before(region, x, y), all)
      {
        PaintOne(modules, m, region, dark, x, y);
        PaintOne(functionMask, f, region, all, x, y);
        SetFunction(x, y, ringDark(Ring(cx, cy, x, y)));
      }
    }

    /** A finder pattern with its separator: rings 2 and 4 are light. */
    method DrawFinder(cx: nat, cy: nat)
      requires Valid()
      modifies this
      ensures Valid()
      ensures Painted(modules, old(modules), (x, y) => InFinder(cx, cy, x, y), (x, y) => Ring(cx, cy, x, y) !in {2, 4})
      ensures Reserved(functionMask, old(functionMask), (x, y) => InFinder(cx, cy, x, y))
    {
      DrawSquare(cx, cy, 4, ring => ring != 2 && ring != 4);
    }

    /** An alignment pattern: ring 1 is light. */
    method DrawAlignment(cx: nat, cy: nat)
      requires Valid()
      modifies this
      ensures Valid()
      ensures Painted(modules, old(modules), (x, y) => InAlignment(cx, cy, x, y), (x, y) => Ring(cx, cy, x, y) != 1)
      ensures Reserved(functionMask, old(functionMask), (x, y) => InAlignment(cx, cy, x, y))
    {
      DrawSquare(cx, cy, 2, ring => ring != 1);
    }

    /** The 15 format bits, twice, and the module that is always dark. */
    method DrawFormatBits(e: Ecc, mask: nat)
      requires Valid() && mask < 8 && size >= 21
      modifies this
      ensures Valid()
      ensures Painted(modules, old(modules), (x, y) => InFormat(size, x, y),
                      (x, y) => FormatColour(size, FormatWord(FormatData(e, mask)), x, y))
      ensures Reserved(functionMask, old(functionMask), (x, y) => InFormat(size, x, y))
    {
      var bits := FormatBits(e, mask);
      DrawFormatFirst(bits);
      DrawFormatSecond(bits);
    }

    /** The copy around the top-left finder pattern. */
    method DrawFormatFirst(bits: bv32)
      requires Valid() && size >= 21
      modifies this
      ensures Valid()
      ensures Painted(modules, old(modules), InFormatFirst, (x, y) => FormatColour(size, bits, x, y))
      ensures Reserved(functionMask, old(functionMask), InFormatFirst)
    {
      hide Bit;
      DrawFormatCorner(bits);
      DrawFormatRow(bits);
    }

    /** Bits 9 to 14: row 8 from the corner to the left. */
    method DrawFormatRow(bits: bv32)
      requires Valid() && size >= 21
      modifies this
      ensures Valid()
      ensures Painted(modules, old(modules), (x, y) => y == 8 && 0 <= x <= 5, (x, y) => FormatColour(size, bits, x, y))
      ensures Reserved(functionMask, old(functionMask), (x, y) => y == 8 && 0 <= x <= 5)
    {
      hide Bit;
      ghost var dark: Region := (x, y) => FormatColour(size, bits, x, y);
      for i := 9 to 15
        invariant Valid()
        invariant Painted(modules, old(modules), (x, y) => y == 8 && 14 - i < x <= 5, dark)
        invariant Reserved(functionMask, old(functionMask), (x, y) => y == 8 && 14 - i < x <= 5)
      {
        SetFunction(14 - i, 8, Bit(bits, i));
      }
    }

    /** Bits 0 to 8: column 8 downwards, then the corner. */
    method DrawFormatCorner(bits: bv32)
      requires Valid() && size >= 21
      modifies this
      ensures Valid()
      ensures Painted(modules, old(modules), InFormatCorner, (x, y) => FormatColour(size, bits, x, y))
      ensures Reserved(functionMask, old(functionMask), InFormatCorner)
    {
      hide Bit;
      ghost var dark: Region := (x, y) => FormatColour(size, bits, x, y);
      for i := 0 to 6
        invariant Valid()
        invariant Painted(modules, old(modules), (x, y) => x == 8 && y < i, dark)
        invariant Reserved(functionMask, old(functionMask), (x, y) => x == 8 && y < i)
      {
        SetFunction(8, i, Bit(bits, i));
      }
      SetFunction(8, 7, Bit(bits, 6));
      SetFunction(8, 8, Bit(bits, 7));
      SetFunction(7, 8, Bit(bits, 8));
    }

    /** The copy split between the other two finder patterns. */
    method DrawFormatSecond(bits: bv32)
      requires Valid() && size >= 21
      modifies this
      ensures Valid()
      ensures Painted(modules, old(modules), (x, y) => InFormatSecond(size, x, y),
                      (x, y) => FormatColour(size, bits, x, y))
      ensures Reserved(functionMask, old(functionMask), (x, y) => InFormatSecond(size, x, y))
    {
      DrawFormatSecondRow(bits);
      DrawFormatSecondColumn(bits);
    }

    /** Bits 0 to 7: row 8 from the right. */
    method DrawFormatSecondRow(bits: bv32)
      requires Valid() && size >= 21
      modifies this
      ensures Valid()
      ensures Painted(modules, old(modules), (x, y) => y == 8 && size - 9 < x, (x, y) => FormatColour(size, bits, x, y))
      ensures Reserved(functionMask, old(functionMask), (x, y) => y == 8 && size - 9 < x)
    {
      hide Bit;
      ghost var dark: Region := (x, y) => FormatColour(size, bits, x, y);
      for i := 0 to 8
        invariant Valid()
        invariant Painted(modules, old(modules), (x, y) => y == 8 && size - 1 - i < x, dark)
        invariant Reserved(functionMask, old(functionMask), (x, y) => y == 8 && size - 1 - i < x)
      {
        SetFunction(size - 1 - i, 8, Bit(bits, i));
      }
    }

    /** Bits 8 to 14: column 8 downwards, below the dark module. */
    method DrawFormatSecondColumn(bits: bv32)
      requires Valid() && size >= 21
      modifies this
      ensures Valid()
      ensures Painted(modules, old(modules), (x, y) => x == 8 && size - 8 <= y < size,
                      (x, y) => FormatColour(size, bits, x, y))
      ensures Reserved(functionMask, old(functionMask), (x, y) => x == 8 && size - 8 <= y < size)
    {
      hide Bit;
      ghost var dark: Region := (x, y) => FormatColour(size, bits, x, y);
      for i := 8 to 15
        invariant Valid()
        invariant Painted(modules, old(modules), (x, y) => x == 8 && size - 7 <= y < size - 15 + i, dark)
        invariant Reserved(functionMask, old(functionMask), (x, y) => x == 8 && size - 7 <= y < size - 15 + i)
      {
        SetFunction(8, size - 15 + i, Bit(bits, i));
      }
      SetFunction(8, size - 8, true);
    }

    /** The 18 version bits, twice. */
    method DrawVersionBits(v: nat)
      requires Valid() && v < 64 && size >= 21
      modifies this
      ensures Valid()
      ensures Painted(modules, old(modules), (x, y) => InVersion(size, x, y), (x, y) => VersionColour(size, v, x, y))
      ensures Reserved(functionMask, old(functionMask), (x, y) => InVersion(size, x, y))
    {
      hide BitOf, VersionWord, Painted, InVersion, VersionIndex;
      ghost var dark: Region := (x, y) => VersionColour(size, v, x, y);
      ghost var all: Region := (x, y) => true;
      ghost var m, f := modules, functionMask;
      NothingYet(m, dark);
      NothingYet(f, all);
      var bits := VersionBits(v as bv32);
      for i := 0 to 18
        invariant Valid()
        invariant Painted(modules, m, VersionUpTo(size, i), dark)
        invariant Painted(functionMask, f, VersionUpTo(size, i), all)
      {
        var a, b := size - 11 + i % 3, i / 3;
        forall x, y ensures VersionUpTo(size, i + 1)(x, y) <==>
                            VersionUpTo(size, i)(x, y) || (x == a && y == b) || (x == b && y == a) {
          VersionStep(size, i, x, y);
        }
        VersionStep(size, i, a, b);
        VersionStep(size, i, b, a);
        PaintPair(modules, m, VersionUpTo(size, i), VersionUpTo(size, i + 1), dark, a, b);
        PaintPair(functionMask, f, VersionUpTo(size, i), VersionUpTo(size, i + 1), all, a, b);
        SetFunction(a, b, BitOf(bits, i));
        SetFunction(b, a, BitOf(bits, i));
      }
      AllVersionBits(modules, m, dark);
      AllVersionBits(functionMask, f, all);
    }

    lemma NothingYet(g: Grid, dark: Region)
      requires g.Valid() && g.size == size >= 21
      ensures Painted(g, g, VersionUpTo(size, 0), dark)
    {
    }

    lemma AllVersionBits(g: Grid, before: Grid, dark: Region)
      requires size >= 21 && Painted(g, before, VersionUpTo(size, 18), dark)
      ensures Painted(g, before, (x, y) => InVersion(size, x, y), dark)
    {
    }

    /** All function patterns except the format information. */
    method DrawFunctionPatterns(v: nat)
      requires Valid() && IsVersion(v) && size == SizeOf(v)
      modifies this
      ensures Valid()
      ensures Painted(modules, old(modules), (x, y) => InPatterns(v, x, y), (x, y) => PatternColour(v, x, y))
      ensures Reserved(functionMask, old(functionMask), (x, y) => InPatterns(v, x, y))
    {
      hide Ring, AlignPos, AlignmentColour, TimingColour, VersionColour;
      DrawTiming();
      DrawFinders();
      DrawAlignments(v);
      if v >= 7 {
        DrawVersionBits(v);
      }
    }

    /** The three finder patterns. */
    method DrawFinders()
      requires Valid() && size >= 21
      modifies this
      ensures Valid()
      ensures Painted(modules, old(modules), (x, y) => InFinders(size, x, y), (x, y) => FinderColour(size, x, y))
      ensures Reserved(functionMask, old(functionMask), (x, y) => InFinders(size, x, y))
    {
      DrawFinder(3, 3);
      DrawFinder(size - 4, 3);
      DrawFinder(3, size - 4);
    }

    /** An alignment pattern at every pair of positions but the three corners. */
    method DrawAlignments(v: nat)
      requires Valid() && IsVersion(v)
      modifies this
      ensures Valid()
      ensures Painted(modules, old(modules), (x, y) => InAlignments(v, x, y), (x, y) => AlignmentColour(v, x, y))
      ensures Reserved(functionMask, old(functionMask), (x, y) => InAlignments(v, x, y))
    {
      hide Ring, AlignPos, AlignmentColour;
      var positions := AlignmentPositions(v);
      var n := |positions|;
      ghost var f, m := functionMask, modules;
      for i := 0 to n
        invariant Valid()
        invariant Reserved(functionMask, f, (x, y) => AlignmentsBefore(v, i, 0, x, y))
        invariant Painted(modules, m, (x, y) => AlignmentsBefore(v, i, 0, x, y), (x, y) => AlignmentColour(v, x, y))
      {
        for j := 0 to n
          invariant Valid()
          invariant Reserved(functionMask, f, (x, y) => AlignmentsBefore(v, i, j, x, y))
          invariant Painted(modules, m, (x, y) => AlignmentsBefore(v, i, j, x, y), (x, y) => AlignmentColour(v, x, y))
        {
          var corner := (i == 0 && (j == 0 || j == n - 1)) || (i == n - 1 && j == 0);
          if !corner {
            DrawAlignment(positions[i], positions[j]);
            forall x, y | AlignmentAt(v, i, j, x, y)
              ensures AlignmentColour(v, x, y) == (Ring(positions[i], positions[j], x, y) != 1)
            {
              ColourOfOne(v, i, j, x, y);
            }
          }
          forall x, y ensures AlignmentsBefore(v, i, j + 1, x, y)
            == (AlignmentsBefore(v, i, j, x, y) || AlignmentAt(v, i, j, x, y)) {
            AlignmentsStep(v, i, j, x, y);
          }
        }
        assert forall x, y :: AlignmentsBefore(v, i, n, x, y) == AlignmentsBefore(v, i + 1, 0, x, y);
      }
      assert forall x, y :: AlignmentsBefore(v, n, 0, x, y) == InAlignments(v, x, y);
    }
  }

  /** Some alignment pattern up to number (i, j), row by row, covers the module. */
  predicate AlignmentsBefore(v: nat, i: nat, j: nat, x: int, y: int) {
    exists i', j' :: 0 <= i' < NumAlign(v) && 0 <= j' < NumAlign(v) && (i' < i || (i' == i && j' < j))
      && AlignmentAt(v, i', j', x, y)
  }

  lemma AlignmentsStep(v: nat, i: nat, j: nat, x: int, y: int)
    requires i < NumAlign(v) && j < NumAlign(v)
    ensures AlignmentsBefore(v, i, j + 1, x, y) == (AlignmentsBefore(v, i, j, x, y) || AlignmentAt(v, i, j, x, y))
  {
  }

  /** Centre coordinates of the alignment patterns; none of them falls below zero. */
  method AlignmentPositions(v: nat) returns (positions: seq<nat>)
    requires IsVersion(v)
    ensures |positions| == NumAlign(v)
    ensures forall i :: 0 <= i < |positions| ==> positions[i] == AlignPos(v, i)
  {
    if v == 1 {
      return [];
    }
    var n := v / 7 + 2;
    var step := AlignStep(v);
    var last := v * 4 + 10;
    positions := [6];
    for i := 1 to n
      invariant |positions| == i
      invariant forall k :: 0 <= k < i ==> positions[k] == AlignPos(v, k)
    {
      AlignPosBound(v, i);
      positions := positions + [last - step * (n - 1 - i)];
    }
  }

  predicate StepOk(v: nat) {
    0 <= AlignStep(v) && AlignStep(v) * (v / 7) <= v * 4 - 8
  }

  lemma StepsFor2()
    ensures StepOk(2) && StepOk(3) && StepOk(4) && StepOk(5) && StepOk(6)
  {
  }

  lemma StepsFor7()
    ensures StepOk(7) && StepOk(8) && StepOk(9) && StepOk(10) && StepOk(11)
  {
  }

  lemma StepsFor12()
    ensures StepOk(12) && StepOk(13) && StepOk(14) && StepOk(15) && StepOk(16)
  {
  }

  lemma StepsFor17()
    ensures StepOk(17) && StepOk(18) && StepOk(19) && StepOk(20) && StepOk(21)
  {
  }

  lemma StepsFor22()
    ensures StepOk(22) && StepOk(23) && StepOk(24) && StepOk(25) && StepOk(26)
  {
  }

  lemma StepsFor27()
    ensures StepOk(27) && StepOk(28) && StepOk(29) && StepOk(30) && StepOk(31)
  {
  }

  lemma StepsFor32()
    ensures StepOk(32) && StepOk(33) && StepOk(34) && StepOk(35) && StepOk(36)
  {
  }

  lemma StepsFor37()
    ensures StepOk(37) && StepOk(38) && StepOk(39) && StepOk(40)
  {
  }

  lemma StepHolds(v: nat)
    requires 2 <= v <= MAX_VERSION
    ensures StepOk(v)
  {
    hide StepOk;
    if v < 7 {
      StepsFor2();
    } else if v < 12 {
      StepsFor7();
    } else if v < 17 {
      StepsFor12();
    } else if v < 22 {
      StepsFor17();
    } else if v < 27 {
      StepsFor22();
    } else if v < 32 {
      StepsFor27();
    } else if v < 37 {
      StepsFor32();
    } else {
      StepsFor37();
    }
  }

  /** Counting back from the last position never goes below zero. */
  lemma AlignPosBound(v: nat, i: nat)
    requires 2 <= v <= MAX_VERSION && 1 <= i < v / 7 + 2
    ensures AlignPos(v, i) >= 18
  {
    StepHolds(v);
    var s, a, b := AlignStep(v), v / 7 + 1 - i, v / 7;
    assert s * a <= s * b;
  }

  /** Centre coordinates are more than four modules apart. */
  lemma AlignPosApart(v: nat, i: nat, j: nat)
    requires IsVersion(v) && i < j < NumAlign(v)
    ensures AlignPos(v, i) + 5 <= AlignPos(v, j)
  {
    AlignPosBound(v, j);
    if i > 0 {
      StepApart(v);
      StepsGrow(AlignStep(v), v / 7 + 1 - j, v / 7 + 1 - i);
    }
  }

  lemma {:induction false} StepsGrow(s: nat, a: nat, b: nat)
    requires a < b
    ensures s * b >= s * a + s
  {
    if b == a + 1 {
      assert s * b == s * a + s;
    } else {
      StepsGrow(s, a, b - 1);
      assert s * b == s * (b - 1) + s;
    }
  }

  /** With three or more positions a step is at least 16; two positions have no step between them. */
  lemma StepApart(v: nat)
    requires 7 <= v <= MAX_VERSION
    ensures AlignStep(v) >= 16
  {
    hide AlignStep;
    StepsFrom7();
    StepsFrom12();
    StepsFrom17();
    StepsFrom22();
    StepsFrom27();
    StepsFrom32();
    StepsFrom37();
  }

  lemma StepsFrom7()
    ensures AlignStep(7) >= 16 && AlignStep(8) >= 16 && AlignStep(9) >= 16 && AlignStep(10) >= 16 && AlignStep(11) >= 16
  {
  }

  lemma StepsFrom12()
    ensures AlignStep(12) >= 16 && AlignStep(13) >= 16 && AlignStep(14) >= 16 && AlignStep(15) >= 16
            && AlignStep(16) >= 16
  {
  }

  lemma StepsFrom17()
    ensures AlignStep(17) >= 16 && AlignStep(18) >= 16 && AlignStep(19) >= 16 && AlignStep(20) >= 16
            && AlignStep(21) >= 16
  {
  }

  lemma StepsFrom22()
    ensures AlignStep(22) >= 16 && AlignStep(23) >= 16 && AlignStep(24) >= 16 && AlignStep(25) >= 16
            && AlignStep(26) >= 16
  {
  }

  lemma StepsFrom27()
    ensures AlignStep(27) >= 16 && AlignStep(28) >= 16 && AlignStep(29) >= 16 && AlignStep(30) >= 16
            && AlignStep(31) >= 16
  {
  }

  lemma StepsFrom32()
    ensures AlignStep(32) >= 16 && AlignStep(33) >= 16 && AlignStep(34) >= 16 && AlignStep(35) >= 16
            && AlignStep(36) >= 16
  {
  }

  lemma StepsFrom37()
    ensures AlignStep(37) >= 16 && AlignStep(38) >= 16 && AlignStep(39) >= 16 && AlignStep(40) >= 16
  {
  }

  /** No two alignment patterns overlap. */
  lemma AlignmentsApart(v: nat, i: nat, j: nat, i': nat, j': nat, x: int, y: int)
    requires IsVersion(v) && i < NumAlign(v) && j < NumAlign(v) && i' < NumAlign(v) && j' < NumAlign(v)
    requires AlignmentAt(v, i, j, x, y) && AlignmentAt(v, i', j', x, y)
    ensures i == i' && j == j'
  {
    hide AlignPos;
    if i < i' { AlignPosApart(v, i, i'); }
    if i' < i { AlignPosApart(v, i', i); }
    if j < j' { AlignPosApart(v, j, j'); }
    if j' < j { AlignPosApart(v, j', j); }
  }

  lemma ColourOfOne(v: nat, i: nat, j: nat, x: int, y: int)
    requires IsVersion(v) && i < NumAlign(v) && j < NumAlign(v) && AlignmentAt(v, i, j, x, y)
    ensures AlignmentColour(v, x, y) == (Ring(AlignPos(v, i), AlignPos(v, j), x, y) != 1)
  {
    hide Ring, AlignPos, AlignmentAt;
    if AlignmentColour(v, x, y) {
      var i', j' :| 0 <= i' < NumAlign(v) && 0 <= j' < NumAlign(v) && AlignmentAt(v, i', j', x, y)
        && Ring(AlignPos(v, i'), AlignPos(v, j'), x, y) != 1;
      AlignmentsApart(v, i, j, i', j', x, y);
    }
  }
}
