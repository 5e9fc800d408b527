/** Drawing a symbol, and the reader that undoes it. */
module Qr {
  import opened Wrappers
  import opened Grid
  import opened QrTables
  import opened QrPlan
  import opened QrFormat
  import opened QrCanvas
  import opened QrMask
  import opened QrBits
  import opened QrCodewords
  import opened QrCount
  import opened QrPlace
  import opened Zigzag

  // ---- what a symbol is ----

  /** Which modules of a version carry no data. */
  ghost function FunctionGrid(v: nat): (g: Grid)
    ensures g.Valid() && g.size == SizeOf(v)
    ensures forall x, y :: g.Get(x, y) == (g.Inside(x, y) && IsFunction(v, x, y))
  {
    Grid.Tabulate(SizeOf(v), (x, y) => IsFunction(v, x, y))
  }

  /** The function patterns without the format information. */
  ghost function PatternGrid(v: nat): (g: Grid)
    requires IsVersion(v)
    ensures g.Valid() && g.size == SizeOf(v)
  {
    Grid.Tabulate(SizeOf(v), (x, y) => InPatterns(v, x, y) && PatternColour(v, x, y))
  }

  /** Patterns and codewords, before masking. */
  ghost function DataGrid(v: nat, codewords: seq<bv8>): (g: Grid)
    requires IsVersion(v)
    ensures g.Valid() && g.size == SizeOf(v)
  {
    ZigzagInside(v);
    Placed(PatternGrid(v), FunctionGrid(v), FullOrder(SizeOf(v)), CodewordBits(codewords)).0
  }

  lemma SymbolSizes(v: nat)
    ensures SizeOf(v) == 4 * v + 17 && (IsVersion(v) ==> SymbolSize(SizeOf(v)))
  {
  }

  lemma ZigzagInside(v: nat)
    requires IsVersion(v)
    ensures forall p :: p in FullOrder(SizeOf(v)) ==> PatternGrid(v).Inside(p.0, p.1)
  {
    hide PatternGrid, Order;
    OrderInside(SizeOf(v), (SizeOf(v) - 1) / 2);
  }

  /** The finished symbol for a given mask. */
  ghost function Symbol(v: nat, e: Ecc, codewords: seq<bv8>, mask: nat): (g: Grid)
    requires IsVersion(v) && mask < 8
    ensures g.Valid() && g.size == SizeOf(v)
  {
    Candidate(DataGrid(v, codewords), FunctionGrid(v), e, mask)
  }

  // ---- drawing ----

  lemma FunctionGridReserved(v: nat)
    ensures FormatReserved(FunctionGrid(v))
  {
    hide InPatterns, InFormat;
  }

  /** The format area does not matter to placement: it is reserved. */
  lemma {:induction false} PlacedSameButFormat(g: Grid, g': Grid, fn: Grid, order: seq<Pos>, bits: seq<bool>)
    requires SameButFormat(g', g) && FormatReserved(fn) && fn.size == g.size && AllInside(g.size, order)
    ensures Placed(g', fn, order, bits).1 == Placed(g, fn, order, bits).1
    ensures SameButFormat(Placed(g', fn, order, bits).0, Placed(g, fn, order, bits).0)
  {
    hide InFormat;
    if order != [] {
      assert order[|order| - 1] in order;
      PlacedSameButFormat(g, g', fn, order[..|order| - 1], bits);
    }
  }

  lemma CandidateSameButFormat(base: Grid, base': Grid, fn: Grid, e: Ecc, mask: nat)
    requires SameButFormat(base', base) && fn.Valid() && mask < 8
    ensures Candidate(base', fn, e, mask) == Candidate(base, fn, e, mask)
  {
    hide InFormat, FormatColour, Flips;
    Extensional(Candidate(base', fn, e, mask), Candidate(base, fn, e, mask));
  }

  /** Function patterns and a placeholder in the format area. */
  method DrawFunctions(c: Canvas, v: nat, e: Ecc)
    requires c.Valid() && IsVersion(v) && c.size == SizeOf(v)
    requires c.modules == Grid.Blank(c.size) && c.functionMask == Grid.Blank(c.size)
    modifies c
    ensures c.Valid() && c.functionMask == FunctionGrid(v) && SameButFormat(c.modules, PatternGrid(v))
  {
    hide InPatterns, InFormat, PatternColour, FormatColour;
    c.DrawFunctionPatterns(v);
    c.DrawFormatBits(e, 0);
    assert forall x, y :: c.functionMask.Inside(x, y) ==> c.functionMask.Get(x, y) == FunctionGrid(v).Get(x, y);
    Extensional(c.functionMask, FunctionGrid(v));
  }

  /** Place every module: function patterns, then data, then a mask. `None` picks the mask of least penalty. */
  method Draw(codewords: seq<bv8>, v: nat, e: Ecc, mask: Option<nat>, penalty: Grid -> u32)
    returns (g: Grid, ghost chosen: nat)
    requires IsVersion(v) && (mask.Some? ==> mask.value < 8)
    ensures chosen < 8 && g == Symbol(v, e, codewords, chosen)
    ensures mask.Some? ==> chosen == mask.value
    ensures mask.None? ==> forall m :: 0 <= m < 8 ==> penalty(g) <= penalty(Symbol(v, e, codewords, m))
    ensures mask.None? ==> forall m :: 0 <= m < chosen ==> penalty(g) < penalty(Symbol(v, e, codewords, m))
  {
    hide FunctionGrid, PatternGrid, Placed, FormatReserved, SameButFormat, Candidate, CodewordBits, FullOrder;
    var c := new Canvas(v);
    DrawFunctions(c, v, e);
    ghost var fn, start := c.functionMask, c.modules;
    FunctionGridReserved(v);
    DrawCodewords(c, codewords);
    ghost var base := c.modules;
    PlacedSameButFormat(PatternGrid(v), start, fn, FullOrder(c.size), CodewordBits(codewords));
    forall m: nat | m < 8 ensures Candidate(base, fn, e, m) == Symbol(v, e, codewords, m) {
      CandidateSameButFormat(DataGrid(v, codewords), base, fn, e, m);
    }
    var best;
    if mask.Some? {
      best := mask.value;
      SameAsItself(base);
    } else {
      best := BestMask(c, e, penalty);
    }
    MaskAndFormat(c, e, best, base);
    g, chosen := c.modules, best;
  }

  lemma SameAsItself(g: Grid)
    requires g.Valid()
    ensures SameButFormat(g, g)
  {
  }

  /** The symbol that carries a payload. */
  ghost function PayloadSymbol(data: seq<byte>, v: nat, e: Ecc, mask: nat): (g: Grid)
    requires IsVersion(v) && mask < 8 && |data| <= ByteCapacity(v, e)
    ensures g.Valid() && g.size == SizeOf(v)
  {
    CapacityMeansFits(v, e, data);
    ShapeCapacity(v, e);
    Symbol(v, e, CodewordsOf(ShapeFor(v, e), CountBits(v), data), mask)
  }

  /** The smallest version that holds the payload at the required level, then the strongest level that fits there. */
  ghost predicate BestPlan(len: nat, minEcc: Ecc, v: nat, e: Ecc) {
    && IsVersion(v) && Fits(len, v, e) && Fits(len, v, minEcc) && e.Index() >= minEcc.Index()
    && (forall w :: MIN_VERSION <= w < v ==> !Fits(len, w, minEcc))
    && (forall stronger: Ecc :: stronger.Index() > e.Index() ==> !Fits(len, v, stronger))
  }

  /** The symbol with the mask of least penalty, the lowest-numbered one if several tie. */
  ghost predicate BestSymbol(g: Grid, data: seq<byte>, v: nat, e: Ecc, mask: nat, penalty: Grid -> u32)
    requires IsVersion(v) && Fits(|data|, v, e)
  {
    && mask < 8 && g == PayloadSymbol(data, v, e, mask)
    && (forall m :: 0 <= m < 8 ==> penalty(g) <= penalty(PayloadSymbol(data, v, e, m)))
    && (forall m :: 0 <= m < mask ==> penalty(g) < penalty(PayloadSymbol(data, v, e, m)))
  }

  /** Encode `data` in the smallest version that holds it, at the strongest level that is free there, under the mask
      of least penalty. The symbol itself says which these are. */
  method Encode(data: seq<byte>, minEcc: Ecc, penalty: Grid -> u32) returns (r: Result<Grid, QrError>)
    ensures r.Err? <==> forall w :: MIN_VERSION <= w <= MAX_VERSION ==> !Fits(|data|, w, minEcc)
    ensures r.Ok? ==> r.value.Valid() && DecodeSymbol(r.value) == Some(data)
    ensures r.Ok? ==>
      var v := VersionOf(r.value);
      var (e, mask) := FormatOf(r.value);
      BestPlan(|data|, minEcc, v, e) && BestSymbol(r.value, data, v, e, mask, penalty)
  {
    hide ByteCapacity, DecodeSymbol, Symbol, FormatOf, CodewordsOf, ShapeFor, CountBits;
    var plan := Plan(|data|, minEcc);
    if plan.Err? {
      return Err(plan.error);
    }
    var (v, e) := plan.value;
    var codewords := BuildCodewords(data, v, e);
    var g, chosen := Draw(codewords, v, e, None, penalty);
    DecodeEncoded(data, v, e, chosen);
    r := Ok(g);
  }

  // ---- reading ----

  /** The version of a symbol of this size. */
  function VersionOf(g: Grid): int {
    (g.size - 17) / 4
  }

  /** Level and mask, from the copy of the format information next to the top-left finder pattern. */
  ghost function FormatOf(g: Grid): (Ecc, nat)
    requires g.Valid()
  {
    ReadFormat(g.Get(0, 8), g.Get(1, 8), g.Get(2, 8), g.Get(3, 8), g.Get(4, 8))
  }

  /** The same from the second copy. */
  ghost function SecondFormatOf(g: Grid): (Ecc, nat)
    requires g.Valid()
  {
    ReadFormat(g.Get(8, g.size - 1), g.Get(8, g.size - 2), g.Get(8, g.size - 3), g.Get(8, g.size - 4),
               g.Get(8, g.size - 5))
  }

  /** The symbol with the mask taken off its data modules. */
  ghost function Unmask(g: Grid, fn: Grid, mask: nat): (u: Grid)
    requires g.Valid() && fn.Valid()
    ensures u.Valid() && u.size == g.size
    ensures forall x, y :: u.Get(x, y) == (u.Inside(x, y) && g.Get(x, y) != Flips(fn, mask, x, y))
  {
    Grid.Tabulate(g.size, (x, y) => g.Get(x, y) != Flips(fn, mask, x, y))
  }

  /** The first `n` bytes of a bit string, if it is long enough. */
  ghost function FirstBytes(bits: seq<bool>, n: int): seq<bv8> {
    if 0 <= 8 * n <= |bits| then Pack(bits[..8 * n]) else []
  }

  /** The data modules in zigzag order. */
  ghost function FreeModules(g: Grid, v: nat): seq<bool>
    requires g.Valid()
  {
    ReadFree(g, FunctionGrid(v), FullOrder(SizeOf(v)))
  }

  /** The data modules of a symbol in zigzag order, unmasked. */
  ghost function DataModules(g: Grid, v: nat, mask: nat): seq<bool>
    requires g.Valid()
  {
    FreeModules(Unmask(g, FunctionGrid(v), mask), v)
  }

  /** The codewords of a symbol, in the order they were laid out. */
  ghost function ModulesToCodewords(g: Grid, v: nat, mask: nat): (codewords: seq<bv8>)
    requires g.Valid()
  {
    FirstBytes(DataModules(g, v, mask), NumRawCodewords(v))
  }

  /** What a reader makes of a symbol: size, format, unmasking, zigzag, blocks, stream. */
  ghost function DecodeSymbol(g: Grid): Option<seq<nat>>
    requires g.Valid()
  {
    var v := VersionOf(g);
    if g.size % 4 != 1 || !IsVersion(v) then
      None
    else
      var (e, mask) := FormatOf(g);
      ReadCodewords(ShapeFor(v, e), CountBits(v), ModulesToCodewords(g, v, mask))
  }

  /** Both copies of the format information say which level and mask were used. */
  lemma SymbolFormat(v: nat, e: Ecc, codewords: seq<bv8>, mask: nat)
    requires IsVersion(v) && mask < 8
    ensures FormatOf(Symbol(v, e, codewords, mask)) == (e, mask)
    ensures SecondFormatOf(Symbol(v, e, codewords, mask)) == (e, mask)
  {
    hide Bit, FormatWord, DataGrid, FunctionGrid, ReadFormat, FormatData, Flips;
    FormatRoundTrip(e, mask);
  }

  /** Taking the mask off shows the data grid on every data module. */
  lemma UnmaskSymbol(v: nat, e: Ecc, codewords: seq<bv8>, mask: nat, x: int, y: int)
    requires IsVersion(v) && mask < 8 && 0 <= x < SizeOf(v) && 0 <= y < SizeOf(v) && !FunctionGrid(v).Get(x, y)
    ensures Unmask(Symbol(v, e, codewords, mask), FunctionGrid(v), mask).Get(x, y) == DataGrid(v, codewords).Get(x, y)
  {
    hide DataGrid, Flips, FormatColour, InFormat, InPatterns;
  }

  /** The unmasked data modules of a symbol are those of its data grid. */
  lemma SymbolModules(v: nat, e: Ecc, codewords: seq<bv8>, mask: nat)
    requires IsVersion(v) && mask < 8
    ensures DataModules(Symbol(v, e, codewords, mask), v, mask) == FreeModules(DataGrid(v, codewords), v)
  {
    hide FunctionGrid, DataGrid, ReadFree, FullOrder, Symbol, Unmask;
    var fn, order, g := FunctionGrid(v), FullOrder(SizeOf(v)), DataGrid(v, codewords);
    var u := Unmask(Symbol(v, e, codewords, mask), fn, mask);
    FullOrderMembers(SizeOf(v));
    forall x, y | (x, y) in order && !fn.Get(x, y) ensures u.Get(x, y) == g.Get(x, y) {
      UnmaskSymbol(v, e, codewords, mask, x, y);
    }
    ReadFreeFrame(g, u, fn, order);
  }

  /** Bit `k` of the codewords is the `k`-th data module of the data grid; all of them found room. */
  lemma DataGridModules(v: nat, codewords: seq<bv8>)
    requires IsVersion(v) && |codewords| == NumRawCodewords(v)
    ensures var read := FreeModules(DataGrid(v, codewords), v);
      8 * |codewords| <= |read| && read[..8 * |codewords|] == CodewordBits(codewords)
  {
    hide FunctionGrid, PatternGrid, ReadFree, FullOrder, NumRawDataModules, CodewordBits, Placed, IsFunction;
    var size, fn, bits := SizeOf(v), FunctionGrid(v), CodewordBits(codewords);
    OrderInside(size, (size - 1) / 2);
    FullOrderMembers(size);
    ReadPlaced(PatternGrid(v), fn, FullOrder(size), bits);
    var read := FreeModules(DataGrid(v, codewords), v);
    RoomForCodewords(v, codewords);
    hide DataGrid, FreeModules;
    assert read[..|bits|] == bits[..|bits|] == bits;
  }

  /** The data grid has a module for every bit of the codewords. */
  lemma RoomForCodewords(v: nat, codewords: seq<bv8>)
    requires IsVersion(v) && |codewords| == NumRawCodewords(v)
    ensures 8 * |codewords| <= |FreeModules(DataGrid(v, codewords), v)|
  {
    hide NumRawDataModules, DataGrid, FunctionGrid, ReadFree, FullOrder, IsFunction;
    ExactRoom(v, DataGrid(v, codewords), FunctionGrid(v));
  }

  /** Every codeword laid out in a symbol is read back, whatever the mask. */
  lemma SymbolRoundTrip(v: nat, e: Ecc, codewords: seq<bv8>, mask: nat)
    requires IsVersion(v) && mask < 8 && |codewords| == NumRawCodewords(v)
    ensures ModulesToCodewords(Symbol(v, e, codewords, mask), v, mask) == codewords
  {
    hide FunctionGrid, DataGrid, FreeModules, NumRawCodewords, Symbol, DataModules, CodewordBits, Pack;
    SymbolModules(v, e, codewords, mask);
    DataGridModules(v, codewords);
    PackInverse(codewords);
  }

  /** Packing the bits of a byte string gives the byte string. */
  lemma PackInverse(codewords: seq<bv8>)
    ensures Pack(CodewordBits(codewords)) == codewords
  {
    hide Pack, BitAt;
    var bits := CodewordBits(codewords);
    PackBits(bits);
    assert forall i :: 0 <= i < |bits| ==> CodewordBits(Pack(bits))[i] == bits[i];
    BitsDetermine(Pack(bits), codewords);
  }

  /** The reader recovers the payload from the symbol, whatever the mask. */
  lemma DecodeEncoded(data: seq<byte>, v: nat, e: Ecc, mask: nat)
    requires IsVersion(v) && mask < 8 && |data| <= ByteCapacity(v, e)
    ensures StreamFits(ShapeFor(v, e), CountBits(v), data)
    ensures var g := Symbol(v, e, CodewordsOf(ShapeFor(v, e), CountBits(v), data), mask);
      DecodeSymbol(g) == Some(data) && FormatOf(g) == (e, mask)
  {
    hide ByteCapacity, Symbol, FormatOf, SecondFormatOf, CodewordsOf, ReadCodewords, ModulesToCodewords;
    hide StreamFits, NumRawCodewords;
    hide ShapeFor, CountBits;
    CapacityMeansFits(v, e, data);
    ShapeCapacity(v, e);
    ReadBuilt(ShapeFor(v, e), CountBits(v), data);
    var codewords := CodewordsOf(ShapeFor(v, e), CountBits(v), data);
    SymbolFormat(v, e, codewords, mask);
    SymbolRoundTrip(v, e, codewords, mask);
  }
}
