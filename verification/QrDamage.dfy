/** Damaged modules: what few enough of them leave is one payload, one level and one mask. */
module QrDamage {
  import opened Wrappers
  import BinaryCode
  import opened Grid
  import opened Interleave
  import opened QrTables
  import opened QrFormat
  import opened QrFormatCode
  import opened QrCanvas
  import opened QrBits
  import opened QrCodewords
  import opened Zigzag
  import opened RsDistance
  import opened QrMask
  import opened Qr

  // ---- which modules carry which codeword ----

  /** The free positions of `order`. */
  function FreePositions(fn: Grid, order: seq<Pos>): seq<Pos>
    requires fn.Valid()
  {
    if order == [] then []
    else
      var p := order[|order| - 1];
      FreePositions(fn, order[..|order| - 1]) + if fn.Get(p.0, p.1) then [] else [p]
  }

  lemma {:induction false} ReadAt(g: Grid, fn: Grid, order: seq<Pos>)
    requires g.Valid() && fn.Valid()
    ensures |ReadFree(g, fn, order)| == |FreePositions(fn, order)|
    ensures forall k :: 0 <= k < |FreePositions(fn, order)| ==>
      var p := FreePositions(fn, order)[k];
      p in order && !fn.Get(p.0, p.1) && ReadFree(g, fn, order)[k] == g.Get(p.0, p.1)
  {
    if order != [] {
      var before := order[..|order| - 1];
      ReadAt(g, fn, before);
      assert forall p :: p in before ==> p in order;
    }
  }

  /** The data modules of a version, in the order in which the bits of its codewords fill them. */
  ghost function DataPositions(v: nat): seq<Pos> {
    FreePositions(FunctionGrid(v), FullOrder(SizeOf(v)))
  }

  predicate Damaged(g: Grid, seen: Grid, p: Pos)
    requires g.Valid() && seen.Valid()
  {
    g.Get(p.0, p.1) != seen.Get(p.0, p.1)
  }

  /** Some module of codeword `c` is damaged. */
  ghost predicate CodewordDamaged(g: Grid, seen: Grid, v: nat, c: int)
    requires g.Valid() && seen.Valid()
  {
    exists k :: 8 * c <= k < 8 * c + 8 && 0 <= k < |DataPositions(v)| && Damaged(g, seen, DataPositions(v)[k])
  }

  /** Taking the same mask off two grids leaves them different at the damaged data modules. */
  lemma UnmaskedDamage(g: Grid, seen: Grid, v: nat, mask: nat, k: nat)
    requires g.Valid() && seen.Valid() && g.size == seen.size == SizeOf(v)
    requires k < |DataPositions(v)| && !Damaged(g, seen, DataPositions(v)[k])
    ensures |DataModules(g, v, mask)| == |DataModules(seen, v, mask)| == |DataPositions(v)|
    ensures DataModules(g, v, mask)[k] == DataModules(seen, v, mask)[k]
  {
    hide Flips, FunctionGrid, FullOrder, ReadFree, FreePositions;
    var fn, order := FunctionGrid(v), FullOrder(SizeOf(v));
    ReadAt(Unmask(g, fn, mask), fn, order);
    ReadAt(Unmask(seen, fn, mask), fn, order);
  }

  lemma ModulesNumber(g: Grid, v: nat, mask: nat)
    requires g.Valid()
    ensures |DataModules(g, v, mask)| == |DataPositions(v)|
  {
    hide FunctionGrid, FullOrder, ReadFree, FreePositions, Unmask;
    ReadAt(Unmask(g, FunctionGrid(v), mask), FunctionGrid(v), FullOrder(SizeOf(v)));
  }

  lemma PackedFrom(a: seq<bool>, b: seq<bool>, n: nat, c: nat)
    requires 8 * n <= |a| && 8 * n <= |b| && c < n
    requires forall k :: 8 * c <= k < 8 * c + 8 ==> a[k] == b[k]
    ensures |FirstBytes(a, n)| == |FirstBytes(b, n)| == n
    ensures FirstBytes(a, n)[c] == FirstBytes(b, n)[c]
  {
    hide PackByte;
    var x, y := a[..8 * n], b[..8 * n];
    assert x[8 * c..8 * c + 8] == y[8 * c..8 * c + 8];
  }

  /** A codeword without a damaged module is read as it was laid out. */
  lemma SoundCodeword(g: Grid, seen: Grid, v: nat, mask: nat, c: nat)
    requires IsVersion(v) && g.Valid() && seen.Valid() && g.size == seen.size == SizeOf(v)
    requires 8 * NumRawCodewords(v) <= |DataPositions(v)| && c < NumRawCodewords(v)
    requires !CodewordDamaged(g, seen, v, c)
    ensures |ModulesToCodewords(g, v, mask)| == |ModulesToCodewords(seen, v, mask)| == NumRawCodewords(v)
    ensures ModulesToCodewords(g, v, mask)[c] == ModulesToCodewords(seen, v, mask)[c]
  {
    hide DataPositions, DataModules, Damaged, NumRawCodewords, FirstBytes;
    ModulesNumber(g, v, mask);
    ModulesNumber(seen, v, mask);
    var a, b := DataModules(g, v, mask), DataModules(seen, v, mask);
    forall k | 8 * c <= k < 8 * c + 8 ensures a[k] == b[k] {
      UnmaskedDamage(g, seen, v, mask, k);
    }
    PackedFrom(a, b, NumRawCodewords(v), c);
  }

  // ---- blocks ----

  lemma PosBound(s: Shape, j: nat, i: nat)
    requires s.Valid() && j < s.numBlocks && i < s.DataLen(j) + s.eccLen
    ensures 0 <= BlockPos(s, j, i) < s.Capacity() + s.numBlocks * s.eccLen
  {
    hide RowStart, DataPos;
    if i < s.DataLen(j) {
      DataPosBound(s, j, i);
    } else {
      RowStartMonotone(s, i - s.DataLen(j) + 1, s.eccLen);
      RowStartClosed(s, s.eccLen);
      RowStartNext(s, i - s.DataLen(j));
    }
  }

  lemma RowStartNext(s: Shape, i: nat)
    ensures RowStart(s, i + 1) == RowStart(s, i) + s.numBlocks
  {
  }

  /** Codewords put back into their blocks, parity included. */
  function BlocksOf<T>(s: Shape, codewords: seq<T>): (blocks: seq<seq<T>>)
    requires s.Valid() && |codewords| == s.Capacity() + s.numBlocks * s.eccLen
    ensures WellFormed(s, blocks)
  {
    seq(s.numBlocks, j requires 0 <= j < s.numBlocks => BlockOf(s, codewords, j))
  }

  function BlockOf<T>(s: Shape, codewords: seq<T>, j: nat): (block: seq<T>)
    requires s.Valid() && |codewords| == s.Capacity() + s.numBlocks * s.eccLen && j < s.numBlocks
    ensures |block| == s.DataLen(j) + s.eccLen
  {
    var len := s.DataLen(j) + s.eccLen;
    seq(len, i requires 0 <= i < len => PosBound(s, j, i); codewords[BlockPos(s, j, i)])
  }

  /** The codewords of block `j` that have a damaged module. */
  ghost function BlockDamage(g: Grid, seen: Grid, v: nat, e: Ecc, j: nat): set<nat>
    requires IsVersion(v) && g.Valid() && seen.Valid()
  {
    var s := ShapeFor(v, e);
    set i: nat | i < s.DataLen(j) + s.eccLen && CodewordDamaged(g, seen, v, BlockPos(s, j, i))
  }

  // ---- the format information ----

  /** The module of bit `i` in the first copy. */
  function FormatPos(i: nat): Pos
    requires i < 15
  {
    if i <= 5 then (8, i) else if i == 6 then (8, 7) else if i == 7 then (8, 8) else if i == 8 then (7, 8)
    else (14 - i, 8)
  }

  predicate FormatHit(g: Grid, seen: Grid, i: nat)
    requires g.Valid() && seen.Valid() && i < 15
  {
    Damaged(g, seen, FormatPos(i))
  }

  /** How many modules of that copy are damaged. */
  function FormatDamage(g: Grid, seen: Grid): nat
    requires g.Valid() && seen.Valid()
  {
    One(FormatHit(g, seen, 0)) + One(FormatHit(g, seen, 1)) + One(FormatHit(g, seen, 2))
    + One(FormatHit(g, seen, 3)) + One(FormatHit(g, seen, 4)) + One(FormatHit(g, seen, 5))
    + One(FormatHit(g, seen, 6)) + One(FormatHit(g, seen, 7)) + One(FormatHit(g, seen, 8))
    + One(FormatHit(g, seen, 9)) + One(FormatHit(g, seen, 10)) + One(FormatHit(g, seen, 11))
    + One(FormatHit(g, seen, 12)) + One(FormatHit(g, seen, 13)) + One(FormatHit(g, seen, 14))
  }

  /** Every module of that copy shows its bit of the format word. */
  lemma FormatModule(v: nat, e: Ecc, codewords: seq<bv8>, mask: nat, i: nat)
    requires IsVersion(v) && mask < 8 && i < 15
    ensures Symbol(v, e, codewords, mask).Get(FormatPos(i).0, FormatPos(i).1)
         == Bit(FormatWord(FormatData(e, mask)), i)
  {
    hide Bit, FormatWord, DataGrid, FunctionGrid, FormatData, Flips;
  }

  lemma BitOfAdd(a: bv32, b: bv32, i: nat)
    requires i < 15
    ensures Bit(BinaryCode.Add(a, b), i) ==> Bit(a, i) != Bit(b, i)
  {
    BitOfSum(a, b, a, i);
  }

  /** Where two symbols' format words differ, one of the symbols is damaged. */
  lemma FormatTriangle(g: Grid, g': Grid, seen: Grid, a: bv32, b: bv32)
    requires g.Valid() && g'.Valid() && seen.Valid()
    requires forall i: nat :: i < 15 ==> g.Get(FormatPos(i).0, FormatPos(i).1) == Bit(a, i)
    requires forall i: nat :: i < 15 ==> g'.Get(FormatPos(i).0, FormatPos(i).1) == Bit(b, i)
    ensures Distance(a, b) <= FormatDamage(g, seen) + FormatDamage(g', seen)
  {
    hide Bit, FormatPos;
    forall i: nat | i < 15
      ensures One(Bit(BinaryCode.Add(a, b), i)) <= One(FormatHit(g, seen, i)) + One(FormatHit(g', seen, i))
    {
      BitOfAdd(a, b, i);
    }
    hide BinaryCode.Add, FormatHit;
  }

  // ---- one reading ----

  /** The symbol of this payload, level and mask explains what is seen: no more than three modules of the first copy
      of the format information are damaged, and in every block no more codewords than half its parity. */
  ghost predicate Explains(seen: Grid, v: nat, data: seq<byte>, e: Ecc, mask: nat)
    requires IsVersion(v) && seen.Valid() && seen.size == SizeOf(v)
  {
    && mask < 8 && |data| <= ByteCapacity(v, e)
    && var g := PayloadSymbol(data, v, e, mask);
       && FormatDamage(g, seen) <= 3
       && forall j: nat :: j < ShapeFor(v, e).numBlocks ==>
            2 * |BlockDamage(g, seen, v, e, j)| <= ShapeFor(v, e).eccLen
  }

  lemma SameFormat(seen: Grid, v: nat, data: seq<byte>, e: Ecc, mask: nat, data': seq<byte>, e': Ecc, mask': nat)
    requires IsVersion(v) && seen.Valid() && seen.size == SizeOf(v)
    requires Explains(seen, v, data, e, mask) && Explains(seen, v, data', e', mask')
    ensures e == e' && mask == mask'
  {
    hide ByteCapacity, BlockDamage, Symbol, FormatWord, FormatData, Distance, CodewordsOf, ShapeFor, CountBits, Bit;
    hide FormatDamage, FormatPos;
    var g, g' := PayloadSymbol(data, v, e, mask), PayloadSymbol(data', v, e', mask');
    var a, b := FormatWord(FormatData(e, mask)), FormatWord(FormatData(e', mask'));
    PayloadFormat(v, data, e, mask);
    PayloadFormat(v, data', e', mask');
    FormatTriangle(g, g', seen, a, b);
    if e != e' || mask != mask' {
      FormatApart(e, mask, e', mask');
    }
  }

  lemma PayloadFormat(v: nat, data: seq<byte>, e: Ecc, mask: nat)
    requires IsVersion(v) && mask < 8 && |data| <= ByteCapacity(v, e)
    ensures forall i: nat :: i < 15 ==>
      PayloadSymbol(data, v, e, mask).Get(FormatPos(i).0, FormatPos(i).1) == Bit(FormatWord(FormatData(e, mask)), i)
  {
    hide ByteCapacity, Symbol, CodewordsOf, ShapeFor, CountBits, FormatWord, FormatData, Bit, FormatPos;
    CapacityMeansFits(v, e, data);
    ShapeCapacity(v, e);
    forall i: nat | i < 15
      ensures PayloadSymbol(data, v, e, mask).Get(FormatPos(i).0, FormatPos(i).1)
           == Bit(FormatWord(FormatData(e, mask)), i)
    {
      FormatModule(v, e, CodewordsOf(ShapeFor(v, e), CountBits(v), data), mask, i);
    }
  }

  /** The codewords of a block that are read wrongly are damaged ones. */
  lemma ErrorsAreDamage(seen: Grid, v: nat, e: Ecc, blocks: seq<seq<bv8>>, mask: nat, j: nat)
    requires IsVersion(v) && seen.Valid() && seen.size == SizeOf(v) && mask < 8
    requires WellFormed(ShapeFor(v, e), blocks) && j < ShapeFor(v, e).numBlocks
    ensures var s, codewords := ShapeFor(v, e), ModulesToCodewords(seen, v, mask);
      && |codewords| == s.Capacity() + s.numBlocks * s.eccLen
      && var g := Symbol(v, e, Interleaved(s, blocks), mask);
         |Errors(blocks[j], BlocksOf(s, codewords)[j])| <= |BlockDamage(g, seen, v, e, j)|
  {
    hide ShapeFor, Interleaved, Symbol, ModulesToCodewords, DataPositions, CodewordDamaged, NumRawCodewords, BlockPos;
    var s := ShapeFor(v, e);
    ShapeCapacity(v, e);
    InterleavedLength(s, blocks);
    var sent := Interleaved(s, blocks);
    var g := Symbol(v, e, sent, mask);
    RoomInVersion(v, sent);
    SymbolRoundTrip(v, e, sent, mask);
    CodewordNumber(seen, v, mask);
    var codewords := ModulesToCodewords(seen, v, mask);
    var len := s.DataLen(j) + s.eccLen;
    forall i: nat | i < len && blocks[j][i] != BlocksOf(s, codewords)[j][i]
      ensures CodewordDamaged(g, seen, v, BlockPos(s, j, i))
    {
      InterleavedEntry(s, blocks, j, i);
      if !CodewordDamaged(g, seen, v, BlockPos(s, j, i)) {
        SoundCodeword(g, seen, v, mask, BlockPos(s, j, i));
        assert false;
      }
    }
    assert Errors(blocks[j], BlocksOf(s, codewords)[j]) <= BlockDamage(g, seen, v, e, j);
    SubsetSmaller(Errors(blocks[j], BlocksOf(s, codewords)[j]), BlockDamage(g, seen, v, e, j));
  }

  /** A version has a data module for every bit of its codewords. */
  lemma RoomInVersion(v: nat, codewords: seq<bv8>)
    requires IsVersion(v) && |codewords| == NumRawCodewords(v)
    ensures 8 * NumRawCodewords(v) <= |DataPositions(v)|
  {
    hide DataGrid, FunctionGrid, FullOrder, ReadFree, FreePositions, NumRawCodewords;
    RoomForCodewords(v, codewords);
    ReadAt(DataGrid(v, codewords), FunctionGrid(v), FullOrder(SizeOf(v)));
  }

  lemma CodewordNumber(seen: Grid, v: nat, mask: nat)
    requires IsVersion(v) && seen.Valid() && 8 * NumRawCodewords(v) <= |DataPositions(v)|
    ensures |ModulesToCodewords(seen, v, mask)| == NumRawCodewords(v)
  {
    hide DataPositions, DataModules;
    ModulesNumber(seen, v, mask);
  }

  /** The data codewords of a payload. */
  ghost function PayloadBytes(data: seq<byte>, v: nat, e: Ecc): (payload: seq<bv8>)
    requires IsVersion(v) && |data| <= ByteCapacity(v, e)
    ensures |payload| == ShapeFor(v, e).Capacity()
  {
    CapacityMeansFits(v, e, data);
    Pack(Stream(data, CountBits(v), ShapeFor(v, e).Capacity()))
  }

  lemma PayloadRepairable(seen: Grid, v: nat, data: seq<byte>, e: Ecc, mask: nat)
    requires IsVersion(v) && seen.Valid() && seen.size == SizeOf(v) && Explains(seen, v, data, e, mask)
    ensures var s, codewords := ShapeFor(v, e), ModulesToCodewords(seen, v, mask);
      && |codewords| == s.Capacity() + s.numBlocks * s.eccLen
      && Repairable(s, AllBlocks(s, PayloadBytes(data, v, e)), BlocksOf(s, codewords))
  {
    hide ByteCapacity, Symbol, ShapeFor, CountBits, ModulesToCodewords, BlockDamage, Errors, AllBlocks, BlocksOf;
    hide FormatDamage, Interleaved, Stream, Pack;
    CapacityMeansFits(v, e, data);
    ShapeCapacity(v, e);
    var s := ShapeFor(v, e);
    var blocks := AllBlocks(s, PayloadBytes(data, v, e));
    InterleavedLength(s, blocks);
    ErrorsAreDamage(seen, v, e, blocks, mask, 0);
    forall j: nat | j < s.numBlocks
      ensures 2 * |Errors(blocks[j], BlocksOf(s, ModulesToCodewords(seen, v, mask))[j])| <= s.eccLen
    {
      ErrorsAreDamage(seen, v, e, blocks, mask, j);
    }
  }

  /** An undamaged symbol is explained by what it was drawn from. */
  lemma IntactExplains(v: nat, data: seq<byte>, e: Ecc, mask: nat)
    requires IsVersion(v) && mask < 8 && |data| <= ByteCapacity(v, e)
    ensures Explains(PayloadSymbol(data, v, e, mask), v, data, e, mask)
  {
    hide ByteCapacity, Symbol, CodewordsOf, ShapeFor, CountBits, DataPositions, FormatPos;
    var g := PayloadSymbol(data, v, e, mask);
    forall j: nat | j < ShapeFor(v, e).numBlocks ensures BlockDamage(g, g, v, e, j) == {} {
    }
  }

  /** Whatever is seen, at most one payload, level and mask explain it. */
  lemma OneReading(seen: Grid, v: nat, data: seq<byte>, e: Ecc, mask: nat, data': seq<byte>, e': Ecc, mask': nat)
    requires IsVersion(v) && seen.Valid() && seen.size == SizeOf(v)
    requires Explains(seen, v, data, e, mask) && Explains(seen, v, data', e', mask')
    ensures data == data' && e == e' && mask == mask'
  {
    SameFormat(seen, v, data, e, mask, data', e', mask');
    PayloadRepairable(seen, v, data, e, mask);
    PayloadRepairable(seen, v, data', e, mask);
    hide Explains, ShapeFor, ModulesToCodewords, AllBlocks, BlocksOf, Repairable, ReadCodewords;
    hide ByteCapacity, CountBits, Stream, Pack;
    var s := ShapeFor(v, e);
    var received := BlocksOf(s, ModulesToCodewords(seen, v, mask));
    CapacityMeansFits(v, e, data);
    CapacityMeansFits(v, e, data');
    OnePayload(v, e, PayloadBytes(data, v, e), PayloadBytes(data', v, e), received);
    ReadBuilt(s, CountBits(v), data);
    ReadBuilt(s, CountBits(v), data');
  }
}
