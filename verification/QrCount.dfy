/**
 Every version has room for its codewords: exactly `NumRawDataModules` modules carry no function pattern. The function
 patterns are cut into rectangles, no two of which overlap.
 */
module QrCount {
  import opened Grid
  import opened QrTables
  import opened QrCanvas
  import opened Zigzag

  // ---- rectangles ----

  ghost function Rect(x0: int, x1: int, y0: int, y1: int): set<Pos> {
    set x: int, y: int | x0 <= x < x1 && y0 <= y < y1 :: (x, y)
  }

  ghost function Column(x: int, y0: int, y1: int): set<Pos> {
    set y: int | y0 <= y < y1 :: (x, y)
  }

  lemma {:induction false} ColumnSize(x: int, y0: int, y1: int)
    requires y0 <= y1
    ensures |Column(x, y0, y1)| == y1 - y0
    decreases y1 - y0
  {
    if y0 == y1 {
      assert Column(x, y0, y1) == {};
    } else {
      ColumnSize(x, y0, y1 - 1);
      assert Column(x, y0, y1) == Column(x, y0, y1 - 1) + {(x, y1 - 1)};
    }
  }

  lemma {:induction false} RectSize(x0: int, x1: int, y0: int, y1: int)
    requires x0 <= x1 && y0 <= y1
    ensures |Rect(x0, x1, y0, y1)| == (x1 - x0) * (y1 - y0)
    decreases x1 - x0
  {
    if x0 == x1 {
      assert Rect(x0, x1, y0, y1) == {};
    } else {
      RectSize(x0, x1 - 1, y0, y1);
      ColumnSize(x1 - 1, y0, y1);
      var left, right := Rect(x0, x1 - 1, y0, y1), Column(x1 - 1, y0, y1);
      assert Rect(x0, x1, y0, y1) == left + right;
      assert left !! right;
      assert (x1 - 1 - x0) * (y1 - y0) + (y1 - y0) == (x1 - x0) * (y1 - y0);
    }
  }

  // ---- the cover ----

  /** What alignment pattern (i, j) covers outside the timing patterns. */
  ghost function Tile(v: nat, i: nat, j: nat): set<Pos> {
    var cx, cy := AlignPos(v, i), AlignPos(v, j);
    if Corner(NumAlign(v), i, j) then {}
    else if i == 0 then Rect(4, 6, cy - 2, cy + 3) + Rect(7, 9, cy - 2, cy + 3)
    else if j == 0 then Rect(cx - 2, cx + 3, 4, 6) + Rect(cx - 2, cx + 3, 7, 9)
    else Rect(cx - 2, cx + 3, cy - 2, cy + 3)
  }

  function TileSize(n: nat, i: nat, j: nat): nat {
    if Corner(n, i, j) then 0 else if i == 0 || j == 0 then 20 else 25
  }

  lemma TileArea(v: nat, i: nat, j: nat)
    ensures |Tile(v, i, j)| == TileSize(NumAlign(v), i, j)
  {
    hide AlignPos, Rect, NumAlign;
    var cx, cy := AlignPos(v, i), AlignPos(v, j);
    if i == 0 {
      RectSize(4, 6, cy - 2, cy + 3);
      RectSize(7, 9, cy - 2, cy + 3);
      RectsApart(4, 6, cy - 2, cy + 3, 7, 9, cy - 2, cy + 3);
    } else if j == 0 {
      RectSize(cx - 2, cx + 3, 4, 6);
      RectSize(cx - 2, cx + 3, 7, 9);
      RectsApart(cx - 2, cx + 3, 4, 6, cx - 2, cx + 3, 7, 9);
    } else {
      RectSize(cx - 2, cx + 3, cy - 2, cy + 3);
    }
  }

  /** Rectangles that share no column or no row have no module in common. */
  lemma RectsApart(x0: int, x1: int, y0: int, y1: int, x0': int, x1': int, y0': int, y1': int)
    requires x1 <= x0' || x1' <= x0 || y1 <= y0' || y1' <= y0
    ensures Rect(x0, x1, y0, y1) !! Rect(x0', x1', y0', y1')
  {
  }

  /** A tile is the part of its alignment pattern outside row and column 6. */
  lemma TileMember(v: nat, i: nat, j: nat, p: Pos)
    ensures p in Tile(v, i, j)
            <==> AlignmentAt(v, i, j, p.0, p.1) && (i == 0 ==> p.0 != 6) && (j == 0 ==> i == 0 || p.1 != 6)
  {
    if i == 0 {
      assert AlignPos(v, i) == 6;
    }
    if j == 0 {
      assert AlignPos(v, j) == 6;
    }
    hide AlignPos;
  }

  lemma TilesApart(v: nat, i: nat, j: nat, i': nat, j': nat)
    requires IsVersion(v) && i < NumAlign(v) && j < NumAlign(v) && i' < NumAlign(v) && j' < NumAlign(v)
    requires i != i' || j != j'
    ensures Tile(v, i, j) !! Tile(v, i', j')
  {
    hide Tile, AlignmentAt, NumAlign;
    forall p | p in Tile(v, i, j) ensures p !in Tile(v, i', j') {
      TileMember(v, i, j, p);
      TileMember(v, i', j', p);
      if AlignmentAt(v, i', j', p.0, p.1) {
        AlignmentsApart(v, i, j, i', j', p.0, p.1);
      }
    }
  }

  /** All tiles before (i, j), row by row. */
  ghost function Tiles(v: nat, i: nat, j: nat): set<Pos>
    decreases i, j
  {
    if j > 0 then Tiles(v, i, j - 1) + Tile(v, i, j - 1)
    else if i > 0 then Tiles(v, i - 1, NumAlign(v))
    else {}
  }

  function TilesSize(n: nat, i: nat, j: nat): nat
    decreases i, j
  {
    if j > 0 then TilesSize(n, i, j - 1) + TileSize(n, i, j - 1)
    else if i > 0 then TilesSize(n, i - 1, n)
    else 0
  }

  /** A place in the walk over all tiles. */
  predicate InWalk(n: nat, i: nat, j: nat) {
    j <= n && (i < n || (i == n && j == 0))
  }

  lemma {:induction false} TilesArea(v: nat, i: nat, j: nat)
    requires IsVersion(v) && InWalk(NumAlign(v), i, j)
    ensures |Tiles(v, i, j)| == TilesSize(NumAlign(v), i, j)
    decreases i, j
  {
    hide TileSize, Tile, NumAlign;
    if j > 0 {
      TilesArea(v, i, j - 1);
      TileArea(v, i, j - 1);
      var before, tile := Tiles(v, i, j - 1), Tile(v, i, j - 1);
      forall p | p in before ensures p !in tile {
        var i', j' := TilesOrigin(v, i, j - 1, p);
        TilesApart(v, i, j - 1, i', j');
      }
    } else if i > 0 {
      TilesArea(v, i - 1, NumAlign(v));
    }
  }

  /** Which tile a module of the walk lies in. */
  lemma {:induction false} TilesOrigin(v: nat, i: nat, j: nat, p: Pos) returns (i': nat, j': nat)
    requires InWalk(NumAlign(v), i, j) && p in Tiles(v, i, j)
    ensures i' < NumAlign(v) && j' < NumAlign(v) && (i' < i || (i' == i && j' < j)) && p in Tile(v, i', j')
    decreases i, j
  {
    hide Tile, NumAlign;
    if j > 0 {
      if p in Tile(v, i, j - 1) {
        i', j' := i, j - 1;
      } else {
        i', j' := TilesOrigin(v, i, j - 1, p);
      }
    } else {
      i', j' := TilesOrigin(v, i - 1, NumAlign(v), p);
    }
  }

  lemma {:induction false} TilesMember(v: nat, i: nat, j: nat, i': nat, j': nat)
    requires i' < i || (i' == i && j' < j)
    requires j' < NumAlign(v) && j <= NumAlign(v)
    ensures Tile(v, i', j') <= Tiles(v, i, j)
    decreases i, j
  {
    hide Tile, NumAlign;
    if j > 0 {
      if !(i' == i && j' == j - 1) {
        TilesMember(v, i, j - 1, i', j');
      }
    } else {
      TilesMember(v, i - 1, NumAlign(v), i', j');
    }
  }

  lemma {:induction false} RowSize(n: nat, i: nat, j: nat)
    requires n >= 2 && i < n && 1 <= j <= n
    ensures TilesSize(n, i, j) == TilesSize(n, i, 0) +
      if i == 0 then (if j < n then 20 * (j - 1) else 20 * (n - 2))
      else if i < n - 1 then 20 + 25 * (j - 1)
      else 25 * (j - 1)
  {
    if j > 1 {
      RowSize(n, i, j - 1);
    } else {
      assert TilesSize(n, i, 1) == TilesSize(n, i, 0) + TileSize(n, i, 0);
    }
  }

  lemma {:induction false} RowsSize(n: nat, i: nat)
    requires n >= 2 && 1 <= i <= n - 1
    ensures TilesSize(n, i, 0) == 20 * n - 40 + (i - 1) * (25 * n - 5)
  {
    RowSize(n, i - 1, n);
    if i > 1 {
      RowsSize(n, i - 1);
      assert (i - 2) * (25 * n - 5) + (25 * n - 5) == (i - 1) * (25 * n - 5);
    }
  }

  /** The area of the alignment patterns, `n` along each side, outside the timing patterns. */
  function AllTiles(n: nat): int {
    (25 * n - 10) * n - 55
  }

  /** The areas of all tiles add up to what the capacity formula takes off. */
  lemma TilesTotal(n: nat)
    requires n >= 2
    ensures TilesSize(n, n, 0) == AllTiles(n)
  {
    RowsSize(n, n - 1);
    RowSize(n, n - 1, n);
    assert 20 * n - 40 + (n - 2) * (25 * n - 5) + 25 * (n - 1) == (25 * n - 10) * n - 55;
  }

  // ---- the whole cover ----

  ghost function Corners(size: nat): set<Pos> {
    Rect(0, 9, 0, 9) + Rect(size - 8, size, 0, 9) + Rect(0, 9, size - 8, size)
  }

  ghost function Lines(size: nat): set<Pos> {
    Rect(9, size - 8, 6, 7) + Rect(6, 7, 9, size - 8)
  }

  ghost function Versions(size: nat): set<Pos> {
    Rect(size - 11, size - 8, 0, 6) + Rect(0, 6, size - 11, size - 8)
  }

  ghost function Cover(v: nat): set<Pos> {
    var size := SizeOf(v);
    Corners(size) + Lines(size) + Tiles(v, NumAlign(v), 0) + if v >= 7 then Versions(size) else {}
  }

  /** What the capacity formula takes off for alignment patterns. */
  function AlignmentArea(v: nat): int {
    if v >= 2 then AllTiles(v / 7 + 2) else 0
  }

  lemma AlignmentsTotal(v: nat)
    requires IsVersion(v)
    ensures |Tiles(v, NumAlign(v), 0)| == AlignmentArea(v)
  {
    hide Tiles, AllTiles;
    TilesArea(v, NumAlign(v), 0);
    if v >= 2 {
      TilesTotal(v / 7 + 2);
    }
  }

  lemma AreaIdentity(v: nat)
    ensures SizeOf(v) * SizeOf(v) - NumRawDataModules(v)
         == 225 + 2 * (SizeOf(v) - 17) + AlignmentArea(v) + if v >= 7 then 36 else 0
  {
    assert SizeOf(v) * SizeOf(v) == 16 * (v * v) + 136 * v + 289;
    assert (16 * v + 128) * v == 16 * (v * v) + 128 * v;
  }

  /** The areas of the rectangles add up to what the capacity formula takes off: no two of them overlap. */
  lemma CoverSize(v: nat)
    requires IsVersion(v)
    ensures |Cover(v)| == SizeOf(v) * SizeOf(v) - NumRawDataModules(v)
  {
    hide Corners, Lines, Tiles, Versions, AlignmentArea, NumRawDataModules, NumAlign;
    var size := SizeOf(v);
    CornersSize(size);
    LinesSize(size);
    VersionsSize(size);
    AlignmentsTotal(v);
    AreaIdentity(v);
    PartsApart(size);
    TilesElsewhere(v);
    UnionSize(Corners(size), Lines(size), Tiles(v, NumAlign(v), 0), if v >= 7 then Versions(size) else {});
  }

  lemma UnionSize(a: set<Pos>, b: set<Pos>, c: set<Pos>, d: set<Pos>)
    requires a !! b && a !! c && a !! d && b !! c && b !! d && c !! d
    ensures |a + b + c + d| == |a| + |b| + |c| + |d|
  {
    assert (a + b) !! c && (a + b + c) !! d;
  }

  lemma CornersSize(size: nat)
    requires size >= 21
    ensures |Corners(size)| == 225
  {
    RectSize(0, 9, 0, 9);
    RectSize(size - 8, size, 0, 9);
    RectSize(0, 9, size - 8, size);
    RectsApart(0, 9, 0, 9, size - 8, size, 0, 9);
    RectsApart(0, 9, 0, 9, 0, 9, size - 8, size);
    RectsApart(size - 8, size, 0, 9, 0, 9, size - 8, size);
    hide Rect;
    assert (Rect(0, 9, 0, 9) + Rect(size - 8, size, 0, 9)) !! Rect(0, 9, size - 8, size);
  }

  lemma LinesSize(size: nat)
    requires size >= 21
    ensures |Lines(size)| == 2 * (size - 17)
  {
    RectSize(9, size - 8, 6, 7);
    RectSize(6, 7, 9, size - 8);
    RectsApart(9, size - 8, 6, 7, 6, 7, 9, size - 8);
  }

  lemma VersionsSize(size: nat)
    requires size >= 21
    ensures |Versions(size)| == 36
  {
    RectSize(size - 11, size - 8, 0, 6);
    RectSize(0, 6, size - 11, size - 8);
    RectsApart(size - 11, size - 8, 0, 6, 0, 6, size - 11, size - 8);
  }

  lemma PartsApart(size: nat)
    requires size >= 21
    ensures Corners(size) !! Lines(size) && Corners(size) !! Versions(size) && Lines(size) !! Versions(size)
  {
  }

  /** An alignment pattern that is neither first nor last along its side stays clear of both ends. */
  lemma InnerPos(v: nat, i: nat)
    requires IsVersion(v) && 0 < i < NumAlign(v)
    ensures 18 <= AlignPos(v, i) <= SizeOf(v) - 7
    ensures i < NumAlign(v) - 1 ==> AlignPos(v, i) <= SizeOf(v) - 23
  {
    AlignPosBound(v, i);
    if i < NumAlign(v) - 1 {
      StepApart(v);
      StepsGrow(AlignStep(v), 0, v / 7 + 1 - i);
    }
  }

  lemma TilesElsewhere(v: nat)
    requires IsVersion(v)
    ensures var tiles, size := Tiles(v, NumAlign(v), 0), SizeOf(v);
      tiles !! Corners(size) && tiles !! Lines(size) && tiles !! Versions(size)
  {
    hide Tile, NumAlign, Corners, Lines, Versions;
    forall p | p in Tiles(v, NumAlign(v), 0)
      ensures p !in Corners(SizeOf(v)) && p !in Lines(SizeOf(v)) && p !in Versions(SizeOf(v)) {
      var i, j := TilesOrigin(v, NumAlign(v), 0, p);
      TileElsewhere(v, i, j, p);
    }
  }

  lemma TileElsewhere(v: nat, i: nat, j: nat, p: Pos)
    requires IsVersion(v) && i < NumAlign(v) && j < NumAlign(v) && p in Tile(v, i, j)
    ensures var size := SizeOf(v); p !in Corners(size) && p !in Lines(size) && p !in Versions(size)
  {
    hide AlignPos, NumAlign;
    TileMember(v, i, j, p);
    if i > 0 {
      InnerPos(v, i);
    } else {
      assert AlignPos(v, 0) == 6 by { FirstPos(v); }
    }
    if j > 0 {
      InnerPos(v, j);
    } else {
      assert AlignPos(v, 0) == 6 by { FirstPos(v); }
    }
  }

  lemma FirstPos(v: nat)
    ensures AlignPos(v, 0) == 6
  {
  }

  /** The cover is exactly the function modules. */
  lemma CoverIff(v: nat, x: int, y: int)
    requires IsVersion(v)
    ensures (x, y) in Cover(v) <==> 0 <= x < SizeOf(v) && 0 <= y < SizeOf(v) && IsFunction(v, x, y)
  {
    hide IsFunction, Cover;
    if (x, y) in Cover(v) {
      OnlyFunctions(v, x, y);
    } else if 0 <= x < SizeOf(v) && 0 <= y < SizeOf(v) && IsFunction(v, x, y) {
      Covered(v, x, y);
    }
  }

  lemma OnlyFunctions(v: nat, x: int, y: int)
    requires IsVersion(v) && (x, y) in Cover(v)
    ensures 0 <= x < SizeOf(v) && 0 <= y < SizeOf(v) && IsFunction(v, x, y)
  {
    hide Tiles, NumAlign, AlignPos;
    if (x, y) in Tiles(v, NumAlign(v), 0) {
      var i, j := TilesOrigin(v, NumAlign(v), 0, (x, y));
      TileMember(v, i, j, (x, y));
      FirstPos(v);
      if i > 0 {
        InnerPos(v, i);
      }
      if j > 0 {
        InnerPos(v, j);
      }
      assert InAlignments(v, x, y);
    }
  }

  /** Every function module lies in the cover. */
  lemma Covered(v: nat, x: int, y: int)
    requires IsVersion(v) && 0 <= x < SizeOf(v) && 0 <= y < SizeOf(v) && IsFunction(v, x, y)
    ensures (x, y) in Cover(v)
  {
    var size := SizeOf(v);
    if InTiming(x, y) {
      assert (x, y) in Corners(size) + Lines(size);
    } else if InAlignments(v, x, y) {
      var i, j :| 0 <= i < NumAlign(v) && 0 <= j < NumAlign(v) && AlignmentAt(v, i, j, x, y);
      assert (x, y) in Tile(v, i, j);
      TilesMember(v, NumAlign(v), 0, i, j);
    } else if v >= 7 && InVersion(size, x, y) {
      assert (x, y) in Versions(size);
    } else {
      assert (x, y) in Corners(size);
    }
  }

  // ---- free modules along the zigzag ----

  ghost function FreeSet(fn: Grid, order: seq<Pos>): set<Pos>
    requires fn.Valid()
  {
    set p | p in order && !fn.Get(p.0, p.1)
  }

  /** As many modules are read as there are free positions on the way. */
  lemma {:induction false} ReadFreeSize(g: Grid, fn: Grid, order: seq<Pos>)
    requires g.Valid() && fn.Valid() && NoDup(order)
    ensures |ReadFree(g, fn, order)| == |FreeSet(fn, order)|
  {
    if order == [] {
      assert FreeSet(fn, order) == {};
    } else {
      var before, p := order[..|order| - 1], order[|order| - 1];
      ReadFreeSize(g, fn, before);
      assert order == before + [p] && p !in before;
      if fn.Get(p.0, p.1) {
        assert FreeSet(fn, order) == FreeSet(fn, before);
      } else {
        assert FreeSet(fn, order) == FreeSet(fn, before) + {p};
      }
    }
  }

  /** Every module is either free and on the zigzag, or covered. */
  lemma FreeOrCovered(v: nat, fn: Grid, p: Pos)
    requires IsVersion(v) && fn.Valid() && fn.size == SizeOf(v)
    requires forall x, y :: fn.Get(x, y) == (fn.Inside(x, y) && IsFunction(v, x, y))
    ensures p in FreeSet(fn, FullOrder(SizeOf(v))) <==> p in Rect(0, SizeOf(v), 0, SizeOf(v)) && p !in Cover(v)
  {
    hide IsFunction, Cover, FullOrder;
    var (x, y) := p;
    CoverIff(v, x, y);
    FullOrderMembers(SizeOf(v));
    ColumnSixIsFunction(v, y);
    assert fn.Get(x, y) == (fn.Inside(x, y) && IsFunction(v, x, y));
  }

  /** A version's function patterns leave exactly its raw data modules free. */
  lemma ExactRoom(v: nat, g: Grid, fn: Grid)
    requires IsVersion(v) && g.Valid() && fn.Valid() && fn.size == SizeOf(v)
    requires forall x, y :: fn.Get(x, y) == (fn.Inside(x, y) && IsFunction(v, x, y))
    ensures |ReadFree(g, fn, FullOrder(SizeOf(v)))| == NumRawDataModules(v)
  {
    hide IsFunction, Cover, NumRawDataModules, ReadFree, FullOrder, Rect, FreeSet;
    var size := SizeOf(v);
    FullOrderMembers(size);
    ReadFreeSize(g, fn, FullOrder(size));
    CoverSize(v);
    RectSize(0, size, 0, size);
    var all, free := Rect(0, size, 0, size), FreeSet(fn, FullOrder(size));
    forall p: Pos ensures p in free <==> p in all && p !in Cover(v) {
      FreeOrCovered(v, fn, p);
    }
    forall p: Pos | p in Cover(v) ensures p in all {
      Inside(v, p);
    }
    assert all == free + Cover(v) && free !! Cover(v);
  }

  lemma Inside(v: nat, p: Pos)
    requires IsVersion(v) && p in Cover(v)
    ensures p in Rect(0, SizeOf(v), 0, SizeOf(v))
  {
    hide Cover, IsFunction;
    CoverIff(v, p.0, p.1);
  }

  lemma ColumnSixIsFunction(v: nat, y: int)
    ensures IsFunction(v, 6, y)
  {
  }
}
