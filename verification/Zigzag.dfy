/** The zigzag in which data modules are filled: section 7.7.3 of ISO/IEC 18004. */
module Zigzag {
  import opened Grid

  type Pos = (int, int)

  ghost predicate NoDup<T>(s: seq<T>) {
    forall i, j :: 0 <= i < j < |s| ==> s[i] != s[j]
  }

  /** The right-hand column of pair `p`, counted from the right edge; the pairing skips column 6. */
  function Right(size: nat, p: nat): int {
    if size - 1 - 2 * p > 6 then size - 1 - 2 * p else size - 2 - 2 * p
  }

  predicate Upward(right: int) {
    (right + 1) / 2 % 2 == 0
  }

  function RowOf(size: nat, right: int, vert: nat): int {
    if Upward(right) then size - 1 - vert else vert
  }

  /** The first `rows` rows of a pair of columns, in the direction the pair is walked. */
  function PairOrder(size: nat, right: int, rows: nat): (order: seq<Pos>)
    ensures |order| == 2 * rows
  {
    if rows == 0 then
      []
    else
      var y := RowOf(size, right, rows - 1);
      PairOrder(size, right, rows - 1) + [(right, y), (right - 1, y)]
  }

  /** The first `pairs` pairs of columns. */
  function Order(size: nat, pairs: nat): seq<Pos> {
    if pairs == 0 then [] else Order(size, pairs - 1) + PairOrder(size, Right(size, pairs - 1), size)
  }

  /** Every position the zigzag visits, in order. */
  function FullOrder(size: nat): seq<Pos>
    requires size % 2 == 1
  {
    Order(size, (size - 1) / 2)
  }

  // ---- every module outside column 6 is visited exactly once ----

  predicate InPair(size: nat, right: int, rows: nat, p: Pos) {
    && (p.0 == right || p.0 == right - 1)
    && if Upward(right) then size - rows <= p.1 < size else 0 <= p.1 < rows
  }

  lemma {:induction false} PairMembers(size: nat, right: int, rows: nat)
    requires rows <= size
    ensures forall p :: p in PairOrder(size, right, rows) <==> InPair(size, right, rows, p)
    ensures NoDup(PairOrder(size, right, rows))
  {
    if rows > 0 {
      PairMembers(size, right, rows - 1);
      var before, y := PairOrder(size, right, rows - 1), RowOf(size, right, rows - 1);
      AppendMembers(before, [(right, y), (right - 1, y)]);
    }
  }

  lemma AppendMembers(a: seq<Pos>, b: seq<Pos>)
    requires NoDup(a) && NoDup(b) && forall p :: p in b ==> p !in a
    ensures NoDup(a + b)
    ensures forall p :: p in a + b <==> p in a || p in b
  {
    forall i, j | 0 <= i < j < |a + b| ensures (a + b)[i] != (a + b)[j] {
      if i < |a| <= j {
        assert b[j - |a|] in b;
      }
    }
  }

  predicate InPairs(size: nat, pairs: nat, p: Pos) {
    p.0 != 6 && 0 <= p.1 < size && Right(size, pairs) < p.0 < size
  }

  lemma {:induction false} OrderMembers(size: nat, pairs: nat)
    requires size % 2 == 1 && size >= 21 && pairs <= (size - 1) / 2
    ensures forall p :: p in Order(size, pairs) <==> InPairs(size, pairs, p)
    ensures NoDup(Order(size, pairs))
  {
    if pairs > 0 {
      OrderMembers(size, pairs - 1);
      PairMembers(size, Right(size, pairs - 1), size);
      AppendMembers(Order(size, pairs - 1), PairOrder(size, Right(size, pairs - 1), size));
    }
  }

  /** The zigzag visits every module outside column 6, and none twice. */
  lemma FullOrderMembers(size: nat)
    requires size % 2 == 1 && size >= 21
    ensures forall x, y :: (x, y) in FullOrder(size) <==> 0 <= x < size && 0 <= y < size && x != 6
    ensures NoDup(FullOrder(size))
  {
    OrderMembers(size, (size - 1) / 2);
    forall x, y ensures (x, y) in FullOrder(size) <==> 0 <= x < size && 0 <= y < size && x != 6 {
      assert (x, y) in FullOrder(size) <==> InPairs(size, (size - 1) / 2, (x, y));
    }
  }

  // ---- the path itself ----

  lemma {:induction false} PairEntry(size: nat, right: int, rows: nat, r: nat)
    requires r < 2 * rows
    ensures PairOrder(size, right, rows)[r] == (right - r % 2, RowOf(size, right, r / 2))
  {
    if r < 2 * (rows - 1) {
      PairEntry(size, right, rows - 1, r);
    } else {
      assert r / 2 == rows - 1;
    }
  }

  /** How many positions come before a pair. */
  function StartOf(size: nat, pair: nat): nat {
    if pair == 0 then 0 else StartOf(size, pair - 1) + 2 * size
  }

  lemma {:induction false} OrderLength(size: nat, pairs: nat)
    ensures |Order(size, pairs)| == StartOf(size, pairs)
  {
    hide PairOrder, Right;
    if pairs > 0 {
      OrderLength(size, pairs - 1);
    }
  }

  lemma {:induction false} OrderEntry(size: nat, pairs: nat, pair: nat, r: nat)
    requires pair < pairs && r < 2 * size
    ensures StartOf(size, pair) + r < |Order(size, pairs)|
    ensures Order(size, pairs)[StartOf(size, pair) + r] == PairOrder(size, Right(size, pair), size)[r]
  {
    hide PairOrder, Right;
    OrderLength(size, pairs - 1);
    if pair < pairs - 1 {
      OrderEntry(size, pairs - 1, pair, r);
    }
  }

  /** The sizes of symbols. */
  predicate SymbolSize(size: nat) {
    size % 4 == 1 && size % 2 == 1 && size >= 21
  }

  /** Where the zigzag is in every symbol: the pairs of columns go upwards and downwards in turn, from right to left and
      without column 6, and each row of a pair from right to left. */
  function PathPos(size: nat, pair: nat, r: nat): Pos {
    ((if size - 1 - 2 * pair > 6 then size - 1 - 2 * pair else size - 2 - 2 * pair) - r % 2,
     if pair % 2 == 0 then size - 1 - r / 2 else r / 2)
  }

  lemma PathAt(size: nat, pair: nat, r: nat)
    requires SymbolSize(size) && pair < (size - 1) / 2 && r < 2 * size
    ensures StartOf(size, pair) + r < |FullOrder(size)|
    ensures FullOrder(size)[StartOf(size, pair) + r] == PathPos(size, pair, r)
  {
    hide Order, PairOrder, StartOf;
    OrderEntry(size, (size - 1) / 2, pair, r);
    PairEntry(size, Right(size, pair), size, r);
    Turns(size, pair);
  }

  lemma Turns(size: nat, p: nat)
    requires size % 4 == 1 && p < (size - 1) / 2
    ensures Upward(Right(size, p)) <==> p % 2 == 0
  {
    var q := size / 4;
    assert size == 4 * q + 1;
    assert (Right(size, p) + 1) / 2 == 2 * q - p;
  }

  lemma {:induction false} PairOf(size: nat, pairs: nat, k: nat) returns (pair: nat, r: nat)
    requires k < StartOf(size, pairs)
    ensures pair < pairs && r < 2 * size && k == StartOf(size, pair) + r
  {
    if k < StartOf(size, pairs - 1) {
      pair, r := PairOf(size, pairs - 1, k);
    } else {
      pair, r := pairs - 1, k - StartOf(size, pairs - 1);
    }
  }

  /** At most one row away, and at most one column to the right. */
  predicate ShortStep(a: Pos, b: Pos) {
    -1 <= b.1 - a.1 <= 1 && b.0 <= a.0 + 1
  }

  /** The path goes from row to row, and from pair to pair at the edge. */
  lemma StepInside(size: nat, pair: nat, r: nat)
    requires size >= 21 && size % 2 == 1
    ensures ShortStep(PathPos(size, pair, r), PathPos(size, pair, r + 1))
    ensures ShortStep(PathPos(size, pair, 2 * size - 1), PathPos(size, pair + 1, 0))
  {
    assert (2 * size - 1) / 2 == size - 1 && (2 * size - 1) % 2 == 1;
  }

  lemma {:induction false} EarlierPair(size: nat, a: nat, b: nat)
    requires StartOf(size, a) < StartOf(size, b)
    ensures a < b
  {
    if b > 0 && StartOf(size, a) < StartOf(size, b - 1) {
      EarlierPair(size, a, b - 1);
    } else if a >= b {
      StartMonotone(size, b, a);
    }
  }

  lemma {:induction false} StartMonotone(size: nat, a: nat, b: nat)
    requires a <= b
    ensures StartOf(size, a) <= StartOf(size, b)
  {
    if a < b {
      StartMonotone(size, a, b - 1);
    }
  }

  lemma FullLength(size: nat)
    requires size % 2 == 1
    ensures |FullOrder(size)| == StartOf(size, (size - 1) / 2)
  {
    OrderLength(size, (size - 1) / 2);
  }

  lemma StartNext(size: nat, pair: nat)
    ensures StartOf(size, pair + 1) == StartOf(size, pair) + 2 * size
  {
  }

  lemma NextAt(size: nat, pair: nat, r: nat)
    requires SymbolSize(size) && pair < (size - 1) / 2 && r < 2 * size
    requires StartOf(size, pair) + r + 1 < |FullOrder(size)|
    ensures ShortStep(PathPos(size, pair, r), FullOrder(size)[StartOf(size, pair) + r + 1])
  {
    hide FullOrder, StartOf, PathPos, ShortStep;
    FullLength(size);
    StartNext(size, pair);
    StepInside(size, pair, r);
    if r + 1 < 2 * size {
      PathAt(size, pair, r + 1);
    } else {
      EarlierPair(size, pair + 1, (size - 1) / 2);
      PathAt(size, pair + 1, 0);
    }
  }

  /** No step leaves the row by more than one or goes right by more than one column: each pair is entered at the edge
      where the one before it ended. */
  lemma ShortSteps(size: nat, k: nat)
    requires SymbolSize(size) && k + 1 < |FullOrder(size)|
    ensures ShortStep(FullOrder(size)[k], FullOrder(size)[k + 1])
  {
    hide FullOrder, StartOf, PathPos, ShortStep;
    FullLength(size);
    var pair, r := PairOf(size, (size - 1) / 2, k);
    PathAt(size, pair, r);
    NextAt(size, pair, r);
  }

  /** The zigzag starts in the bottom right corner. */
  lemma PathStart(size: nat)
    requires SymbolSize(size)
    ensures |FullOrder(size)| > 0 && FullOrder(size)[0] == (size - 1, size - 1)
  {
    assert PathPos(size, 0, 0) == (size - 1, size - 1) && StartOf(size, 0) == 0;
    hide FullOrder, PathPos, StartOf;
    PathAt(size, 0, 0);
  }

  // ---- placing and reading bits along an order ----

  /** Fill the free positions of `order` with `bits`; returns the grid and how many bits were placed. */
  function Placed(g: Grid, fn: Grid, order: seq<Pos>, bits: seq<bool>): (r: (Grid, nat))
    requires g.Valid() && fn.Valid() && forall p :: p in order ==> g.Inside(p.0, p.1)
    ensures r.0.Valid() && r.0.size == g.size && r.1 <= |bits|
  {
    if order == [] then
      (g, 0)
    else
      var r := Placed(g, fn, order[..|order| - 1], bits);
      var p := order[|order| - 1];
      if !fn.Get(p.0, p.1) && r.1 < |bits| then
        assert p in order && g.Inside(p.0, p.1);
        (r.0.Set(p.0, p.1, bits[r.1]), r.1 + 1)
      else
        r
  }

  /** The modules at the free positions of `order`. */
  function ReadFree(g: Grid, fn: Grid, order: seq<Pos>): seq<bool>
    requires g.Valid() && fn.Valid()
  {
    if order == [] then
      []
    else
      var (x, y) := order[|order| - 1];
      ReadFree(g, fn, order[..|order| - 1]) + if fn.Get(x, y) then [] else [g.Get(x, y)]
  }

  /** Changing a module that `order` does not visit does not change what is read. */
  lemma {:induction false} ReadFreeFrame(g: Grid, g': Grid, fn: Grid, order: seq<Pos>)
    requires g.Valid() && g'.Valid() && fn.Valid()
    requires forall x, y :: (x, y) in order && !fn.Get(x, y) ==> g'.Get(x, y) == g.Get(x, y)
    ensures ReadFree(g', fn, order) == ReadFree(g, fn, order)
  {
    if order != [] {
      var (x, y) := order[|order| - 1];
      assert (x, y) in order;
      ReadFreeFrame(g, g', fn, order[..|order| - 1]);
    }
  }

  /** Reading back along the same order returns the bits that were placed; every other module is as before. */
  lemma {:induction false} ReadPlaced(g: Grid, fn: Grid, order: seq<Pos>, bits: seq<bool>)
    requires g.Valid() && fn.Valid() && NoDup(order) && forall p :: p in order ==> g.Inside(p.0, p.1)
    ensures var (g', n) := Placed(g, fn, order, bits);
      && var read := ReadFree(g', fn, order);
         && n == (if |bits| < |read| then |bits| else |read|)
         && read[..n] == bits[..n]
         && (forall x, y :: (x, y) !in order || fn.Get(x, y) ==> g'.Get(x, y) == g.Get(x, y))
  {
    hide Grid.Get, Grid.Set;
    if order != [] {
      var before := order[..|order| - 1];
      var (x, y) := order[|order| - 1];
      ReadPlaced(g, fn, before, bits);
      var (g1, i) := Placed(g, fn, before, bits);
      assert (x, y) in order && (x, y) !in before;
      if !fn.Get(x, y) && i < |bits| {
        var g2 := g1.Set(x, y, bits[i]);
        ReadFreeFrame(g1, g2, fn, before);
      }
    }
  }
}
