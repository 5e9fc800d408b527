/** Laying the codewords out along the zigzag. */
module QrPlace {
  import opened Grid
  import opened QrCanvas
  import opened QrBits
  import opened Zigzag

  ghost predicate AllInside(size: nat, order: seq<Pos>) {
    forall p :: p in order ==> 0 <= p.0 < size && 0 <= p.1 < size
  }

  lemma OrderInside(size: nat, pairs: nat)
    requires size % 2 == 1 && size >= 21 && pairs <= (size - 1) / 2
    ensures AllInside(size, Order(size, pairs))
  {
    OrderMembers(size, pairs);
    forall p | p in Order(size, pairs) ensures 0 <= p.0 < size && 0 <= p.1 < size {
      assert InPairs(size, pairs, p);
    }
  }

  /** `c` holds the result of placing bits along `order`, and `i` of them have been placed. */
  ghost predicate PlacedSoFar(g: Grid, i: nat, before: Grid, fn: Grid, order: seq<Pos>, bits: seq<bool>) {
    && before.Valid() && fn.Valid() && AllInside(before.size, order)
    && Placed(before, fn, order, bits) == (g, i)
  }

  lemma PlaceOne(g: Grid, i: nat, before: Grid, fn: Grid, order: seq<Pos>, bits: seq<bool>, x: int, y: int)
    requires PlacedSoFar(g, i, before, fn, order, bits)
    requires 0 <= x < before.size && 0 <= y < before.size
    ensures g.Valid() && g.size == before.size
    ensures var free := !fn.Get(x, y) && i < |bits|;
      PlacedSoFar(if free then g.Set(x, y, bits[i]) else g, if free then i + 1 else i, before, fn, order + [(x, y)],
                  bits)
  {
    assert (order + [(x, y)])[..|order|] == order;
  }

  /** The two positions of row number `vert` of a pair, before column number `j`. */
  function RowPart(size: nat, right: int, vert: nat, j: nat): seq<Pos>
    requires j <= 2
  {
    [(right, RowOf(size, right, vert)), (right - 1, RowOf(size, right, vert))][..j]
  }

  lemma RowPartNext(size: nat, right: int, vert: nat, order: seq<Pos>, j: nat)
    requires j < 2
    ensures order + RowPart(size, right, vert, j + 1)
         == order + RowPart(size, right, vert, j) + [(right - j, RowOf(size, right, vert))]
  {
  }

  /** Fill one pair of columns. */
  method DrawPair(c: Canvas, codewords: seq<bv8>, right: nat, i: nat, ghost before: Grid, ghost order: seq<Pos>)
    returns (i': nat)
    requires c.Valid() && c.size == before.size && 1 <= right < c.size
    requires PlacedSoFar(c.modules, i, before, c.functionMask, order, CodewordBits(codewords))
    modifies c
    ensures c.Valid() && c.functionMask == old(c.functionMask)
    ensures PlacedSoFar(c.modules, i', before, c.functionMask, order + PairOrder(c.size, right, c.size),
                        CodewordBits(codewords))
  {
    hide PlacedSoFar, RowPart, PairOrder, BitAt;
    i' := i;
    ghost var bits := CodewordBits(codewords);
    assert PairOrder(c.size, right, 0) == [] by { EmptyPair(c.size, right); }
    assert order + [] == order;
    for vert: nat := 0 to c.size
      invariant c.Valid() && c.functionMask == old(c.functionMask)
      invariant PlacedSoFar(c.modules, i', before, c.functionMask, order + PairOrder(c.size, right, vert), bits)
    {
      ghost var above := order + PairOrder(c.size, right, vert);
      RowEnds(c.size, right, vert, order);
      for j: nat := 0 to 2
        invariant c.Valid() && c.functionMask == old(c.functionMask)
        invariant PlacedSoFar(c.modules, i', before, c.functionMask, above + RowPart(c.size, right, vert, j), bits)
      {
        var x := right - j;
        var upward := (right + 1) / 2 % 2 == 0;
        var y := if upward then c.size - 1 - vert else vert;
        RowPartNext(c.size, right, vert, above, j);
        PlaceOne(c.modules, i', before, c.functionMask, above + RowPart(c.size, right, vert, j), bits, x, y);
        if !c.functionMask.Get(x, y) && i' < 8 * |codewords| {
          c.Set(x, y, BitAt(codewords, i'));
          i' := i' + 1;
        }
      }
    }
  }

  lemma EmptyPair(size: nat, right: int)
    ensures PairOrder(size, right, 0) == []
  {
  }

  lemma RowEnds(size: nat, right: int, vert: nat, order: seq<Pos>)
    ensures order + PairOrder(size, right, vert) + RowPart(size, right, vert, 0) == order + PairOrder(size, right, vert)
    ensures order + PairOrder(size, right, vert) + RowPart(size, right, vert, 2)
         == order + PairOrder(size, right, vert + 1)
  {
    assert RowPart(size, right, vert, 0) == [];
    assert PairOrder(size, right, vert + 1) == PairOrder(size, right, vert) + RowPart(size, right, vert, 2);
  }

  lemma PlacedNothing(before: Grid, fn: Grid, bits: seq<bool>)
    requires before.Valid() && fn.Valid()
    ensures PlacedSoFar(before, 0, before, fn, Order(before.size, 0), bits)
  {
  }

  lemma PlacedAll(g: Grid, i: nat, before: Grid, fn: Grid, order: seq<Pos>, bits: seq<bool>)
    requires PlacedSoFar(g, i, before, fn, order, bits)
    ensures before.Valid() && fn.Valid() && AllInside(before.size, order) && g == Placed(before, fn, order, bits).0
  {
  }

  /** Bit `k` of the codewords lands on the `k`-th free module of the zigzag. */
  method DrawCodewords(c: Canvas, codewords: seq<bv8>)
    requires c.Valid() && c.size >= 21 && c.size % 2 == 1
    modifies c
    ensures c.Valid() && c.functionMask == old(c.functionMask)
    ensures AllInside(c.size, FullOrder(c.size))
    ensures old(c.modules).Valid() && c.functionMask.Valid() && old(c.modules).size == c.size
    ensures c.modules == Placed(old(c.modules), c.functionMask, FullOrder(c.size), CodewordBits(codewords)).0
  {
    hide CodewordBits, PairOrder, PlacedSoFar, Placed, AllInside;
    ghost var before, fn, bits := c.modules, c.functionMask, CodewordBits(codewords);
    var i: nat := 0;
    var right: nat := c.size - 1;
    ghost var p: nat := 0;
    PlacedNothing(before, fn, bits);
    while true
      invariant c.Valid() && c.functionMask == fn && p < (c.size - 1) / 2
      invariant right == if c.size - 1 - 2 * p >= 6 then c.size - 1 - 2 * p else c.size - 2 - 2 * p
      invariant PlacedSoFar(c.modules, i, before, fn, Order(c.size, p), bits)
      decreases c.size - p
    {
      if right == 6 {
        right := 5;
      }
      i := DrawPair(c, codewords, right, i, before, Order(c.size, p));
      p := p + 1;
      if right < 2 {
        PlacedAll(c.modules, i, before, fn, FullOrder(c.size), bits);
        break;
      }
      right := right - 2;
    }
  }
}
