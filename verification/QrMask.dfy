/** Data masking and the choice of a mask: section 7.8 of ISO/IEC 18004. */
module QrMask {
  import opened Wrappers
  import opened Grid
  import opened QrTables
  import opened QrFormat
  import opened QrCanvas

  /** Whether mask pattern `mask` flips the module. */
  predicate Invert(mask: nat, x: nat, y: nat) {
    match mask
    case 0 => (x + y) % 2 == 0
    case 1 => y % 2 == 0
    case 2 => x % 3 == 0
    case 3 => (x + y) % 3 == 0
    case 4 => (x / 3 + y / 2) % 2 == 0
    case 5 => (x * y) % 2 + (x * y) % 3 == 0
    case 6 => ((x * y) % 2 + (x * y) % 3) % 2 == 0
    case _ => ((x + y) % 2 + (x * y) % 3) % 2 == 0
  }

  /** Whether masking flips the module: a data module, inside the symbol, chosen by the pattern. */
  predicate Flips(fn: Grid, mask: nat, x: int, y: int)
    requires fn.Valid()
  {
    fn.Inside(x, y) && !fn.Get(x, y) && Invert(mask, x, y)
  }

  /** Flip the data modules that the mask pattern selects. */
  method ApplyMask(c: Canvas, mask: nat)
    requires c.Valid()
    modifies c
    ensures c.Valid() && c.functionMask == old(c.functionMask)
    ensures forall x, y :: c.modules.Get(x, y) == (old(c.modules).Get(x, y) != Flips(c.functionMask, mask, x, y))
  {
    hide Invert;
    for y: nat := 0 to c.size
      invariant c.Valid() && c.functionMask == old(c.functionMask)
      invariant forall x', y' ::
        c.modules.Get(x', y') == (old(c.modules).Get(x', y') != (Flips(c.functionMask, mask, x', y') && y' < y))
    {
      for x: nat := 0 to c.size
        invariant c.Valid() && c.functionMask == old(c.functionMask)
        invariant forall x', y' ::
          c.modules.Get(x', y')
          == (old(c.modules).Get(x', y') != (Flips(c.functionMask, mask, x', y') && (y' < y || (y' == y && x' < x))))
      {
        if c.functionMask.Get(x, y) {
          continue;
        }
        if Invert(mask, x, y) {
          var was := c.modules.Get(x, y);
          c.Set(x, y, !was);
        }
      }
    }
  }

  /** The symbol that mask number `mask` yields: masked data and that mask's format information. */
  ghost function Candidate(base: Grid, fn: Grid, e: Ecc, mask: nat): (g: Grid)
    requires base.Valid() && fn.Valid() && mask < 8
    ensures g.Valid() && g.size == base.size
    ensures forall x, y :: base.Inside(x, y) ==> g.Get(x, y) == CandidateModule(base, fn, e, mask, x, y)
  {
    Grid.Tabulate(base.size, (x, y) => CandidateModule(base, fn, e, mask, x, y))
  }

  ghost predicate CandidateModule(base: Grid, fn: Grid, e: Ecc, mask: nat, x: int, y: int)
    requires base.Valid() && fn.Valid() && mask < 8
  {
    if InFormat(base.size, x, y) then
      FormatColour(base.size, FormatWord(FormatData(e, mask)), x, y)
    else
      base.Get(x, y) != Flips(fn, mask, x, y)
  }

  /** The format area is reserved. */
  ghost predicate FormatReserved(fn: Grid) {
    fn.Valid() && forall x, y :: fn.Inside(x, y) && InFormat(fn.size, x, y) ==> fn.Get(x, y)
  }

  /** The same symbol except in the format area. */
  ghost predicate SameButFormat(g: Grid, base: Grid) {
    && g.Valid() && base.Valid() && g.size == base.size
    && forall x, y :: !(g.Inside(x, y) && InFormat(g.size, x, y)) ==> g.Get(x, y) == base.Get(x, y)
  }

  /** Mask the data and write the matching format information. */
  method MaskAndFormat(c: Canvas, e: Ecc, mask: nat, ghost base: Grid)
    requires c.Valid() && c.size >= 21 && mask < 8 && FormatReserved(c.functionMask) && SameButFormat(c.modules, base)
    modifies c
    ensures c.Valid() && c.functionMask == old(c.functionMask)
    ensures c.modules == Candidate(base, c.functionMask, e, mask)
  {
    hide Invert, Bit, FormatColour;
    ApplyMask(c, mask);
    ghost var fn := c.functionMask;
    c.DrawFormatBits(e, mask);
    assert forall x, y :: c.functionMask.Get(x, y) == fn.Get(x, y);
    Extensional(c.functionMask, fn);
    Extensional(c.modules, Candidate(base, fn, e, mask));
  }

  /** The mask of least penalty, the lowest-numbered one if several tie. The data modules end as they began. */
  method BestMask(c: Canvas, e: Ecc, penalty: Grid -> u32) returns (best: nat)
    requires c.Valid() && c.size >= 21 && FormatReserved(c.functionMask)
    modifies c
    ensures c.Valid() && c.functionMask == old(c.functionMask)
    ensures SameButFormat(c.modules, old(c.modules))
    ensures best < 8
    ensures forall m :: 0 <= m < 8 ==>
      penalty(Candidate(old(c.modules), c.functionMask, e, best))
        <= penalty(Candidate(old(c.modules), c.functionMask, e, m))
    ensures forall m :: 0 <= m < best ==>
      penalty(Candidate(old(c.modules), c.functionMask, e, best))
        < penalty(Candidate(old(c.modules), c.functionMask, e, m))
  {
    hide Invert, FormatColour, InFormat;
    best := 0;
    var bestPenalty: u32 := 0xFFFF_FFFF;
    ghost var base, fn := c.modules, c.functionMask;
    for mask: nat := 0 to 8
      invariant c.Valid() && c.functionMask == fn && best < 8
      invariant SameButFormat(c.modules, base)
      invariant best == 0 || best < mask
      invariant mask == 0 ==> bestPenalty == 0xFFFF_FFFF
      invariant mask > 0 ==> penalty(Candidate(base, fn, e, best)) == bestPenalty
      invariant forall m :: 0 <= m < mask ==> bestPenalty <= penalty(Candidate(base, fn, e, m))
      invariant forall m :: 0 <= m < best ==> bestPenalty < penalty(Candidate(base, fn, e, m))
    {
      MaskAndFormat(c, e, mask, base);
      var p := penalty(c.modules);
      if p < bestPenalty {
        bestPenalty := p;
        best := mask;
      }
      ApplyMask(c, mask);
      Unmasked(c.modules, base, fn, e, mask);
    }
  }

  /** Masking twice restores every module outside the format area. */
  lemma Unmasked(g: Grid, base: Grid, fn: Grid, e: Ecc, mask: nat)
    requires mask < 8 && base.Valid() && fn.Valid() && base.size == fn.size && FormatReserved(fn)
    requires g.Valid() && g.size == base.size
    requires forall x, y :: g.Get(x, y) == (Candidate(base, fn, e, mask).Get(x, y) != Flips(fn, mask, x, y))
    ensures SameButFormat(g, base)
  {
    hide Invert, FormatColour;
  }
}
