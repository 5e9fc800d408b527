/** A square matrix of modules, stored row by row. */
module Grid {
  import opened Bits

  /** `x` is the column and `y` the row; a position outside reads as light. */
  datatype Grid = Grid(size: nat, cells: seq<bool>) {

    predicate Valid() {
      |cells| == size * size
    }

    predicate Inside(x: int, y: int) {
      0 <= x < size && 0 <= y < size
    }

    function Get(x: int, y: int): bool
      requires Valid()
    {
      if Inside(x, y) then
        IndexBound(size, x, y);
        cells[Index(size, x, y)]
      else
        false
    }

    function Set(x: int, y: int, dark: bool): (g: Grid)
      requires Valid() && Inside(x, y)
      ensures g.Valid() && g.size == size
      ensures forall x', y' :: g.Get(x', y') == if x' == x && y' == y then dark else Get(x', y')
    {
      IndexBound(size, x, y);
      var g := Grid(size, cells[Index(size, x, y) := dark]);
      assert forall x', y' :: g.Get(x', y') == if x' == x && y' == y then dark else Get(x', y') by {
        forall x', y' ensures g.Get(x', y') == if x' == x && y' == y then dark else Get(x', y') {
          SetGet(this, x, y, dark, x', y');
        }
      }
      g
    }

    /** The grid of a given size with the given modules. */
    static function Tabulate(size: nat, dark: (int, int) -> bool): (g: Grid)
      ensures g.Valid() && g.size == size
      ensures forall x, y :: g.Get(x, y) == (g.Inside(x, y) && dark(x, y))
    {
      var g := Grid(size,
                    seq(size * size, k requires 0 <= k < size * size => RowBound(size, k); dark(k % size, k / size)));
      assert forall x, y {:trigger g.Get(x, y)} :: g.Get(x, y) == (g.Inside(x, y) && dark(x, y)) by {
        forall x, y | g.Inside(x, y) ensures g.Get(x, y) == dark(x, y) {
          IndexBound(size, x, y);
          IndexInverse(size, x, y);
        }
      }
      g
    }

    static function Blank(size: nat): (g: Grid)
      ensures g.Valid() && g.size == size
      ensures forall x, y :: !g.Get(x, y)
    {
      var g := Grid(size, seq(size * size, _ => false));
      assert forall x, y {:trigger g.Get(x, y)} :: !g.Get(x, y) by {
        forall x, y | g.Inside(x, y) ensures 0 <= Index(size, x, y) < size * size {
          IndexBound(size, x, y);
        }
      }
      g
    }
  }

  function Index(size: nat, x: int, y: int): int {
    y * size + x
  }

  lemma SetGet(g: Grid, x: int, y: int, dark: bool, x': int, y': int)
    requires g.Valid() && g.Inside(x, y)
    ensures 0 <= Index(g.size, x, y) < |g.cells|
    ensures Grid(g.size, g.cells[Index(g.size, x, y) := dark]).Get(x', y')
         == if x' == x && y' == y then dark else g.Get(x', y')
  {
    hide Index;
    IndexBound(g.size, x, y);
    if g.Inside(x', y') {
      IndexBound(g.size, x', y');
      if x' != x || y' != y {
        IndexInjective(g.size, x, y, x', y');
      }
    }
  }

  lemma IndexBound(size: nat, x: nat, y: nat)
    requires x < size && y < size
    ensures 0 <= Index(size, x, y) < size * size
  {
    MulMonotone(y + 1, size, size);
    assert (y + 1) * size == y * size + size;
  }

  lemma IndexInverse(size: nat, x: nat, y: nat)
    requires x < size
    ensures Index(size, x, y) % size == x && Index(size, x, y) / size == y
  {
    var k := Index(size, x, y);
    var q, r := k / size, k % size;
    assert k == q * size + r && k == y * size + x;
    if q < y {
      MulMonotone(q + 1, y, size);
    } else if y < q {
      MulMonotone(y + 1, q, size);
    }
  }

  lemma IndexInjective(size: nat, x: nat, y: nat, x': nat, y': nat)
    requires x < size && x' < size && (x != x' || y != y')
    ensures Index(size, x', y') != Index(size, x, y)
  {
    if y < y' {
      assert y' * size >= (y + 1) * size == y * size + size;
    } else if y' < y {
      assert y * size >= (y' + 1) * size == y' * size + size;
    }
  }

  /** Two grids that agree everywhere are equal. */
  lemma Extensional(a: Grid, b: Grid)
    requires a.Valid() && b.Valid() && a.size == b.size
    requires forall x, y :: a.Inside(x, y) ==> a.Get(x, y) == b.Get(x, y)
    ensures a == b
  {
    forall k | 0 <= k < |a.cells| ensures a.cells[k] == b.cells[k] {
      var n := a.size;
      var x, y := k % n, k / n;
      assert k == y * n + x;
      RowBound(n, k);
      assert a.Get(x, y) == b.Get(x, y);
    }
  }

  lemma RowBound(n: nat, k: nat)
    requires k < n * n
    ensures n > 0 && k / n < n
  {
  }
}
