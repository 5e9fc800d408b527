/** What the parity is for: two different blocks differ in more places than there are parity codewords. */
module RsDistance {
  import opened Bits
  import opened Gf256
  import opened ReedSolomon

  /** No block is longer than the order of the element 2. */
  const MAX_BLOCK := 255

  // ---- the powers of 2 are different ----

  lemma DoubleInjective(a: bv8, b: bv8)
    ensures Double(a) == Double(b) ==> a == b
    ensures Double(0) == 0
  {
  }

  lemma {:induction false} DoublesInjective(a: bv8, b: bv8, n: nat)
    ensures Doubles(a, n) == Doubles(b, n) ==> a == b
    ensures Doubles(0, n) == 0
  {
    hide Double;
    if n > 0 {
      DoublesInjective(a, b, n - 1);
      DoubleInjective(Doubles(a, n - 1), Doubles(b, n - 1));
    }
  }

  lemma {:induction false} DoublesTwice(c: bv8, m: nat, n: nat)
    ensures Doubles(Doubles(c, m), n) == Doubles(c, m + n)
  {
    hide Double;
    if n > 0 {
      DoublesTwice(c, m, n - 1);
    }
  }

  /** Multiplying by a power of 2 is doubling as often. */
  lemma {:induction false} MulAlpha(c: bv8, n: nat)
    ensures Mul(c, Alpha(n)) == Doubles(c, n)
  {
    hide Double, Mul;
    if n == 0 {
      MulOne(c);
    } else {
      MulAlpha(c, n - 1);
      AlphaNext(n - 1);
      MulDouble(c, Alpha(n - 1));
    }
  }

  lemma AlphaNext(n: nat)
    ensures Alpha(n + 1) == Double(Alpha(n))
  {
    hide Mul;
    assert Double(1) == 2;
    hide Double;
    MulDouble(Alpha(n), 1);
    MulOne(Alpha(n));
  }

  lemma AlphaDoubles(n: nat)
    ensures Alpha(n) == Doubles(1, n)
  {
    hide Mul, Double;
    MulAlpha(1, n);
    MulOne(Alpha(n));
  }

  /** `c` comes back after `n` doublings. */
  predicate Returns(c: bv8, n: nat) {
    Doubles(c, n) == c
  }

  /** Two numbers of doublings after which `c` comes back have a common divisor that is a third. */
  lemma {:induction false} CommonPeriod(c: bv8, m: nat, n: nat) returns (g: nat, a: nat, b: nat)
    requires Returns(c, m) && Returns(c, n)
    ensures Returns(c, g) && m == g * a && n == g * b
    decreases m + n
  {
    hide Returns;
    if n == 0 {
      g, a, b := m, 1, 0;
    } else if m == 0 {
      g, a, b := n, 0, 1;
    } else if m >= n {
      Shorter(c, m, n);
      g, a, b := CommonPeriod(c, m - n, n);
      assert g * (a + b) == g * a + g * b;
      a := a + b;
    } else {
      Shorter(c, n, m);
      g, a, b := CommonPeriod(c, m, n - m);
      assert g * (a + b) == g * a + g * b;
      b := a + b;
    }
  }

  lemma Shorter(c: bv8, m: nat, n: nat)
    requires Returns(c, m) && Returns(c, n) && n <= m
    ensures Returns(c, m - n)
  {
    DoublesTwice(c, m - n, n);
    DoublesInjective(Doubles(c, m - n), c, n);
  }

  lemma {:induction false} Multiple(c: bv8, g: nat, k: nat)
    requires Returns(c, g)
    ensures Returns(c, g * k)
  {
    if k > 0 {
      Multiple(c, g, k - 1);
      DoublesTwice(c, g * (k - 1), g);
      assert g * (k - 1) + g == g * k;
    } else {
      assert g * k == 0;
    }
  }

  /** A proper divisor of 255 divides 85, 51 or 15. */
  lemma ProperDivisor(g: nat, b: nat)
    requires g * b == 255 && b >= 2
    ensures b % 3 == 0 || b % 5 == 0 || b % 17 == 0
  {
    if b > 15 {
      assert g < 16 by {
        if g >= 16 {
          MulMonotone(16, g, b);
        }
      }
      assert g in {1, 3, 5, 15};
    }
  }

  function Double3(c: bv8): bv8 {
    Double(Double(Double(c)))
  }

  function Double17(c: bv8): bv8 {
    Double(Double(Double3(Double3(Double3(Double3(Double3(c)))))))
  }

  lemma ThreeMore(c: bv8, n: nat)
    ensures Doubles(c, n + 3) == Double3(Doubles(c, n))
  {
    hide Double;
    assert Doubles(c, n + 1) == Double(Doubles(c, n));
    assert Doubles(c, n + 2) == Double(Doubles(c, n + 1));
  }

  lemma SeventeenMore(c: bv8, n: nat)
    ensures Doubles(c, n + 17) == Double17(Doubles(c, n))
  {
    hide Double, Double3;
    ThreeMore(c, n);
    ThreeMore(c, n + 3);
    ThreeMore(c, n + 6);
    ThreeMore(c, n + 9);
    ThreeMore(c, n + 12);
    assert Doubles(c, n + 16) == Double(Doubles(c, n + 15));
  }

  lemma Powers()
    ensures Alpha(15) == 0x26 && Alpha(51) == 0x0A && Alpha(85) == 0xD6 && Alpha(255) == 1
  {
    AlphaDoubles(15);
    AlphaDoubles(51);
    AlphaDoubles(85);
    AlphaDoubles(255);
    FirstPowers();
    LastPowers();
  }

  lemma FirstPowers()
    ensures Doubles(1, 15) == 0x26 && Doubles(1, 51) == 0x0A && Doubles(1, 85) == 0xD6
  {
    ThreeMore(1, 0);
    ThreeMore(1, 3);
    ThreeMore(1, 6);
    ThreeMore(1, 9);
    ThreeMore(1, 12);
    SeventeenMore(1, 0);
    SeventeenMore(1, 17);
    SeventeenMore(1, 34);
    SeventeenMore(1, 51);
    SeventeenMore(1, 68);
    hide Doubles;
  }

  lemma LastPowers()
    ensures Doubles(1, 255) == 1
  {
    FirstPowers();
    SeventeenMore(1, 85);
    SeventeenMore(1, 102);
    SeventeenMore(1, 119);
    SeventeenMore(1, 136);
    SeventeenMore(1, 153);
    SeventeenMore(1, 170);
    SeventeenMore(1, 187);
    SeventeenMore(1, 204);
    SeventeenMore(1, 221);
    SeventeenMore(1, 238);
    hide Doubles;
  }

  lemma BitsOf26()
    ensures var b := Gf256.Bits(0x26); !b[0] && !b[1] && b[2] && !b[3] && !b[4] && b[5] && b[6] && !b[7]
  {
  }

  lemma BitsOf0A()
    ensures var b := Gf256.Bits(0x0A); !b[0] && !b[1] && !b[2] && !b[3] && b[4] && !b[5] && b[6] && !b[7]
  {
  }

  lemma BitsOfD6()
    ensures var b := Gf256.Bits(0xD6); b[0] && b[1] && !b[2] && b[3] && !b[4] && b[5] && b[6] && !b[7]
  {
  }

  /** Multiplication, bit by bit. */
  function Step(h: bv8, bit: bool, x: bv8): bv8 {
    Plus(Double(h), If8(bit, x))
  }

  lemma MulUnrolled(x: bv8, y: bv8)
    ensures var b := Gf256.Bits(y);
      var high := Step(Step(Step(Step(0, b[0], x), b[1], x), b[2], x), b[3], x);
      Mul(x, y) == Step(Step(Step(Step(high, b[4], x), b[5], x), b[6], x), b[7], x)
  {
    hide Plus, Double, If8, Gf256.Bits;
    HornerUnrolled(x, Gf256.Bits(y));
  }

  lemma NoFixedPoints(c: bv8)
    ensures Mul(c, 0x26) == c || Mul(c, 0x0A) == c || Mul(c, 0xD6) == c ==> c == 0
  {
    hide Mul, Gf256.Bits;
    MulUnrolled(c, 0x26);
    BitsOf26();
    MulUnrolled(c, 0x0A);
    BitsOf0A();
    MulUnrolled(c, 0xD6);
    BitsOfD6();
  }

  lemma ReturnsMul(c: bv8, n: nat)
    ensures Returns(c, n) <==> Mul(c, Alpha(n)) == c
  {
    hide Mul, Alpha;
    MulAlpha(c, n);
  }

  /** No non-zero byte comes back after fewer than 255 doublings. */
  lemma OrbitLength(c: bv8, m: nat)
    requires c != 0 && 0 < m < MAX_BLOCK
    ensures Doubles(c, m) != c
  {
    hide Mul, Doubles, Alpha;
    if Returns(c, m) {
      hide Returns;
      Powers();
      ReturnsMul(c, 255);
      MulOne(c);
      var g, a, b := CommonPeriod(c, m, 255);
      BackEarly(c, g, a, b);
    }
  }

  /** Only zero comes back after a proper divisor of 255 doublings. */
  lemma BackEarly(c: bv8, g: nat, a: nat, b: nat)
    requires Returns(c, g) && 0 < g * a < 255 == g * b
    ensures c == 0
  {
    hide Mul, Doubles, Alpha, Returns;
    if b <= a {
      MulMonotone(b, a, g);
    }
    ProperDivisor(g, b);
    Multiple(c, g, b / 3);
    Multiple(c, g, b / 5);
    Multiple(c, g, b / 17);
    Third(g, b);
    Powers();
    NoFixedPoints(c);
    ReturnsMul(c, 15);
    ReturnsMul(c, 51);
    ReturnsMul(c, 85);
  }

  lemma Third(g: nat, b: nat)
    requires g * b == 255
    ensures b % 3 == 0 ==> g * (b / 3) == 85
    ensures b % 5 == 0 ==> g * (b / 5) == 51
    ensures b % 17 == 0 ==> g * (b / 17) == 15
  {
    if b % 3 == 0 {
      assert g * b == 3 * (g * (b / 3)) by { Regroup(g, 3, b / 3); }
    }
    if b % 5 == 0 {
      assert g * b == 5 * (g * (b / 5)) by { Regroup(g, 5, b / 5); }
    }
    if b % 17 == 0 {
      assert g * b == 17 * (g * (b / 17)) by { Regroup(g, 17, b / 17); }
    }
  }

  lemma Regroup(g: nat, p: nat, k: nat)
    ensures g * (p * k) == p * (g * k)
  {
  }

  /** The first 255 powers of 2 are all different. */
  lemma PowersDistinct(i: nat, j: nat)
    requires i < j < MAX_BLOCK
    ensures Alpha(i) != Alpha(j)
  {
    hide Mul, Alpha, Double;
    AlphaDoubles(i);
    AlphaDoubles(j);
    DifferentDoubles(1, i, j);
  }

  lemma DifferentDoubles(c: bv8, i: nat, j: nat)
    requires c != 0 && i < MAX_BLOCK && j < MAX_BLOCK && i != j
    ensures Doubles(c, i) != Doubles(c, j)
  {
    hide Doubles;
    var m, n := if i < j then i else j, if i < j then j else i;
    OrbitLength(c, n - m);
    DoublesTwice(c, n - m, m);
    DoublesInjective(Doubles(c, n - m), c, m);
  }

  // ---- a polynomial with many roots has many coefficients ----

  /** Where a polynomial's coefficients are not zero. */
  ghost function Support(p: Poly): set<nat> {
    set i: nat | i < |p| && p[i] != 0
  }

  /** Where two words differ. */
  ghost function Errors(a: Poly, b: Poly): set<nat>
    requires |a| == |b|
  {
    set i: nat | i < |a| && a[i] != b[i]
  }

  /** It vanishes at the `n` powers of 2 from number `first` on. */
  ghost predicate Vanishes(p: Poly, first: nat, n: nat) {
    forall i: nat :: first <= i < first + n ==> Eval(p, Alpha(i)) == 0
  }

  /** Every coefficient times the power of 2 of its degree. */
  function Scaled(p: Poly): (q: Poly)
    ensures |q| == |p| && forall i :: 0 <= i < |p| ==> q[i] == Doubles(p[i], |p| - 1 - i)
  {
    seq(|p|, i requires 0 <= i < |p| => Doubles(p[i], |p| - 1 - i))
  }

  /** Scaling the coefficients is scaling the argument. */
  lemma {:induction false} EvalScaled(p: Poly, x: bv8)
    ensures Eval(Scaled(p), x) == Eval(p, Mul(x, 2))
  {
    hide Mul, Plus, Doubles;
    if p != [] {
      var before := p[..|p| - 1];
      EvalScaled(before, x);
      ScaledFront(p);
      EvalScale(2, Scaled(before), x);
      var v := Eval(before, Mul(x, 2));
      MulAssociative(v, 2, x);
      MulCommutative(2, x);
      NoDoubles(p[|p| - 1]);
    }
  }

  lemma NoDoubles(c: bv8)
    ensures Doubles(c, 0) == c
  {
  }

  lemma ScaledFront(p: Poly)
    requires p != []
    ensures Scaled(p)[..|p| - 1] == Scale(2, Scaled(p[..|p| - 1]))
  {
    hide Mul;
    var before := p[..|p| - 1];
    forall i | 0 <= i < |before| ensures Scaled(p)[i] == Scale(2, Scaled(before))[i] {
      MulTwo(Doubles(p[i], |before| - 1 - i));
    }
  }

  lemma MulTwo(c: bv8)
    ensures Mul(c, 2) == Double(c)
  {
    hide Mul;
    assert Double(1) == 2;
    hide Double;
    MulDouble(c, 1);
    MulOne(c);
  }

  /** The polynomial 2^e * p(x) + p(2x): its coefficient of degree `e` is zero, and it has one root fewer in a row. */
  function Twist(p: Poly, e: nat): (q: Poly)
    ensures |q| == |p|
  {
    Add(Scale(Alpha(e), p), Scaled(p))
  }

  lemma TwistVanishes(p: Poly, e: nat, first: nat, n: nat)
    requires Vanishes(p, first, n + 1)
    ensures Vanishes(Twist(p, e), first, n)
  {
    hide Mul, Plus, Eval, Scaled, Scale, Add;
    forall i: nat | first <= i < first + n ensures Eval(Twist(p, e), Alpha(i)) == 0 {
      var x := Alpha(i);
      EvalAdd(Scale(Alpha(e), p), Scaled(p), x);
      EvalScale(Alpha(e), p, x);
      EvalScaled(p, x);
      assert Mul(x, 2) == Alpha(i + 1);
      assert Eval(p, Alpha(i)) == 0 && Eval(p, Alpha(i + 1)) == 0;
      MulOne(Alpha(e));
      PlusLaws(0, 0, 0);
    }
  }

  lemma TwistSupport(p: Poly, k: nat)
    requires |p| <= MAX_BLOCK && k < |p|
    ensures Support(Twist(p, |p| - 1 - k)) == Support(p) - {k}
  {
    var e := |p| - 1 - k;
    forall i: nat | i < |p| ensures Twist(p, e)[i] != 0 <==> p[i] != 0 && i != k {
      TwistCoefficient(p, e, i);
    }
  }

  lemma TwistCoefficient(p: Poly, e: nat, i: nat)
    requires |p| <= MAX_BLOCK && i < |p| && e < |p|
    ensures Twist(p, e)[i] != 0 <==> p[i] != 0 && |p| - 1 - i != e
  {
    hide Mul, Doubles, Alpha, Plus;
    var degree := |p| - 1 - i;
    MulAlpha(p[i], e);
    assert Twist(p, e)[i] == Plus(Doubles(p[i], e), Doubles(p[i], degree));
    PlusZero(Doubles(p[i], e), Doubles(p[i], degree));
    DoublesInjective(0, 0, e);
    DoublesInjective(0, 0, degree);
    if p[i] != 0 && degree != e {
      DifferentDoubles(p[i], e, degree);
    }
  }

  lemma PlusZero(a: bv8, b: bv8)
    ensures Plus(a, b) == 0 <==> a == b
  {
  }

  /** A single term vanishes at no power of 2. */
  lemma {:induction false} OneTerm(p: Poly, k: nat, i: nat)
    requires Support(p) == {k}
    ensures Eval(p, Alpha(i)) != 0
  {
    hide Mul, Plus, Alpha;
    assert k in Support(p);
    var n := |p| - 1;
    var before := p[..n];
    if k == n {
      forall j | 0 <= j < n ensures before[j] == 0 {
        assert j !in Support(p);
      }
      assert before == ZeroPoly(n) + [];
      EvalZeros(n, [], Alpha(i));
      EvalEmpty(Alpha(i));
      MulOne(Alpha(i));
      PlusLaws(p[n], 0, 0);
      PlusLaws(0, p[n], 0);
    } else {
      assert n !in Support(p);
      forall j: nat ensures j in Support(before) <==> j in Support(p) {
      }
      OneTerm(before, k, i);
      var v := Eval(before, Alpha(i));
      MulAlpha(v, i);
      DoublesInjective(v, 0, i);
      PlusLaws(Mul(v, Alpha(i)), 0, 0);
    }
  }

  /** A non-zero polynomial of at most 255 coefficients that vanishes at `n` powers of 2 in a row has more than `n`
      coefficients that are not zero. */
  lemma {:induction false} SupportLarge(p: Poly, first: nat, n: nat)
    requires |p| <= MAX_BLOCK && Support(p) != {} && Vanishes(p, first, n)
    ensures |Support(p)| > n
    decreases n
  {
    hide Eval, Alpha, Twist;
    if n > 0 {
      var k :| k in Support(p);
      var e := |p| - 1 - k;
      TwistSupport(p, k);
      TwistVanishes(p, e, first, n - 1);
      if Support(p) == {k} {
        OneTerm(p, k, first);
        assert false;
      }
      hide Support, Vanishes;
      assert Support(p) - {k} != {};
      SupportLarge(Twist(p, e), first, n - 1);
    }
  }

  // ---- blocks ----

  /** Two words of at most 255 codewords that both have the roots of the generator differ in more than `degree`
      places. */
  lemma WordsApart(a: Poly, b: Poly, degree: nat)
    requires |a| == |b| <= MAX_BLOCK && a != b && Vanishes(a, 0, degree) && Vanishes(b, 0, degree)
    ensures |Errors(a, b)| > degree
  {
    hide Mul, Plus, Eval, Alpha;
    var d := Add(a, b);
    forall i: nat | i < degree ensures Eval(d, Alpha(i)) == 0 {
      EvalAdd(a, b, Alpha(i));
      PlusLaws(0, 0, 0);
    }
    forall i | 0 <= i < |a| ensures d[i] != 0 <==> a[i] != b[i] {
      PlusZero(a[i], b[i]);
    }
    assert Support(d) == Errors(a, b);
    var i: nat :| i < |a| && a[i] != b[i];
    assert i in Support(d);
    SupportLarge(d, 0, degree);
  }

  /** Data and its parity. */
  function Encoded(data: Poly, divisor: Poly): (block: Poly)
    requires |divisor| > 0
    ensures |block| == |data| + |divisor|
  {
    data + Remainder(data, divisor)
  }

  lemma EncodedVanishes(data: Poly, divisor: Poly)
    requires |divisor| > 0 && [1] + divisor == Generator(|divisor|)
    ensures Vanishes(Encoded(data, divisor), 0, |divisor|)
  {
    hide Eval, Alpha, Remainder, Generator;
    forall i: nat | i < |divisor| ensures Eval(Encoded(data, divisor), Alpha(i)) == 0 {
      BlockHasRoots(data, divisor, |divisor|, i);
    }
  }

  /** Blocks of different data differ in more places than there are parity codewords. */
  lemma BlocksApart(data: Poly, data': Poly, divisor: Poly)
    requires |data| == |data'| && |data| + |divisor| <= MAX_BLOCK && data != data'
    requires |divisor| > 0 && [1] + divisor == Generator(|divisor|)
    ensures |Errors(Encoded(data, divisor), Encoded(data', divisor))| > |divisor|
  {
    hide Remainder, Generator, Errors, Vanishes;
    EncodedVanishes(data, divisor);
    EncodedVanishes(data', divisor);
    assert Encoded(data, divisor)[..|data|] == data && Encoded(data', divisor)[..|data|] == data';
    WordsApart(Encoded(data, divisor), Encoded(data', divisor), |divisor|);
  }

  /** Up to half as many damaged codewords as there is parity leave only one block they can come from. */
  lemma OneNearest(data: Poly, data': Poly, divisor: Poly, received: Poly)
    requires |data| == |data'| && |received| == |data| + |divisor| <= MAX_BLOCK
    requires |divisor| > 0 && [1] + divisor == Generator(|divisor|)
    requires 2 * |Errors(Encoded(data, divisor), received)| <= |divisor|
    requires 2 * |Errors(Encoded(data', divisor), received)| <= |divisor|
    ensures data == data'
  {
    hide Remainder, Generator;
    if data != data' {
      BlocksApart(data, data', divisor);
      var a, b := Encoded(data, divisor), Encoded(data', divisor);
      Triangle(a, b, received);
    }
  }

  lemma Triangle(a: Poly, b: Poly, r: Poly)
    requires |a| == |b| == |r|
    ensures |Errors(a, b)| <= |Errors(a, r)| + |Errors(b, r)|
  {
    assert Errors(a, b) <= Errors(a, r) + Errors(b, r);
    SubsetSmaller(Errors(a, b), Errors(a, r) + Errors(b, r));
  }

  lemma {:induction false} SubsetSmaller(s: set<nat>, t: set<nat>)
    requires s <= t
    ensures |s| <= |t|
  {
    assert t == s + (t - s);
  }
}
