/** Reed-Solomon parity over GF(256): section 7.5 of ISO/IEC 18004. Polynomials are written highest coefficient
    first. */
module ReedSolomon {
  import opened Gf256

  type Poly = seq<bv8>

  /** Evaluation by Horner's rule. */
  function Eval(p: Poly, x: bv8): bv8 {
    if p == [] then 0 else Plus(Mul(Eval(p[..|p| - 1], x), x), p[|p| - 1])
  }

  /** The power `k` of the primitive element 2. */
  function Alpha(k: nat): bv8 {
    if k == 0 then 1 else Mul(Alpha(k - 1), 2)
  }

  function ZeroPoly(n: nat): (z: Poly)
    ensures |z| == n && forall i :: 0 <= i < n ==> z[i] == 0
  {
    seq(n, _ => 0)
  }

  function Add(p: Poly, q: Poly): (r: Poly)
    requires |p| == |q|
    ensures |r| == |p|
  {
    seq(|p|, i requires 0 <= i < |p| => Plus(p[i], q[i]))
  }

  function Scale(f: bv8, p: Poly): (r: Poly)
    ensures |r| == |p|
  {
    seq(|p|, i requires 0 <= i < |p| => Mul(p[i], f))
  }

  /** The product p * (x - r); subtraction is addition. */
  function MulLinear(p: Poly, r: bv8): (q: Poly)
    ensures |q| == |p| + 1
  {
    Add(p + [0], [0] + Scale(r, p))
  }

  /** The product of (x - 2^i) for i below `k`, as a monic polynomial with k + 1 coefficients. */
  function Generator(k: nat): (g: Poly)
    ensures |g| == k + 1
  {
    if k == 0 then [1] else MulLinear(Generator(k - 1), Alpha(k - 1))
  }

  lemma {:induction false} GeneratorMonic(k: nat)
    ensures Generator(k)[0] == 1
  {
    if k > 0 {
      GeneratorMonic(k - 1);
      PlusLaws(1, 0, 0);
    }
  }

  // ---- evaluation respects the polynomial operations ----

  lemma {:induction false} EvalAdd(p: Poly, q: Poly, x: bv8)
    requires |p| == |q|
    ensures Eval(Add(p, q), x) == Plus(Eval(p, x), Eval(q, x))
  {
    hide Plus, Mul;
    if p == [] {
      PlusLaws(0, 0, 0);
    } else {
      var n := |p| - 1;
      EvalAdd(p[..n], q[..n], x);
      assert Add(p, q)[..n] == Add(p[..n], q[..n]);
      MulDistributes(Eval(p[..n], x), Eval(q[..n], x), x);
      PlusSwap(Mul(Eval(p[..n], x), x), Mul(Eval(q[..n], x), x), p[n], q[n]);
    }
  }

  lemma {:induction false} EvalScale(f: bv8, p: Poly, x: bv8)
    ensures Eval(Scale(f, p), x) == Mul(Eval(p, x), f)
  {
    hide Plus, Mul;
    if p == [] {
      MulOne(f);
    } else {
      var n := |p| - 1;
      var e := Eval(p[..n], x);
      EvalScale(f, p[..n], x);
      assert Scale(f, p)[..n] == Scale(f, p[..n]);
      MulDistributes(Mul(e, x), p[n], f);
      MulAssociative(e, f, x);
      MulAssociative(e, x, f);
      MulCommutative(x, f);
    }
  }

  /** Leading zeros do not matter. */
  lemma {:induction false} EvalZeros(n: nat, p: Poly, x: bv8)
    ensures Eval(ZeroPoly(n) + p, x) == Eval(p, x)
  {
    hide Plus, Mul;
    var z := ZeroPoly(n) + p;
    if p != [] {
      assert z[..|z| - 1] == ZeroPoly(n) + p[..|p| - 1];
      EvalZeros(n, p[..|p| - 1], x);
    } else if n > 0 {
      assert z[..|z| - 1] == ZeroPoly(n - 1) + [];
      EvalZeros(n - 1, [], x);
      MulOne(x);
      PlusLaws(0, 0, 0);
    } else {
      assert z == [];
    }
  }

  lemma EvalSnoc(p: Poly, c: bv8, x: bv8)
    ensures Eval(p + [c], x) == Plus(Mul(Eval(p, x), x), c)
  {
    assert (p + [c])[..|p|] == p;
  }

  lemma EvalMulLinear(p: Poly, r: bv8, x: bv8)
    ensures Eval(MulLinear(p, r), x) == Mul(Eval(p, x), Plus(x, r))
  {
    hide Plus, Mul, Eval, Scale;
    EvalAdd(p + [0], [0] + Scale(r, p), x);
    EvalSnoc(p, 0, x);
    PlusLaws(Mul(Eval(p, x), x), 0, 0);
    assert [0] == ZeroPoly(1);
    EvalZeros(1, Scale(r, p), x);
    EvalScale(r, p, x);
    MulDistributes(x, r, Eval(p, x));
  }

  /** Every power of 2 below the degree is a root of the generator. */
  lemma {:induction false} GeneratorRoot(k: nat, i: nat)
    requires i < k
    ensures Eval(Generator(k), Alpha(i)) == 0
  {
    hide Plus, Mul, Eval, MulLinear;
    var before, r := Generator(k - 1), Alpha(k - 1);
    EvalMulLinear(before, r, Alpha(i));
    if i < k - 1 {
      GeneratorRoot(k - 1, i);
      MulOne(Plus(Alpha(i), r));
    } else {
      PlusLaws(r, 0, 0);
      MulOne(Eval(before, Alpha(i)));
    }
  }

  // ---- the generator polynomial as the encoder builds it ----

  lemma MulLinearZeros(n: nat, p: Poly, r: bv8)
    ensures MulLinear(ZeroPoly(n) + p, r) == ZeroPoly(n) + MulLinear(p, r)
  {
    hide Plus, Mul;
    var q := ZeroPoly(n) + p;
    var left, right := MulLinear(q, r), ZeroPoly(n) + MulLinear(p, r);
    forall i | 0 <= i < |left| ensures left[i] == right[i] {
      MulOne(r);
      PlusLaws(0, 0, 0);
    }
  }

  /** One in-place round: every coefficient times the root plus its right neighbour, the leading product dropped. */
  function Round(p: Poly, r: bv8): (q: Poly)
    ensures |q| == |p|
  {
    MulLinear(p, r)[1..]
  }

  lemma RoundCoefficient(p: Poly, r: bv8, j: nat)
    requires j < |p|
    ensures Round(p, r)[j] == if j + 1 < |p| then Plus(Mul(p[j], r), p[j + 1]) else Mul(p[j], r)
  {
    hide Plus, Mul;
    PlusLaws(Mul(p[j], r), if j + 1 < |p| then p[j + 1] else 0, 0);
    PlusLaws(0, Mul(p[j], r), 0);
  }

  /** The inner loop of the divisor: multiply by (x - root) in place. */
  method MultiplyInPlace(p: Poly, root: bv8) returns (result: Poly)
    ensures result == Round(p, root)
  {
    hide Plus, Mul, Round;
    result := p;
    for j := 0 to |p|
      invariant |result| == |p|
      invariant forall i :: 0 <= i < j ==> result[i] == Round(p, root)[i]
      invariant forall i :: j <= i < |p| ==> result[i] == p[i]
    {
      RoundCoefficient(p, root, j);
      var c := GfMul(result[j], root);
      result := result[j := c];
      if j + 1 < |p| {
        result := result[j := Plus(result[j], result[j + 1])];
      }
    }
  }

  /** The coefficients of the generator below its leading 1. */
  method RsDivisor(degree: nat) returns (result: Poly)
    ensures |result| == degree
    ensures [1] + result == Generator(degree)
  {
    hide Plus, Mul, Round, MulLinear;
    result := ZeroPoly(degree);
    if degree > 0 {
      result := result[degree - 1 := 1];
    }
    var root := 1;
    for k := 0 to degree
      invariant root == Alpha(k)
      invariant k < degree ==> result == ZeroPoly(degree - 1 - k) + Generator(k)
      invariant k == degree ==> result == Generator(degree)[1..]
    {
      RoundOfPadded(degree, k);
      result := MultiplyInPlace(result, root);
      root := GfMul(root, 2);
    }
    GeneratorMonic(degree);
  }

  lemma RoundOfPadded(degree: nat, k: nat)
    requires k < degree
    ensures Round(ZeroPoly(degree - 1 - k) + Generator(k), Alpha(k))
         == if k + 1 < degree then ZeroPoly(degree - 2 - k) + Generator(k + 1) else Generator(degree)[1..]
  {
    hide MulLinear;
    MulLinearZeros(degree - 1 - k, Generator(k), Alpha(k));
  }

  // ---- parity ----

  /** The parity register after one more data byte: shifted by one place and reduced by the divisor. */
  function Feed(register: Poly, b: bv8, divisor: Poly): (next: Poly)
    requires |register| == |divisor| > 0
    ensures |next| == |divisor|
  {
    Add(register[1..] + [0], Scale(Plus(b, register[0]), divisor))
  }

  /** The remainder of data * x^n by the monic polynomial with the given `n` lower coefficients. */
  function Remainder(data: Poly, divisor: Poly): (r: Poly)
    requires |divisor| > 0
    ensures |r| == |divisor|
  {
    if data == [] then
      ZeroPoly(|divisor|)
    else
      Feed(Remainder(data[..|data| - 1], divisor), data[|data| - 1], divisor)
  }

  /** The parity codewords of a block. */
  method RsRemainder(data: Poly, divisor: Poly) returns (result: Poly)
    requires |divisor| > 0
    ensures result == Remainder(data, divisor)
  {
    hide Plus, Mul;
    result := ZeroPoly(|divisor|);
    for k := 0 to |data|
      invariant result == Remainder(data[..k], divisor)
    {
      assert data[..k + 1][..k] == data[..k];
      ghost var register := result;
      var factor := Plus(data[k], result[0]);
      result := result[1..];
      result := result + [0];
      ghost var shifted := result;
      for i := 0 to |divisor|
        invariant |result| == |divisor|
        invariant forall j :: 0 <= j < i ==> result[j] == Plus(shifted[j], Mul(divisor[j], factor))
        invariant forall j :: i <= j < |divisor| ==> result[j] == shifted[j]
      {
        var product := GfMul(divisor[i], factor);
        result := result[i := Plus(result[i], product)];
      }
      assert result == Feed(register, data[k], divisor);
    }
    assert data[..|data|] == data;
  }

  /** Data followed by its parity vanishes wherever the divisor does. */
  lemma {:induction false} ParityVanishes(data: Poly, divisor: Poly, x: bv8)
    requires |divisor| > 0 && Eval([1] + divisor, x) == 0
    ensures Eval(data + Remainder(data, divisor), x) == 0
  {
    hide Plus, Mul, Eval, Add, Scale, Feed;
    if data == [] {
      EvalZeros(|divisor|, [], x);
      assert ZeroPoly(|divisor|) + [] == data + Remainder(data, divisor);
      EvalEmpty(x);
    } else {
      var before, b := data[..|data| - 1], data[|data| - 1];
      var register := Remainder(before, divisor);
      ParityVanishes(before, divisor, x);
      FeedKeepsRoot(before, register, b, divisor, x);
      assert before + [b] == data;
    }
  }

  lemma EvalEmpty(x: bv8)
    ensures Eval([], x) == 0
  {
  }

  lemma FeedKeepsRoot(before: Poly, register: Poly, b: bv8, divisor: Poly, x: bv8)
    requires |register| == |divisor| > 0 && Eval([1] + divisor, x) == 0
    requires Eval(before + register, x) == 0
    ensures Eval(before + [b] + Feed(register, b, divisor), x) == 0
  {
    hide Plus, Mul, Eval;
    var factor := Plus(b, register[0]);
    var shifted := before + register + [0];
    EvalSnoc(before + register, 0, x);
    MulOne(x);
    PlusLaws(0, 0, 0);
    var monic := [1] + divisor;
    EvalScale(factor, monic, x);
    MulOne(factor);
    EvalZeros(|before|, Scale(factor, monic), x);
    EvalAdd(shifted, ZeroPoly(|before|) + Scale(factor, monic), x);
    FeedIsSum(before, register, b, divisor);
  }

  lemma FeedIsSum(before: Poly, register: Poly, b: bv8, divisor: Poly)
    requires |register| == |divisor| > 0
    ensures before + [b] + Feed(register, b, divisor)
         == Add(before + register + [0], ZeroPoly(|before|) + Scale(Plus(b, register[0]), [1] + divisor))
  {
    hide Mul, Plus;
    var factor := Plus(b, register[0]);
    var left := before + [b] + Feed(register, b, divisor);
    var right := Add(before + register + [0], ZeroPoly(|before|) + Scale(factor, [1] + divisor));
    MulOne(factor);
    forall i | 0 <= i < |left| ensures left[i] == right[i] {
      if i < |before| {
        PlusLaws(before[i], 0, 0);
      } else if i == |before| {
        PlusCancels(b, register[0]);
      } else {
        var j := i - |before| - 1;
        assert Scale(factor, [1] + divisor)[j + 1] == Mul(divisor[j], factor);
        assert left[i] == Plus((register[1..] + [0])[j], Mul(divisor[j], factor));
      }
    }
  }

  lemma PlusCancels(b: bv8, r: bv8)
    ensures Plus(r, Plus(b, r)) == b
  {
  }

  /** Every block of data and parity has all the required roots. */
  lemma BlockHasRoots(data: Poly, divisor: Poly, degree: nat, i: nat)
    requires degree > 0 && [1] + divisor == Generator(degree) && i < degree
    ensures Eval(data + Remainder(data, divisor), Alpha(i)) == 0
  {
    GeneratorRoot(degree, i);
    ParityVanishes(data, divisor, Alpha(i));
  }
}
