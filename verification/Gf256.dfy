/**
 Arithmetic in GF(256) with the QR primitive polynomial x^8 + x^4 + x^3 + x^2 + 1: section 7.5.2
 of ISO/IEC 18004.
 */
module Gf256 {

  /** x^8 + x^4 + x^3 + x^2 + 1 */
  const PRIMITIVE: bv16 := 0x11D

  predicate BitSet(y: bv8, mask: bv8) {
    y & mask != 0
  }

  function Mask(i: nat): bv8
    requires i < 8
  {
    match i
    case 0 => 0x80
    case 1 => 0x40
    case 2 => 0x20
    case 3 => 0x10
    case 4 => 8
    case 5 => 4
    case 6 => 2
    case _ => 1
  }

  /** The bits of a byte, most significant first. */
  function Bits(y: bv8): (b: seq<bool>)
    ensures |b| == 8 && forall i :: 0 <= i < 8 ==> b[i] == BitSet(y, Mask(i))
  {
    seq(8, i requires 0 <= i < 8 => BitSet(y, Mask(i)))
  }

  function If8(b: bool, x: bv8): bv8 {
    if b then x else 0
  }

  /** Addition in the field. */
  function Plus(a: bv8, b: bv8): bv8 {
    a ^ b
  }

  /** Multiplication by the element 2. */
  function Double(z: bv8): bv8 {
    (z << 1) ^ If8(z & 0x80 != 0, 0x1D)
  }

  /** Horner's rule over the bits of the second factor, most significant first. */
  function Horner(x: bv8, bits: seq<bool>): bv8 {
    if bits == [] then 0 else Plus(Double(Horner(x, bits[..|bits| - 1])), If8(bits[|bits| - 1], x))
  }

  function Mul(x: bv8, y: bv8): bv8 {
    Horner(x, Bits(y))
  }

  /** One round of the encoder's loop in its 32-bit register: shift and reduce, then add `x` if the bit is set. */
  function Round(z: bv32, bit: bool, x: bv8): bv32 {
    AddIf(Reduced(z), bit, x)
  }

  function Reduced(z: bv32): bv32 {
    (z << 1) ^ ((z >> 7) * 0x11D)
  }

  function AddIf(z: bv32, bit: bool, x: bv8): bv32 {
    z ^ (if bit then 1 * (x as bv32) else 0 * (x as bv32))
  }

  function Low8(z: bv32): bv8 {
    (z & 0xFF) as bv8
  }

  function Wide(h: bv8): bv32 {
    h as bv32
  }

  lemma ReducedStaysInByte(h: bv8)
    ensures Reduced(Wide(h)) == Wide(Double(h))
  {
  }

  lemma AddIfStaysInByte(h: bv8, bit: bool, x: bv8)
    ensures AddIf(Wide(h), bit, x) == Wide(Plus(h, If8(bit, x)))
  {
  }

  lemma LowWide(h: bv8)
    ensures Low8(Wide(h)) == h
  {
  }

  /** The encoder's multiplication, bits of `y` from the top. */
  method GfMul(x: bv8, y: bv8) returns (product: bv8)
    ensures product == Mul(x, y)
  {
    hide Reduced, AddIf, Low8, Wide, Plus, Double, If8, Bits;
    var z := 0;
    assert z == Wide(0) by { WideZero(); }
    var bits := Bits(y);
    for i := 0 to 8
      invariant z == Wide(Horner(x, bits[..i]))
    {
      assert bits[..i + 1][..i] == bits[..i];
      ReducedStaysInByte(Horner(x, bits[..i]));
      AddIfStaysInByte(Double(Horner(x, bits[..i])), bits[i], x);
      z := Round(z, bits[i], x);
    }
    assert bits[..8] == bits;
    LowWide(Mul(x, y));
    product := Low8(z);
  }

  lemma WideZero()
    ensures Wide(0) == 0
  {
  }

  // ---- Mul is multiplication of polynomials over GF(2) modulo the primitive polynomial ----

  function Add16(a: bv16, b: bv16): bv16 {
    a ^ b
  }

  function TimesX(p: bv16): bv16 {
    p << 1
  }

  function If16(b: bool, p: bv16): bv16 {
    if b then p else 0
  }

  function Wide16(h: bv8): bv16 {
    h as bv16
  }

  predicate Top(h: bv8) {
    h & 0x80 != 0
  }

  /** The product of two polynomials over GF(2), the first given by its coefficients from the top. */
  function PolyProduct(bits: seq<bool>, p: bv16): bv16 {
    if bits == [] then 0 else Add16(TimesX(PolyProduct(bits[..|bits| - 1], p)), If16(bits[|bits| - 1], p))
  }

  /** `p` and the byte `r` differ by a multiple of the primitive polynomial. */
  ghost predicate CongruentModPrimitive(p: bv16, r: bv8) {
    exists q: seq<bool> :: |q| == 8 && p == Add16(Wide16(r), PolyProduct(q, PRIMITIVE))
  }

  /** `Mul` is the one byte congruent to the product of the two polynomials. */
  lemma MulIsProductModPrimitive(x: bv8, y: bv8, r: bv8)
    ensures CongruentModPrimitive(PolyProduct(Bits(y), Wide16(x)), r) <==> r == Mul(x, y)
  {
    hide Bits, Add16, Wide16;
    var p := PolyProduct(Bits(y), Wide16(x));
    HornerDivides(x, Bits(y));
    if CongruentModPrimitive(p, r) {
      var q :| |q| == 8 && p == Add16(Wide16(r), PolyProduct(q, PRIMITIVE));
      RemainderUnique(r, Mul(x, y), q, Quotient(x, Bits(y)));
    }
  }

  /** The bits that Horner's rule reduces away: the quotient by the primitive polynomial. */
  function Quotient(x: bv8, bits: seq<bool>): (q: seq<bool>)
    ensures |q| == |bits|
  {
    if bits == [] then
      []
    else
      var before := bits[..|bits| - 1];
      Quotient(x, before) + [Top(Horner(x, before))]
  }

  lemma {:induction false} HornerDivides(x: bv8, bits: seq<bool>)
    ensures PolyProduct(bits, Wide16(x)) == Add16(Wide16(Horner(x, bits)), PolyProduct(Quotient(x, bits), PRIMITIVE))
  {
    hide Add16, TimesX, If16, Wide16, Top, Plus, Double, If8;
    if bits == [] {
      assert Add16(Wide16(0), 0) == 0 by { AddZero(); }
    } else {
      var before, last := bits[..|bits| - 1], bits[|bits| - 1];
      HornerDivides(x, before);
      assert Quotient(x, bits)[..|before|] == Quotient(x, before);
      var h, multiple := Horner(x, before), PolyProduct(Quotient(x, before), PRIMITIVE);
      TimesXAdd(Wide16(h), multiple);
      TimesXReduces(h);
      WideAdd(Double(h), last, x);
      Rearrange(Wide16(Double(h)), If16(Top(h), PRIMITIVE), TimesX(multiple), If16(last, Wide16(x)));
    }
  }

  lemma AddZero()
    ensures Add16(Wide16(0), 0) == 0
  {
  }

  lemma TimesXAdd(a: bv16, b: bv16)
    ensures TimesX(Add16(a, b)) == Add16(TimesX(a), TimesX(b))
  {
  }

  lemma TimesXReduces(h: bv8)
    ensures TimesX(Wide16(h)) == Add16(Wide16(Double(h)), If16(Top(h), PRIMITIVE))
  {
  }

  lemma WideAdd(d: bv8, bit: bool, x: bv8)
    ensures Wide16(Plus(d, If8(bit, x))) == Add16(Wide16(d), If16(bit, Wide16(x)))
  {
  }

  lemma Rearrange(d: bv16, t: bv16, s: bv16, i: bv16)
    ensures Add16(Add16(Add16(d, t), s), i) == Add16(Add16(d, i), Add16(s, t))
  {
  }

  lemma RemainderUnique(r: bv8, r': bv8, q: seq<bool>, q': seq<bool>)
    requires |q| == 8 && |q'| == 8
    requires Add16(Wide16(r), PolyProduct(q, PRIMITIVE)) == Add16(Wide16(r'), PolyProduct(q', PRIMITIVE))
    ensures r == r'
  {
    hide Add16, Wide16;
    ProductOfSum(q, q');
    MultipleOutsideByte(Sum(q, q'));
    AddCancel(r, r', PolyProduct(q, PRIMITIVE), PolyProduct(q', PRIMITIVE));
  }

  /** The sum of two polynomials over GF(2). */
  function Sum(a: seq<bool>, b: seq<bool>): (d: seq<bool>)
    requires |a| == |b|
    ensures |d| == |a| && forall i :: 0 <= i < |a| ==> d[i] == (a[i] != b[i])
  {
    seq(|a|, i requires 0 <= i < |a| => a[i] != b[i])
  }

  lemma {:induction false} ProductOfSum(q: seq<bool>, q': seq<bool>)
    requires |q| == |q'|
    ensures PolyProduct(Sum(q, q'), PRIMITIVE) == Add16(PolyProduct(q, PRIMITIVE), PolyProduct(q', PRIMITIVE))
  {
    hide Add16, TimesX, If16;
    if q == [] {
      assert Add16(0, 0) == 0 by { AddZeros(); }
    } else {
      var n := |q| - 1;
      ProductOfSum(q[..n], q'[..n]);
      assert Sum(q, q')[..n] == Sum(q[..n], q'[..n]);
      var a, b := PolyProduct(q[..n], PRIMITIVE), PolyProduct(q'[..n], PRIMITIVE);
      TimesXAdd(a, b);
      If16Add(q[n], q'[n]);
      Rearrange2(TimesX(a), TimesX(b), If16(q[n], PRIMITIVE), If16(q'[n], PRIMITIVE));
    }
  }

  lemma AddZeros()
    ensures Add16(0, 0) == 0
  {
  }

  lemma If16Add(s: bool, t: bool)
    ensures If16(s != t, PRIMITIVE) == Add16(If16(s, PRIMITIVE), If16(t, PRIMITIVE))
  {
  }

  lemma Rearrange2(a: bv16, b: bv16, s: bv16, t: bv16)
    ensures Add16(Add16(a, b), Add16(s, t)) == Add16(Add16(a, s), Add16(b, t))
  {
    hide Add16;
    AddAssoc(a, b, Add16(s, t));
    AddAssoc(b, s, t);
    AddComm(b, s);
    AddAssoc(s, b, t);
    AddAssoc(a, s, Add16(b, t));
  }

  lemma AddAssoc(a: bv16, b: bv16, c: bv16)
    ensures Add16(Add16(a, b), c) == Add16(a, Add16(b, c))
  {
  }

  lemma AddComm(a: bv16, b: bv16)
    ensures Add16(a, b) == Add16(b, a)
  {
  }

  /** The only multiple of the primitive polynomial inside a byte is zero. */
  lemma MultipleOutsideByte(q: seq<bool>)
    requires |q| == 8
    ensures PolyProduct(q, PRIMITIVE) < 0x100 ==> PolyProduct(q, PRIMITIVE) == 0
  {
    hide PolyStep;
    PolyStepGrows(0, q[0], 0x100);
    PolyProductStep(q, 0);
    PolyStepGrows(PolyProduct(q[..1], PRIMITIVE), q[1], 0x200);
    PolyProductStep(q, 1);
    PolyStepGrows(PolyProduct(q[..2], PRIMITIVE), q[2], 0x400);
    PolyProductStep(q, 2);
    PolyStepGrows(PolyProduct(q[..3], PRIMITIVE), q[3], 0x800);
    PolyProductStep(q, 3);
    PolyStepGrows(PolyProduct(q[..4], PRIMITIVE), q[4], 0x1000);
    PolyProductStep(q, 4);
    PolyStepGrows(PolyProduct(q[..5], PRIMITIVE), q[5], 0x2000);
    PolyProductStep(q, 5);
    PolyStepGrows(PolyProduct(q[..6], PRIMITIVE), q[6], 0x4000);
    PolyProductStep(q, 6);
    PolyStepGrows(PolyProduct(q[..7], PRIMITIVE), q[7], 0x8000);
    PolyProductStep(q, 7);
    assert q[..8] == q;
  }

  /** A multiple is zero or at least 0x100, and one more quotient bit doubles its range. */
  lemma PolyStepGrows(p: bv16, bit: bool, bound: bv16)
    requires bound in {0x100, 0x200, 0x400, 0x800, 0x1000, 0x2000, 0x4000, 0x8000}
    requires p == 0 || 0x100 <= p < bound
    ensures PolyStep(p, bit) == 0 || 0x100 <= PolyStep(p, bit)
    ensures bound != 0x8000 ==> PolyStep(p, bit) < bound << 1
  {
  }

  function PolyStep(p: bv16, bit: bool): bv16 {
    Add16(TimesX(p), If16(bit, PRIMITIVE))
  }

  lemma PolyProductStep(q: seq<bool>, k: nat)
    requires k < |q|
    ensures PolyProduct(q[..0], PRIMITIVE) == 0
    ensures PolyProduct(q[..k + 1], PRIMITIVE) == PolyStep(PolyProduct(q[..k], PRIMITIVE), q[k])
  {
    assert q[..k + 1][..k] == q[..k];
  }

  lemma AddCancel(r: bv8, r': bv8, a: bv16, b: bv16)
    requires Add16(Wide16(r), a) == Add16(Wide16(r'), b)
    requires Add16(a, b) < 0x100 ==> Add16(a, b) == 0
    ensures r == r'
  {
    assert Add16(Wide16(r), Wide16(r')) == Add16(a, b);
    assert Add16(Wide16(r), Wide16(r')) < 0x100;
  }

  // ---- Mul makes the bytes a commutative ring ----

  lemma PlusLaws(a: bv8, b: bv8, c: bv8)
    ensures Plus(a, b) == Plus(b, a)
    ensures Plus(Plus(a, b), c) == Plus(a, Plus(b, c))
    ensures Plus(a, a) == 0 && Plus(a, 0) == a
  {
  }

  lemma PlusSwap(a: bv8, b: bv8, c: bv8, d: bv8)
    ensures Plus(Plus(a, b), Plus(c, d)) == Plus(Plus(a, c), Plus(b, d))
  {
    hide Plus;
    PlusLaws(a, b, Plus(c, d));
    PlusLaws(b, c, d);
    PlusLaws(c, b, d);
    PlusLaws(a, c, Plus(b, d));
  }

  lemma DoublePlus(a: bv8, b: bv8)
    ensures Double(Plus(a, b)) == Plus(Double(a), Double(b))
  {
    if a & 0x80 != 0 {
      if b & 0x80 != 0 {
        assert Plus(a, b) & 0x80 == 0;
      } else {
        assert Plus(a, b) & 0x80 != 0;
      }
    } else {
      if b & 0x80 != 0 {
        assert Plus(a, b) & 0x80 != 0;
      } else {
        assert Plus(a, b) & 0x80 == 0;
      }
    }
  }

  lemma If8Laws(s: bool, t: bool, x: bv8, y: bv8)
    ensures If8(s != t, x) == Plus(If8(s, x), If8(t, x))
    ensures If8(s, Plus(x, y)) == Plus(If8(s, x), If8(s, y))
    ensures Double(If8(s, x)) == If8(s, Double(x))
  {
  }

  lemma {:induction false} HornerPlus(x: bv8, y: bv8, bits: seq<bool>)
    ensures Horner(Plus(x, y), bits) == Plus(Horner(x, bits), Horner(y, bits))
  {
    hide Plus, Double, If8;
    if bits == [] {
      PlusLaws(0, 0, 0);
    } else {
      var before, last := bits[..|bits| - 1], bits[|bits| - 1];
      HornerPlus(x, y, before);
      DoublePlus(Horner(x, before), Horner(y, before));
      If8Laws(last, last, x, y);
      PlusSwap(Double(Horner(x, before)), Double(Horner(y, before)), If8(last, x), If8(last, y));
    }
  }

  lemma {:induction false} HornerSum(x: bv8, a: seq<bool>, b: seq<bool>)
    requires |a| == |b|
    ensures Horner(x, Sum(a, b)) == Plus(Horner(x, a), Horner(x, b))
  {
    hide Plus, Double, If8;
    if a == [] {
      PlusLaws(0, 0, 0);
    } else {
      var n := |a| - 1;
      HornerSum(x, a[..n], b[..n]);
      assert Sum(a, b)[..n] == Sum(a[..n], b[..n]);
      DoublePlus(Horner(x, a[..n]), Horner(x, b[..n]));
      If8Laws(a[n], b[n], x, x);
      PlusSwap(Double(Horner(x, a[..n])), Double(Horner(x, b[..n])), If8(a[n], x), If8(b[n], x));
    }
  }

  lemma {:induction false} HornerDouble(x: bv8, bits: seq<bool>)
    ensures Horner(Double(x), bits) == Double(Horner(x, bits))
  {
    if bits == [] {
    } else {
      hide Plus, Double, If8;
      var before, last := bits[..|bits| - 1], bits[|bits| - 1];
      HornerDouble(x, before);
      DoublePlus(Double(Horner(x, before)), If8(last, x));
      If8Laws(last, last, x, x);
    }
  }

  /** `x` doubled `n` times. */
  function Doubles(x: bv8, n: nat): bv8 {
    if n == 0 then x else Double(Doubles(x, n - 1))
  }

  /** The top bit stands for `x` doubled once for each bit below it. */
  lemma {:induction false} HornerTop(x: bv8, top: bool, rest: seq<bool>)
    ensures Horner(x, [top] + rest) == Plus(If8(top, Doubles(x, |rest|)), Horner(x, rest))
  {
    hide Plus, Double, If8;
    if rest == [] {
      assert ([top] + rest)[..0] == [] && [top] + rest == [top];
      assert Horner(x, [top]) == Plus(Double(0), If8(top, x));
      ZeroLaws(If8(top, x));
    } else {
      var before, last := rest[..|rest| - 1], rest[|rest| - 1];
      assert ([top] + rest)[..|rest|] == [top] + before;
      HornerTop(x, top, before);
      var high := Doubles(x, |before|);
      DoublePlus(If8(top, high), Horner(x, before));
      If8Laws(top, top, high, high);
      PlusLaws(If8(top, Double(high)), Double(Horner(x, before)), If8(last, x));
    }
  }

  lemma ZeroLaws(a: bv8)
    ensures Double(0) == 0 && Plus(0, a) == a && Plus(a, 0) == a
  {
  }

  lemma BitPlus(a: bv8, b: bv8, i: nat)
    requires i < 8
    ensures BitSet(Plus(a, b), Mask(i)) == (BitSet(a, Mask(i)) != BitSet(b, Mask(i)))
  {
  }

  lemma BitsPlus(a: bv8, b: bv8)
    ensures Bits(Plus(a, b)) == Sum(Bits(a), Bits(b))
  {
    forall i | 0 <= i < 8 ensures Bits(Plus(a, b))[i] == Sum(Bits(a), Bits(b))[i] {
      BitPlus(a, b, i);
    }
  }

  lemma BitDouble(y: bv8, i: nat)
    requires i < 8
    ensures BitSet(Double(y), Mask(i))
         == ((i < 7 && BitSet(y, Mask(i + 1))) != (BitSet(y, Mask(0)) && BitSet(0x1D, Mask(i))))
  {
  }

  /** Doubling a byte shifts its bits and folds the top one back as 0x1D. */
  lemma BitsDouble(y: bv8)
    ensures Bits(Double(y)) == Sum(Bits(y)[1..] + [false], if Bits(y)[0] then Bits(0x1D) else Bits(0))
  {
    var l, r := Bits(Double(y)), Sum(Bits(y)[1..] + [false], if Bits(y)[0] then Bits(0x1D) else Bits(0));
    forall i | 0 <= i < 8 ensures l[i] == r[i] {
      BitDouble(y, i);
      BitZero(Mask(i));
    }
  }

  lemma BitZero(mask: bv8)
    ensures !BitSet(0, mask)
  {
  }

  lemma EightDoubles(x: bv8)
    ensures Mul(x, 0x1D) == Double(Doubles(x, 7))
  {
    Doubles7(x);
    Unroll1D(x, Bits(0x1D));
  }

  lemma Doubles7(x: bv8)
    ensures Doubles(x, 7) == Double(Double(Double(Double(Double(Double(Double(x)))))))
  {
    hide Double;
    assert Doubles(x, 3) == Double(Doubles(x, 2)) == Double(Double(Doubles(x, 1)));
    assert Doubles(x, 1) == Double(Doubles(x, 0)) == Double(x);
    assert Doubles(x, 5) == Double(Doubles(x, 4)) == Double(Double(Doubles(x, 3)));
    assert Doubles(x, 7) == Double(Doubles(x, 6)) == Double(Double(Doubles(x, 5)));
  }

  lemma Unroll1D(x: bv8, b: seq<bool>)
    requires |b| == 8 && !b[0] && !b[1] && !b[2] && b[3] && b[4] && b[5] && !b[6] && b[7]
    ensures Horner(x, b) == Plus(Double(Double(Plus(Double(Plus(Double(x), x)), x))), x)
  {
    hide Plus, Double;
    HornerUnrolled(x, b);
    ZeroLaws(0);
    ZeroLaws(x);
    ZeroLaws(Double(Plus(Double(Plus(Double(x), x)), x)));
    assert Horner(x, b[..1]) == Horner(x, b[..2]) == Horner(x, b[..3]) == 0;
    assert Horner(x, b[..6]) == Plus(Double(Horner(x, b[..5])), x);
  }

  lemma HornerUnrolled(x: bv8, b: seq<bool>)
    requires |b| == 8
    ensures Horner(x, b[..0]) == 0
    ensures forall k :: 0 <= k < 8 ==> Horner(x, b[..k + 1]) == Plus(Double(Horner(x, b[..k])), If8(b[k], x))
    ensures b[..8] == b
  {
    forall k | 0 <= k < 8 ensures Horner(x, b[..k + 1]) == Plus(Double(Horner(x, b[..k])), If8(b[k], x)) {
      assert b[..k + 1][..k] == b[..k];
    }
  }

  lemma MulDouble(x: bv8, y: bv8)
    ensures Mul(x, Double(y)) == Double(Mul(x, y))
  {
    var top, rest := Bits(y)[0], Bits(y)[1..];
    assert Bits(y) == [top] + rest;
    HornerTop(x, top, rest);
    BitsDouble(y);
    EightDoubles(x);
    HornerZeros(x);
    hide Plus, Double, If8, BitSet, Bits;
    assert (rest + [false])[..7] == rest;
    var high := Doubles(x, 7);
    HornerSum(x, rest + [false], if top then Bits(0x1D) else Bits(0));
    DoublePlus(If8(top, high), Horner(x, rest));
    If8Off(x, high);
    PlusLaws(Double(Horner(x, rest)), 0, 0);
    PlusLaws(Double(Horner(x, rest)), Double(If8(top, high)), 0);
  }

  lemma HornerZeros(x: bv8)
    ensures Horner(x, Bits(0)) == 0
  {
    hide Plus, Double;
    forall i | 0 <= i < 8 ensures !Bits(0)[i] {
      BitZero(Mask(i));
    }
    HornerFalse(x, Bits(0));
  }

  lemma {:induction false} HornerFalse(x: bv8, bits: seq<bool>)
    requires forall i :: 0 <= i < |bits| ==> !bits[i]
    ensures Horner(x, bits) == 0
  {
    if bits != [] {
      HornerFalse(x, bits[..|bits| - 1]);
    }
  }

  lemma If8Off(x: bv8, high: bv8)
    ensures If8(false, x) == 0 && If8(true, high) == high && Double(If8(false, high)) == 0
  {
  }

  /** Multiplication distributes over addition on both sides and has 1 as a neutral element. */
  lemma MulDistributes(x: bv8, y: bv8, z: bv8)
    ensures Mul(Plus(x, y), z) == Plus(Mul(x, z), Mul(y, z))
    ensures Mul(z, Plus(x, y)) == Plus(Mul(z, x), Mul(z, y))
  {
    hide Plus, Horner, Bits;
    HornerPlus(x, y, Bits(z));
    BitsPlus(x, y);
    HornerSum(z, Bits(x), Bits(y));
  }

  lemma MulOne(x: bv8)
    ensures Mul(x, 1) == x && Mul(1, x) == x && Mul(x, 0) == 0 && Mul(0, x) == 0
  {
    HornerZeros(x);
    HornerOfZero(Bits(x));
    BitsOne();
    HornerUnrolled(x, Bits(1));
    HornerFalse(x, Bits(1)[..7]);
    ZeroLaws(x);
    HornerOfOne(x);
  }

  lemma BitsOne()
    ensures forall i :: 0 <= i < 7 ==> !Bits(1)[i]
    ensures Bits(1)[7]
  {
  }

  lemma {:induction false} HornerOfZero(bits: seq<bool>)
    ensures Horner(0, bits) == 0
  {
    if bits != [] {
      HornerOfZero(bits[..|bits| - 1]);
    }
  }

  lemma HornerOfOne(x: bv8)
    ensures Mul(1, x) == x
  {
    var b := Bits(x);
    TopHalfOfOne(x, b);
    HornerUnrolled(1, b);
    hide Horner;
    assert Horner(1, b[..5]) == Plus(Double(Horner(1, b[..4])), If8(b[4], 1)) == x >> 3;
    assert Horner(1, b[..6]) == Plus(Double(Horner(1, b[..5])), If8(b[5], 1)) == x >> 2;
    assert Horner(1, b[..7]) == Plus(Double(Horner(1, b[..6])), If8(b[6], 1)) == x >> 1;
    assert Horner(1, b[..8]) == Plus(Double(Horner(1, b[..7])), If8(b[7], 1)) == x;
  }

  lemma TopHalfOfOne(x: bv8, b: seq<bool>)
    requires b == Bits(x)
    ensures Horner(1, b[..4]) == x >> 4
  {
    HornerUnrolled(1, b);
    hide Horner;
    assert Horner(1, b[..1]) == Plus(Double(Horner(1, b[..0])), If8(b[0], 1)) == x >> 7;
    assert Horner(1, b[..2]) == Plus(Double(Horner(1, b[..1])), If8(b[1], 1)) == x >> 6;
    assert Horner(1, b[..3]) == Plus(Double(Horner(1, b[..2])), If8(b[2], 1)) == x >> 5;
    assert Horner(1, b[..4]) == Plus(Double(Horner(1, b[..3])), If8(b[3], 1)) == x >> 4;
  }

  lemma {:induction false} HornerMul(x: bv8, y: bv8, bits: seq<bool>)
    ensures Horner(Mul(x, y), bits) == Mul(x, Horner(y, bits))
  {
    if bits == [] {
      MulOne(x);
    } else {
      hide Plus, Double, If8, Mul;
      var before, last := bits[..|bits| - 1], bits[|bits| - 1];
      HornerMul(x, y, before);
      MulDouble(x, Horner(y, before));
      MulDistributes(Double(Horner(y, before)), If8(last, y), x);
      MulIf(last, x, y);
    }
  }

  lemma MulIf(b: bool, x: bv8, y: bv8)
    ensures Mul(x, If8(b, y)) == If8(b, Mul(x, y))
    ensures Mul(If8(b, x), y) == If8(b, Mul(x, y))
  {
    MulOne(x);
    MulOne(y);
  }

  lemma MulAssociative(x: bv8, y: bv8, z: bv8)
    ensures Mul(Mul(x, y), z) == Mul(x, Mul(y, z))
  {
    hide Horner, Bits;
    HornerMul(x, y, Bits(z));
  }

  lemma {:induction false} HornerCommutes(x: bv8, bits: seq<bool>)
    ensures Horner(x, bits) == Mul(Horner(1, bits), x)
  {
    if bits == [] {
      MulOne(x);
    } else {
      var before, last := bits[..|bits| - 1], bits[|bits| - 1];
      HornerCommutes(x, before);
      var v := Horner(1, before);
      hide Plus, Double, If8, Mul;
      MulDistributes(Double(v), If8(last, 1), x);
      MulIf(last, 1, x);
      MulOne(x);
      DoubleMul(v, x);
    }
  }

  lemma DoubleMul(v: bv8, x: bv8)
    ensures Mul(Double(v), x) == Double(Mul(v, x))
  {
    HornerDouble(v, Bits(x));
  }

  lemma MulCommutative(x: bv8, y: bv8)
    ensures Mul(x, y) == Mul(y, x)
  {
    HornerCommutes(x, Bits(y));
    MulOne(y);
  }
}
