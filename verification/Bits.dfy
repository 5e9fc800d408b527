/** Bitwise operations on numbers, powers of two and quotients. */
module Bits {

  function Pow2(n: nat): (p: nat)
    ensures p > 0
  {
    if n == 0 then 1 else 2 * Pow2(n - 1)
  }

  lemma SmallPowers()
    ensures Pow2(4) == 16 && Pow2(8) == 256 && Pow2(16) == 0x1_0000
  {
    assert Pow2(12) == 16 * Pow2(8);
    assert Pow2(16) == 16 * Pow2(12);
  }

  /** Exclusive or of the `n` low bits. */
  function XorBits(a: nat, b: nat, n: nat): (x: nat)
    ensures x < Pow2(n)
  {
    if n == 0 then 0 else 2 * XorBits(a / 2, b / 2, n - 1) + if a % 2 == b % 2 then 0 else 1
  }

  lemma {:induction false} XorBitsTwice(a: nat, b: nat, n: nat)
    requires a < Pow2(n)
    ensures XorBits(XorBits(a, b, n), b, n) == a
  {
    if n > 0 {
      XorBitsTwice(a / 2, b / 2, n - 1);
      var x := XorBits(a, b, n);
      assert x / 2 == XorBits(a / 2, b / 2, n - 1) && (x % 2 == 0 <==> a % 2 == b % 2);
      assert XorBits(x, b, n) == 2 * (a / 2) + a % 2;
    }
  }

  /** `n` without its last `i` bits. */
  function Halved(n: nat, i: nat): nat {
    if i == 0 then n else Halved(n / 2, i - 1)
  }

  /** Every bit of an exclusive or says whether the bits differ. */
  lemma {:induction false} XorBitAt(a: nat, b: nat, n: nat, i: nat)
    requires i < n
    ensures Halved(XorBits(a, b, n), i) % 2 == if Halved(a, i) % 2 == Halved(b, i) % 2 then 0 else 1
  {
    var x := XorBits(a, b, n);
    assert x / 2 == XorBits(a / 2, b / 2, n - 1) && (x % 2 == 0 <==> a % 2 == b % 2);
    if i > 0 {
      XorBitAt(a / 2, b / 2, n - 1, i - 1);
    }
  }

  /** Inclusive or of the `n` low bits. */
  function OrBits(a: nat, b: nat, n: nat): (x: nat)
    ensures x < Pow2(n)
  {
    if n == 0 then 0 else 2 * OrBits(a / 2, b / 2, n - 1) + if a % 2 == 1 || b % 2 == 1 then 1 else 0
  }

  lemma {:induction false} XorBitsZero(a: nat, b: nat, n: nat)
    requires a < Pow2(n) && b < Pow2(n)
    ensures XorBits(a, b, n) == 0 <==> a == b
  {
    if n > 0 {
      XorBitsZero(a / 2, b / 2, n - 1);
    }
  }

  lemma {:induction false} OrBitsZero(a: nat, b: nat, n: nat)
    requires a < Pow2(n) && b < Pow2(n)
    ensures OrBits(a, b, n) == 0 <==> a == 0 && b == 0
  {
    if n > 0 {
      OrBitsZero(a / 2, b / 2, n - 1);
    }
  }

  // ---- quotients ----

  lemma MulMonotone(a: int, b: int, n: int)
    requires a <= b && 0 <= n
    ensures a * n <= b * n
  {
  }

  /** Quotient and remainder are unique. */
  lemma QuotientUnique(n: int, d: int, q: int, r: int)
    requires 0 <= r < d && n == d * q + r
    ensures n / d == q && n % d == r
  {
    var q', r' := n / d, n % d;
    assert n == d * q' + r';
    if q' < q {
      MulMonotone(q' + 1, q, d);
    } else if q < q' {
      MulMonotone(q + 1, q', d);
    }
  }

  /** `n` without its last `i` bytes. */
  function ByteShift(n: nat, i: nat): nat {
    if i == 0 then n else ByteShift(n, i - 1) / 256
  }

  lemma DivAgain(n: nat, d: nat)
    requires d > 0
    ensures n / d / 256 == n / (d * 256)
  {
    var q, r := n / d, n % d;
    var s, t := q / 256, q % 256;
    assert n == d * (256 * s + t) + r == d * 256 * s + (d * t + r);
    MulMonotone(t + 1, 256, d);
    assert 0 <= d * t + r < d * 256;
    QuotientUnique(n, d * 256, s, d * t + r);
  }

  lemma ByteShifts(n: nat)
    ensures ByteShift(n, 1) == n / 0x100 && ByteShift(n, 2) == n / 0x1_0000 && ByteShift(n, 3) == n / 0x100_0000
    ensures ByteShift(n, 4) == n / 0x1_0000_0000 && ByteShift(n, 5) == n / 0x100_0000_0000
    ensures ByteShift(n, 6) == n / 0x1_0000_0000_0000 && ByteShift(n, 7) == n / 0x100_0000_0000_0000
    ensures ByteShift(n, 8) == n / 0x1_0000_0000_0000_0000
  {
    DivAgain(n, 0x100);
    DivAgain(n, 0x1_0000);
    DivAgain(n, 0x100_0000);
    DivAgain(n, 0x1_0000_0000);
    DivAgain(n, 0x100_0000_0000);
    DivAgain(n, 0x1_0000_0000_0000);
    DivAgain(n, 0x100_0000_0000_0000);
    assert ByteShift(n, 1) == n / 0x100;
    assert ByteShift(n, 3) == ByteShift(n, 2) / 256 && ByteShift(n, 5) == ByteShift(n, 4) / 256;
    assert ByteShift(n, 7) == ByteShift(n, 6) / 256;
  }
}
