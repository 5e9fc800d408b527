/** Check bits by division over GF(2): a word is a polynomial, its bits the coefficients. */
module BinaryCode {
  /** The codes of a symbol's format and version information. */
  datatype Code = FormatCode | VersionCode {
    /** x^10 + x^8 + x^5 + x^4 + x^2 + x + 1 and x^12 + x^11 + x^10 + x^9 + x^8 + x^5 + x^2 + 1. */
    function Generator(): bv32 {
      if FormatCode? then 0x537 else 0x1F25
    }

    /** How many check bits there are: the degree of the generator. */
    function Degree(): nat {
      if FormatCode? then 10 else 12
    }

    /** The leading one of the generator, and the bit below it. */
    function Leading(): bv32 {
      if FormatCode? then 0x400 else 0x1000
    }

    function Top(): bv32 {
      if FormatCode? then 0x200 else 0x800
    }
  }

  function Add(a: bv32, b: bv32): bv32 {
    a ^ b
  }

  function If(b: bool, p: bv32): bv32 {
    if b then p else 0
  }

  function TimesX(p: bv32): bv32 {
    p << 1
  }

  predicate Has(p: bv32, m: bv32) {
    p & m != 0
  }

  /** No coefficient from the leading one on. */
  predicate Small(c: Code, p: bv32) {
    p < c.Leading()
  }

  /** One round of division: times x, less the generator if that brings out its leading one. */
  function Round(c: Code, rem: bv32): bv32 {
    Add(TimesX(rem), If(Has(rem, c.Top()), c.Generator()))
  }

  function Rest(c: Code, data: bv32, n: nat): bv32 {
    if n == 0 then data else Round(c, Rest(c, data, n - 1))
  }

  function Shifted(data: bv32, n: nat): bv32 {
    if n == 0 then data else TimesX(Shifted(data, n - 1))
  }

  /** The product of the generator and a polynomial given by its coefficients from the top. */
  function Multiple(c: Code, q: seq<bool>): bv32 {
    if q == [] then 0 else Add(TimesX(Multiple(c, q[..|q| - 1])), If(q[|q| - 1], c.Generator()))
  }

  ghost predicate IsMultiple(c: Code, w: bv32) {
    exists q: seq<bool> :: |q| == c.Degree() && Multiple(c, q) == w
  }

  /** The quotient that `n` rounds of division yield. */
  function Quotient(c: Code, data: bv32, n: nat): (q: seq<bool>)
    ensures |q| == n
  {
    if n == 0 then [] else Quotient(c, data, n - 1) + [Has(Rest(c, data, n - 1), c.Top())]
  }

  /** Data bits followed by their check bits. */
  function Word(c: Code, data: bv32): bv32 {
    Add(Shifted(data, c.Degree()), Rest(c, data, c.Degree()))
  }

  // ---- polynomials add without carries ----

  lemma TimesXAdd(a: bv32, b: bv32)
    ensures TimesX(Add(a, b)) == Add(TimesX(a), TimesX(b))
  {
  }

  lemma AddSwap(a: bv32, b: bv32, c: bv32)
    ensures Add(a, Add(b, c)) == Add(Add(a, c), b)
  {
  }

  lemma AddZero(a: bv32)
    ensures Add(0, a) == a
  {
  }

  lemma AddBack(a: bv32, b: bv32)
    ensures Add(Add(a, b), b) == a
  {
  }

  lemma AddCancels(a: bv32, b: bv32)
    ensures Add(a, b) == 0 ==> a == b
  {
    hide Add;
    AddBack(a, b);
    AddZero(b);
  }

  lemma AddComm(a: bv32, b: bv32)
    ensures Add(a, b) == Add(b, a)
  {
  }

  lemma AddRight(a: bv32, b: bv32, c: bv32)
    ensures Add(Add(a, b), c) == Add(Add(a, c), b)
  {
    hide Add;
    AddSwap(a, b, c);
    AddSwap(a, c, b);
    AddComm(b, c);
  }

  lemma Rearrange(a: bv32, b: bv32, c: bv32, d: bv32)
    ensures Add(Add(a, b), Add(c, d)) == Add(Add(a, c), Add(b, d))
  {
    hide Add;
    AddSwap(Add(a, b), c, d);
    AddRight(Add(a, b), d, c);
    AddRight(a, b, c);
    AddSwap(Add(a, c), b, d);
    AddRight(Add(a, c), d, b);
  }

  lemma IfAdd(s: bool, t: bool, g: bv32)
    ensures If(s != t, g) == Add(If(s, g), If(t, g))
  {
    hide Add;
    AddZero(0);
    AddZero(g);
    AddComm(0, g);
    AddBack(0, g);
  }

  /** What both sides add cancels out. */
  lemma CommonCancels(a: bv32, b: bv32, m: bv32)
    ensures Add(Add(a, m), Add(b, m)) == Add(a, b)
  {
    hide Add;
    AddSwap(Add(a, m), b, m);
    AddBack(a, m);
  }

  /** A sum of two words keeps the shape of a step. */
  lemma StepSum(a: bv32, b: bv32, s: bool, t: bool, g: bv32)
    ensures Add(TimesX(Add(a, b)), If(s != t, g)) == Add(Add(TimesX(a), If(s, g)), Add(TimesX(b), If(t, g)))
  {
    hide Add, TimesX, If;
    TimesXAdd(a, b);
    IfAdd(s, t, g);
    Rearrange(TimesX(a), TimesX(b), If(s, g), If(t, g));
  }

  lemma {:induction false} ShiftedAdd(a: bv32, b: bv32, n: nat)
    ensures Shifted(Add(a, b), n) == Add(Shifted(a, n), Shifted(b, n))
  {
    hide Add, TimesX;
    if n > 0 {
      ShiftedAdd(a, b, n - 1);
      TimesXAdd(Shifted(a, n - 1), Shifted(b, n - 1));
    }
  }

  lemma {:induction false} ShiftedTwice(data: bv32, m: nat, n: nat)
    ensures Shifted(Shifted(data, m), n) == Shifted(data, m + n)
  {
    hide TimesX;
    if n > 0 {
      ShiftedTwice(data, m, n - 1);
    }
  }

  // ---- division ----

  /** The shifted data is the generator times the quotient, plus the rest. */
  lemma {:induction false} Division(c: Code, data: bv32, n: nat)
    ensures Shifted(data, n) == Add(Multiple(c, Quotient(c, data, n)), Rest(c, data, n))
  {
    hide Add, TimesX, If, Has;
    if n == 0 {
      AddZero(data);
    } else {
      Division(c, data, n - 1);
      var rem, q := Rest(c, data, n - 1), Quotient(c, data, n - 1);
      assert Quotient(c, data, n)[..n - 1] == q;
      var t := If(Has(rem, c.Top()), c.Generator());
      TimesXAdd(Multiple(c, q), rem);
      AddBack(TimesX(rem), t);
      AddSwap(TimesX(Multiple(c, q)), Add(TimesX(rem), t), t);
    }
  }

  lemma RoundSmall(c: Code, rem: bv32)
    requires Small(c, rem)
    ensures Small(c, Round(c, rem))
  {
    match c
    case FormatCode => FormatSmall(rem);
    case VersionCode => VersionSmall(rem);
  }

  lemma FormatSmall(rem: bv32)
    requires rem < 0x400
    ensures Add(TimesX(rem), If(Has(rem, 0x200), 0x537)) < 0x400
  {
  }

  lemma VersionSmall(rem: bv32)
    requires rem < 0x1000
    ensures Add(TimesX(rem), If(Has(rem, 0x800), 0x1F25)) < 0x1000
  {
  }

  /** The rest never reaches the data bits. */
  lemma {:induction false} RestSmall(c: Code, data: bv32, n: nat)
    requires Small(c, data)
    ensures Small(c, Rest(c, data, n))
  {
    hide Round, Small;
    if n > 0 {
      RestSmall(c, data, n - 1);
      RoundSmall(c, Rest(c, data, n - 1));
    }
  }

  // ---- the rest is the only choice of check bits ----

  lemma {:induction false} MultipleOfSum(c: Code, a: seq<bool>, b: seq<bool>)
    requires |a| == |b|
    ensures Multiple(c, Sum(a, b)) == Add(Multiple(c, a), Multiple(c, b))
  {
    if a == [] {
      AddZero(0);
    } else {
      hide Add, TimesX, If;
      var n := |a| - 1;
      MultipleOfSum(c, a[..n], b[..n]);
      assert Sum(a, b)[..n] == Sum(a[..n], b[..n]);
      StepSum(Multiple(c, a[..n]), Multiple(c, b[..n]), a[n], b[n], c.Generator());
    }
  }

  function Sum(a: seq<bool>, b: seq<bool>): (d: seq<bool>)
    requires |a| == |b|
    ensures |d| == |a|
  {
    seq(|a|, i requires 0 <= i < |a| => a[i] != b[i])
  }

  /** 2 to the power `k`, from 10 on. */
  function Power(k: nat): bv32
    requires 10 <= k <= 24
  {
    match k
    case 10 => 0x400 case 11 => 0x800 case 12 => 0x1000 case 13 => 0x2000 case 14 => 0x4000 case 15 => 0x8000
    case 16 => 0x1_0000 case 17 => 0x2_0000 case 18 => 0x4_0000 case 19 => 0x8_0000 case 20 => 0x10_0000
    case 21 => 0x20_0000 case 22 => 0x40_0000 case 23 => 0x80_0000 case _ => 0x100_0000
  }

  lemma FormatGrows(p: bv32, bit: bool, k: nat)
    requires 10 <= k < 20 && (p == 0 || 0x400 <= p < Power(k))
    ensures var p' := Add(TimesX(p), If(bit, 0x537)); p' == 0 || 0x400 <= p' < Power(k + 1)
  {
  }

  lemma VersionGrows(p: bv32, bit: bool, k: nat)
    requires 12 <= k < 24 && (p == 0 || 0x1000 <= p < Power(k))
    ensures var p' := Add(TimesX(p), If(bit, 0x1F25)); p' == 0 || 0x1000 <= p' < Power(k + 1)
  {
  }

  /** Zero, or as large as the generator at least and of `n` more bits at most. */
  predicate Large(c: Code, p: bv32, n: nat)
    requires n <= c.Degree()
  {
    p == 0 || c.Leading() <= p < Power(c.Degree() + n)
  }

  lemma Grows(c: Code, p: bv32, bit: bool, n: nat)
    requires n < c.Degree() && Large(c, p, n)
    ensures Large(c, Add(TimesX(p), If(bit, c.Generator())), n + 1)
  {
    hide Add, TimesX, If, Power;
    match c
    case FormatCode => FormatGrows(p, bit, 10 + n);
    case VersionCode => VersionGrows(p, bit, 12 + n);
  }

  /** Every multiple of the generator is large. */
  lemma {:induction false} MultipleLarge(c: Code, q: seq<bool>)
    requires |q| <= c.Degree()
    ensures Large(c, Multiple(c, q), |q|)
  {
    if q == [] {
      assert Multiple(c, q) == 0;
    } else {
      hide Add, TimesX, If, Large;
      var n := |q| - 1;
      MultipleLarge(c, q[..n]);
      Grows(c, Multiple(c, q[..n]), q[n], n);
    }
  }

  /** The rest is the one choice of check bits that makes data followed by them a multiple of the generator. */
  lemma RestIff(c: Code, data: bv32, check: bv32)
    requires Small(c, data) && Small(c, check)
    ensures IsMultiple(c, Add(Shifted(data, c.Degree()), check)) <==> check == Rest(c, data, c.Degree())
  {
    var rem, q, high := Rest(c, data, c.Degree()), Quotient(c, data, c.Degree()), Shifted(data, c.Degree());
    RestSmall(c, data, c.Degree());
    Division(c, data, c.Degree());
    hide Add, Rest, Multiple, Quotient, Shifted, Small;
    AddBack(Multiple(c, q), rem);
    assert IsMultiple(c, Add(high, rem));
    if IsMultiple(c, Add(high, check)) {
      var q' :| |q'| == c.Degree() && Multiple(c, q') == Add(high, check);
      SameCheck(c, high, rem, check, q, q');
    }
  }

  lemma SameCheck(c: Code, high: bv32, a: bv32, b: bv32, q: seq<bool>, q': seq<bool>)
    requires Small(c, a) && Small(c, b) && |q| == |q'| == c.Degree()
    requires Multiple(c, q) == Add(high, a) && Multiple(c, q') == Add(high, b)
    ensures a == b
  {
    hide Add, Multiple, Power;
    MultipleOfSum(c, q, q');
    MultipleLarge(c, Sum(q, q'));
    SameHigh(c, high, a, b);
  }

  lemma SameHigh(c: Code, high: bv32, a: bv32, b: bv32)
    requires Small(c, a) && Small(c, b)
    requires Add(Add(high, a), Add(high, b)) == 0 || c.Leading() <= Add(Add(high, a), Add(high, b))
    ensures a == b
  {
    hide Add;
    AddComm(high, a);
    AddComm(high, b);
    CommonCancels(a, b, high);
    SmallAdd(c, a, b);
    AddCancels(a, b);
  }

  lemma SmallAdd(c: Code, a: bv32, b: bv32)
    requires Small(c, a) && Small(c, b)
    ensures Small(c, Add(a, b))
  {
  }

  // ---- words add to words ----

  lemma HasAdd(c: Code, a: bv32, b: bv32)
    ensures Has(Add(a, b), c.Top()) == (Has(a, c.Top()) != Has(b, c.Top()))
  {
  }

  lemma {:induction false} RestAdd(c: Code, a: bv32, b: bv32, n: nat)
    ensures Rest(c, Add(a, b), n) == Add(Rest(c, a, n), Rest(c, b, n))
  {
    hide Add, If, Has, TimesX;
    if n > 0 {
      RestAdd(c, a, b, n - 1);
      var r, s := Rest(c, a, n - 1), Rest(c, b, n - 1);
      HasAdd(c, r, s);
      StepSum(r, s, Has(r, c.Top()), Has(s, c.Top()), c.Generator());
    }
  }

  lemma WordAdd(c: Code, a: bv32, b: bv32)
    ensures Word(c, Add(a, b)) == Add(Word(c, a), Word(c, b))
  {
    hide Add, Shifted, Rest;
    ShiftedAdd(a, b, c.Degree());
    RestAdd(c, a, b, c.Degree());
    Rearrange(Shifted(a, c.Degree()), Shifted(b, c.Degree()), Rest(c, a, c.Degree()), Rest(c, b, c.Degree()));
  }

  /** Doubling data that is small enough doubles its word: there is one round more, and it is round-free at the top. */
  lemma {:induction false} RestDouble(c: Code, data: bv32, n: nat)
    requires !Has(data, c.Top())
    ensures Rest(c, TimesX(data), n) == Rest(c, data, n + 1)
  {
    if n > 0 {
      hide Round, TimesX;
      RestDouble(c, data, n - 1);
    } else {
      AddZero(TimesX(data));
      AddComm(0, TimesX(data));
      assert Rest(c, data, 1) == Round(c, Rest(c, data, 0));
    }
  }
}
