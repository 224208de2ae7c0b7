/**
 * Exact rationals over int64 (rational.hpp, rational.cpp).
 *
 * A `Rational` is kept in canonical form: numerator and denominator are int64
 * values, the denominator is positive and the two are coprime. Every
 * operation either returns a canonical rational whose value is the exact
 * mathematical result, or fails (DivisionByZero / Overflow) without producing
 * a value. The mathematical value is the ghost `Val()`.
 *
 * Each arithmetic operation `X` is stated once and computed by `XAt(..., depth)`,
 * whose recursion on `depth` only counts down to the source's algorithm. The
 * depth is never a literal at a call site, so the verifier uses the contract of
 * `X` and does not expand the int64 arithmetic of its body into the proofs of
 * callers (this keeps matrix-level proofs about values small).
 */
module Rationals {

  import opened Errors
  import opened Int64
  import opened NumberTheory

  datatype Rational = Rational(num: int, den: int)
  {
    /** Canonical form: int64 parts, den >= 1, gcd(|num|, den) == 1. */
    predicate Valid() {
      InRange(num) && 1 <= den <= MAX && Coprime(UAbs(num), den)
    }

    ghost function Val(): real
      requires den != 0
    {
      Q(num, den)
    }

    /** Rational::is_zero */
    predicate IsZero() { num == 0 }

    /** is_one (row_reduction.cpp): the canonical form of 1. */
    predicate IsOne() { num == 1 && den == 1 }
  }

  const Zero := Rational(0, 1)
  const One := Rational(1, 1)

  /**
   * The real number n / d.
   *
   * The quotient is reached through `QAt`, a recursion whose depth is not a
   * literal, so the verifier sees `Q(n, d)` as an opaque real and expands the
   * quotient only where `QDef` is invoked. Proofs that merely pass values
   * around then stay free of mixed integer/real nonlinear arithmetic.
   */
  ghost function Q(n: int, d: int): real
    requires d != 0
  {
    QAt(n, d, UAbs(d))
  }

  ghost function QAt(n: int, d: int, depth: nat): real
    requires d != 0
    decreases depth
  {
    if depth == 0 then n as real / d as real else QAt(n, d, depth - 1)
  }

  lemma {:induction false} QAtQuotient(n: int, d: int, depth: nat)
    requires d != 0
    ensures QAt(n, d, depth) == n as real / d as real
    decreases depth
  {
    if depth > 0 {
      QAtQuotient(n, d, depth - 1);
    }
  }

  lemma QDef(n: int, d: int)
    requires d != 0
    ensures Q(n, d) == n as real / d as real
  {
    QAtQuotient(n, d, UAbs(d));
  }

  /** Rational::from_int: the integer v with denominator 1. */
  function FromInt(v: int): (r: Rational)
    requires InRange(v)
    ensures r.Valid() && r.Val() == v as real
    ensures r.IsZero() <==> v == 0
  {
    CoprimeOne(UAbs(v));
    Rational(v, 1)
  }

  /** Turns the result of an overflow check into the Overflow error. */
  function Checked(o: Option<int>): (r: Result<int>)
    ensures r.Success? <==> o.Some?
    ensures r.Success? ==> r.value == o.value
    ensures r.Failure? ==> r.code == Overflow
  {
    match o
    case None => Failure(Overflow)
    case Some(v) => Success(v)
  }

  // ---------------------------------------------------------------------
  // normalize / Rational::make
  // ---------------------------------------------------------------------

  /**
   * Rational::make(num, den) through normalize: zero denominator is
   * DivisionByZero; zero numerator gives 0/1; a negative denominator is
   * negated together with the numerator (Overflow when either is INT64_MIN);
   * then both are divided by their gcd.
   */
  function Make(num: int, den: int): (r: Result<Rational>)
    requires InRange(num) && InRange(den)
    ensures r.Failure? ==> r.code == DivisionByZero || r.code == Overflow
    ensures r.Failure? && r.code == DivisionByZero <==> den == 0
    ensures r.Failure? && r.code == Overflow <==>
              num != 0 && den < 0 && (den == MIN || num == MIN)
    ensures num == 0 && den != 0 ==> r == Success(Zero)
    ensures r.Success? ==> r.value.Valid() && r.value.Val() == Q(num, den)
  {
    MakeAt(num, den, UAbs(den))
  }

  function MakeAt(num: int, den: int, depth: nat): (r: Result<Rational>)
    requires InRange(num) && InRange(den)
    ensures r.Failure? ==> r.code == DivisionByZero || r.code == Overflow
    ensures r.Failure? && r.code == DivisionByZero <==> den == 0
    ensures r.Failure? && r.code == Overflow <==>
              num != 0 && den < 0 && (den == MIN || num == MIN)
    ensures num == 0 && den != 0 ==> r == Success(Zero)
    ensures r.Success? ==> r.value.Valid() && r.value.Val() == Q(num, den)
    decreases depth
  {
    if depth > 0 then MakeAt(num, den, depth - 1) else
    if den == 0 then Failure(DivisionByZero)
    else if num == 0 then
      CoprimeOne(0);
      QDef(num, den);
      QDef(0, 1);
      Success(Zero)
    else if den < 0 && den == MIN then Failure(Overflow)
    else if den < 0 && num == MIN then Failure(Overflow)
    else
      var n := if den < 0 then -num else num;
      var d := if den < 0 then -den else den;
      assert Q(n, d) == Q(num, den) by {
        if den < 0 { QScale(num, den, -1); }
      }
      Reduce(n, d)
  }

  /** The gcd-division step of normalize, for a positive denominator. */
  function Reduce(n: int, d: int): (r: Result<Rational>)
    requires InRange(n) && 1 <= d <= MAX
    ensures r.Success? && r.value.Valid() && r.value.Val() == Q(n, d)
  {
    var g := Gcd(UAbs(n), d);
    GcdQuotientsCoprime(UAbs(n), d);
    if g > 1 then
      ReduceCorrect(n, d, g);
      Success(Rational(TDiv(n, g), d / g))
    else
      GcdPositive(UAbs(n), d);
      CoprimeDef(UAbs(n), d);
      Success(Rational(n, d))
  }

  lemma {:induction false} ReduceCorrect(n: int, d: int, g: nat)
    requires InRange(n) && 1 <= d <= MAX && g == Gcd(UAbs(n), d) && g > 1
    ensures Rational(TDiv(n, g), d / g).Valid()
    ensures Q(TDiv(n, g), d / g) == Q(n, d)
  {
    GcdDivides(UAbs(n), d);
    GcdQuotientsCoprime(UAbs(n), d);
    var n' := TDiv(n, g);
    var d' := d / g;
    DividesWitness(g, d);
    TDivExact(n, g);
    assert UAbs(n') == UAbs(n) / g;
    assert n == g * n';
    assert d == g * d';
    assert 1 <= d' <= d by { DivShrinks(d, g); }
    assert UAbs(n') <= UAbs(n) by { DivShrinks(UAbs(n), g); }
    assert Q(n, d) == Q(n' * g, d' * g);
    QScale(n', d', g);
  }

  /** Exact truncating division by a positive divisor. */
  lemma {:induction false} TDivExact(x: int, g: nat)
    requires Divides(g, UAbs(x))
    ensures x == g * TDiv(x, g)
    ensures UAbs(TDiv(x, g)) == UAbs(x) / g
  {
    DividesWitness(g, UAbs(x));
    if x < 0 {
      assert TDiv(x, g) == -((-x) / g);
    }
  }

  lemma {:induction false} DivShrinks(x: nat, g: nat)
    requires g >= 1
    ensures x / g <= x
    ensures x >= 1 && Divides(g, x) ==> x / g >= 1
  {
    var q := x / g;
    assert x == g * q + x % g;
    if q > x {
      MulMono(1, g, q);
    }
    if x >= 1 && Divides(g, x) && q < 1 {
      assert q <= 0;
      MulMono(q, 0, g);
    }
  }

  // ---------------------------------------------------------------------
  // Real-number facts about Q
  // ---------------------------------------------------------------------

  lemma QScale(n: int, d: int, k: int)
    requires d != 0 && k != 0
    ensures Q(n * k, d * k) == Q(n, d)
  {
    QDef(n * k, d * k);
    QDef(n, d);
    assert (n * k) as real == n as real * k as real;
    assert (d * k) as real == d as real * k as real;
  }

  lemma QCross(a: int, b: int, c: int, d: int)
    requires b != 0 && d != 0
    ensures Q(a, b) == Q(c, d) <==> a * d == c * b
  {
    QDef(a, b);
    QDef(c, d);
    assert (a * d) as real == a as real * d as real;
    assert (c * b) as real == c as real * b as real;
    assert Q(a, b) * (b as real * d as real) == (a * d) as real;
    assert Q(c, d) * (b as real * d as real) == (c * b) as real;
  }

  lemma QSameDen(x: int, y: int, d: int)
    requires d != 0
    ensures Q(x, d) + Q(y, d) == Q(x + y, d)
    ensures Q(x, d) - Q(y, d) == Q(x - y, d)
  {
    QDef(x, d);
    QDef(y, d);
    QDef(x + y, d);
    QDef(x - y, d);
  }

  lemma QMul(a: int, b: int, c: int, d: int)
    requires b != 0 && d != 0
    ensures Q(a, b) * Q(c, d) == Q(a * c, b * d)
  {
    QDef(a, b);
    QDef(c, d);
    QDef(a * c, b * d);
    assert (a * c) as real == a as real * c as real;
    assert (b * d) as real == b as real * d as real;
  }

  /**
   * The common-denominator scheme of rational_add / rational_sub:
   * with ad = g*adg and bd = g*bdg, a/ad +- b/bd == (a*bdg +- b*adg) / (adg*bd).
   */
  lemma {:induction false} QCommonDen(an: int, ad: int, bn: int, bd: int, g: int, adg: int, bdg: int)
    requires g != 0 && adg != 0 && bdg != 0 && ad == g * adg && bd == g * bdg
    ensures Q(an, ad) + Q(bn, bd) == Q(an * bdg + bn * adg, adg * bd)
    ensures Q(an, ad) - Q(bn, bd) == Q(an * bdg - bn * adg, adg * bd)
  {
    var D := adg * bd;
    SwapFactor(g, adg, bdg);
    QScale(an, ad, bdg);
    QScale(bn, bd, adg);
    QSameDen(an * bdg, bn * adg, D);
  }

  // ---------------------------------------------------------------------
  // Canonical form is unique
  // ---------------------------------------------------------------------

  /** (g*x)*y == x*(g*y) */
  lemma SwapFactor(g: int, x: int, y: int)
    ensures (g * x) * y == x * (g * y)
  {
  }

  /** Two canonical rationals with the same value are the same pair. */
  lemma {:induction false} ValInjective(a: Rational, b: Rational)
    requires a.Valid() && b.Valid() && a.Val() == b.Val()
    ensures a == b
  {
    QCross(a.num, a.den, b.num, b.den);
    assert a.num * b.den == b.num * a.den;
    DenDivides(a, b);
    DenDivides(b, a);
    DividesBound(a.den, b.den);
    DividesBound(b.den, a.den);
    assert a.den == b.den;
    assert (a.num - b.num) * a.den == 0;
  }

  lemma {:induction false} DenDivides(a: Rational, b: Rational)
    requires a.Valid() && b.Valid() && a.num * b.den == b.num * a.den
    ensures Divides(a.den, b.den)
  {
    var m := UAbs(a.num);
    MultipleDivides(a.den, b.num);
    assert Divides(a.den, a.num * b.den) by {
      assert a.num * b.den == a.den * b.num;
    }
    assert Divides(a.den, m * b.den) by {
      if a.num < 0 {
        DividesNeg(a.den, a.num * b.den);
        assert m * b.den == -(a.num * b.den);
      }
    }
    CoprimeDividesProduct(a.den, m, b.den);
  }

  /** is_zero and is_one decide the value of a canonical rational. */
  lemma ZeroOneByValue(a: Rational)
    requires a.Valid()
    ensures a.IsZero() <==> a.Val() == 0.0
    ensures a.IsOne() <==> a.Val() == 1.0
  {
    CoprimeOne(0);
    CoprimeOne(1);
    QDef(a.num, a.den);
    QDef(0, 1);
    QDef(1, 1);
    if a.Val() == 0.0 { ValInjective(a, Zero); }
    if a.Val() == 1.0 { ValInjective(a, One); }
  }

  /** The sign of a canonical rational is the sign of its numerator. */
  lemma ValSign(a: Rational)
    requires a.Valid()
    ensures a.num > 0 <==> a.Val() > 0.0
    ensures a.num < 0 <==> a.Val() < 0.0
  {
    QDef(a.num, a.den);
    var n := a.num as real;
    var d := a.den as real;
    assert d > 0.0;
    assert a.Val() * d == n;
  }

  // ---------------------------------------------------------------------
  // Arithmetic
  // ---------------------------------------------------------------------

  /** rational_neg: fails only on INT64_MIN, otherwise the exact negation. */
  function Neg(a: Rational): (r: Result<Rational>)
    requires a.Valid()
    ensures r.Failure? <==> a.num == MIN
    ensures r.Failure? ==> r.code == Overflow
    ensures r.Success? ==> r.value.Valid() && r.value.Val() == -a.Val()
  {
    if a.num == MIN then Failure(Overflow)
    else
      QDef(-a.num, a.den);
      QDef(a.num, a.den);
      Make(-a.num, a.den)
  }

  /** rational_add: a/ad + b/bd with g = gcd(ad, bd), every step overflow-checked. */
  function Add(a: Rational, b: Rational): (r: Result<Rational>)
    requires a.Valid() && b.Valid()
    ensures r.Failure? ==> r.code == Overflow
    ensures AddFits(a, b) ==> r.Success?
    ensures r.Success? ==> r.value.Valid() && r.value.Val() == a.Val() + b.Val()
  {
    AddAt(a, b, a.den)
  }

  function AddAt(a: Rational, b: Rational, depth: nat): (r: Result<Rational>)
    requires a.Valid() && b.Valid()
    ensures r.Failure? ==> r.code == Overflow
    ensures AddFits(a, b) ==> r.Success?
    ensures r.Success? ==> r.value.Valid() && r.value.Val() == a.Val() + b.Val()
    decreases depth
  {
    if depth > 0 then AddAt(a, b, depth - 1) else
    var g := Gcd(a.den, b.den);
    GcdDivides(a.den, b.den);
    DividesWitness(g, a.den);
    DividesWitness(g, b.den);
    DivShrinks(a.den, g);
    DivShrinks(b.den, g);
    var adg := a.den / g;
    var bdg := b.den / g;
    CommonDenFits(a.num, a.den, b.num, b.den, g, adg, bdg);
    var t1 :- Checked(CheckedMul(a.num, bdg));
    var t2 :- Checked(CheckedMul(b.num, adg));
    var n :- Checked(CheckedAdd(t1, t2));
    var d :- Checked(CheckedMul(adg, b.den));
    QCommonDen(a.num, a.den, b.num, b.den, g, adg, bdg);
    Make(n, d)
  }

  /** rational_sub: computed directly (not as a + (-b)), every step overflow-checked. */
  function Sub(a: Rational, b: Rational): (r: Result<Rational>)
    requires a.Valid() && b.Valid()
    ensures r.Failure? ==> r.code == Overflow
    ensures SubFits(a, b) ==> r.Success?
    ensures r.Success? ==> r.value.Valid() && r.value.Val() == a.Val() - b.Val()
  {
    SubAt(a, b, a.den)
  }

  function SubAt(a: Rational, b: Rational, depth: nat): (r: Result<Rational>)
    requires a.Valid() && b.Valid()
    ensures r.Failure? ==> r.code == Overflow
    ensures SubFits(a, b) ==> r.Success?
    ensures r.Success? ==> r.value.Valid() && r.value.Val() == a.Val() - b.Val()
    decreases depth
  {
    if depth > 0 then SubAt(a, b, depth - 1) else
    var g := Gcd(a.den, b.den);
    GcdDivides(a.den, b.den);
    DividesWitness(g, a.den);
    DividesWitness(g, b.den);
    DivShrinks(a.den, g);
    DivShrinks(b.den, g);
    var adg := a.den / g;
    var bdg := b.den / g;
    CommonDenFits(a.num, a.den, b.num, b.den, g, adg, bdg);
    var t1 :- Checked(CheckedMul(a.num, bdg));
    var t2 :- Checked(CheckedMul(b.num, adg));
    var n :- Checked(CheckedSub(t1, t2));
    var d :- Checked(CheckedMul(adg, b.den));
    QCommonDen(a.num, a.den, b.num, b.den, g, adg, bdg);
    Make(n, d)
  }

  /** rational_mul: cross-reduce by gcd(|an|, bd) and gcd(|bn|, ad) before multiplying. */
  function Mul(a: Rational, b: Rational): (r: Result<Rational>)
    requires a.Valid() && b.Valid()
    ensures r.Failure? ==> r.code == Overflow
    ensures MulFits(a, b) ==> r.Success?
    ensures r.Success? ==> r.value.Valid() && r.value.Val() == a.Val() * b.Val()
  {
    MulAt(a, b, a.den)
  }

  function MulAt(a: Rational, b: Rational, depth: nat): (r: Result<Rational>)
    requires a.Valid() && b.Valid()
    ensures r.Failure? ==> r.code == Overflow
    ensures MulFits(a, b) ==> r.Success?
    ensures r.Success? ==> r.value.Valid() && r.value.Val() == a.Val() * b.Val()
    decreases depth
  {
    if depth > 0 then MulAt(a, b, depth - 1) else
    var g1 := Gcd(UAbs(a.num), b.den);
    var g2 := Gcd(UAbs(b.num), a.den);
    CrossReduce(a.num, b.den);
    CrossReduce(b.num, a.den);
    var an := TDiv(a.num, g1);
    var bd := b.den / g1;
    var bn := TDiv(b.num, g2);
    var ad := a.den / g2;
    CrossReducedFits(a, b, g1, g2, an, bd, bn, ad);
    var n :- Checked(CheckedMul(an, bn));
    var d :- Checked(CheckedMul(ad, bd));
    MulExact(a, b, g1, g2, an, bd, bn, ad);
    Make(n, d)
  }

  /** Dividing a numerator and a (foreign) denominator by their gcd stays in int64. */
  lemma {:induction false} CrossReduce(n: int, d: int)
    requires InRange(n) && 1 <= d <= MAX
    ensures Gcd(UAbs(n), d) >= 1
    ensures n == Gcd(UAbs(n), d) * TDiv(n, Gcd(UAbs(n), d))
    ensures d == Gcd(UAbs(n), d) * (d / Gcd(UAbs(n), d))
    ensures InRange(TDiv(n, Gcd(UAbs(n), d)))
    ensures 1 <= d / Gcd(UAbs(n), d) <= d
  {
    var g := Gcd(UAbs(n), d);
    GcdDivides(UAbs(n), d);
    TDivExact(n, g);
    DividesWitness(g, d);
    DivShrinks(d, g);
    DivShrinks(UAbs(n), g);
  }

  lemma {:induction false} MulExact(a: Rational, b: Rational, g1: int, g2: int, an: int, bd: int, bn: int, ad: int)
    requires a.den != 0 && b.den != 0 && g1 != 0 && g2 != 0
    requires a.num == g1 * an && b.den == g1 * bd && b.num == g2 * bn && a.den == g2 * ad
    ensures ad * bd != 0
    ensures Q(an * bn, ad * bd) == a.Val() * b.Val()
  {
    QMul(a.num, a.den, b.num, b.den);
    Regroup(g1, an, g2, bn);
    Regroup(g2, ad, g1, bd);
    QScale(an * bn, ad * bd, g1 * g2);
  }

  /** (p * x) * (q * y) == (x * y) * (p * q), in the form the cross-reduction needs. */
  lemma Regroup(p: int, x: int, q: int, y: int)
    ensures (p * x) * (q * y) == (x * y) * (p * q)
    ensures (p * x) * (q * y) == (x * y) * (q * p)
  {
  }

  /** rational_div: zero divisor is DivisionByZero; otherwise multiply by make(den, num). */
  function Div(a: Rational, b: Rational): (r: Result<Rational>)
    requires a.Valid() && b.Valid()
    ensures r.Failure? ==> r.code == DivisionByZero || r.code == Overflow
    ensures r.Failure? && r.code == DivisionByZero <==> b.IsZero()
    ensures b.num == MIN ==> r == Failure(Overflow)
    ensures DivFits(a, b) ==> r.Success?
    ensures r.Success? ==> r.value.Valid()
    ensures r.Success? ==> b.Val() != 0.0 && r.value.Val() == a.Val() / b.Val()
  {
    DivAt(a, b, a.den)
  }

  function DivAt(a: Rational, b: Rational, depth: nat): (r: Result<Rational>)
    requires a.Valid() && b.Valid()
    ensures r.Failure? ==> r.code == DivisionByZero || r.code == Overflow
    ensures r.Failure? && r.code == DivisionByZero <==> b.IsZero()
    ensures b.num == MIN ==> r == Failure(Overflow)
    ensures DivFits(a, b) ==> r.Success?
    ensures r.Success? ==> r.value.Valid()
    ensures r.Success? ==> b.Val() != 0.0 && r.value.Val() == a.Val() / b.Val()
    decreases depth
  {
    if depth > 0 then DivAt(a, b, depth - 1) else
    if b.IsZero() then Failure(DivisionByZero)
    else
      var recip :- Recip(b);
      MulByReciprocal(a, b, recip);
      DivFitsMul(a, b, recip);
      Mul(a, recip)
  }

  /** Multiplying by the reciprocal divides. */
  lemma MulByReciprocal(a: Rational, b: Rational, recip: Rational)
    requires a.Valid() && b.Valid() && recip.Valid()
    requires b.Val() != 0.0 && recip.Val() == 1.0 / b.Val()
    ensures Mul(a, recip).Success? ==> Mul(a, recip).value.Val() == a.Val() / b.Val()
  {
    var r := Mul(a, recip);
    if r.Success? {
      DivideByMultiplying(a.Val(), recip.Val(), b.Val(), r.value.Val());
    }
  }

  /** make(b.den, b.num): the reciprocal of a nonzero canonical rational, or Overflow. */
  function Recip(b: Rational): (r: Result<Rational>)
    requires b.Valid() && !b.IsZero()
    ensures r.Failure? ==> r.code == Overflow
    ensures r.Failure? <==> b.num == MIN
    ensures b.Val() != 0.0
    ensures r.Success? ==> r.value.Valid() && r.value.Val() == 1.0 / b.Val()
    ensures r.Success? ==> r.value == Rational(if b.num < 0 then -b.den else b.den, UAbs(b.num))
  {
    var r := Make(b.den, b.num);
    Reciprocal(b, r);
    if r.Success? then RecipCanonical(b, r.value); r else r
  }

  lemma Reciprocal(b: Rational, r: Result<Rational>)
    requires b.Valid() && !b.IsZero()
    requires r.Success? ==> r.value.Valid() && r.value.Val() == Q(b.den, b.num)
    ensures b.Val() != 0.0
    ensures r.Success? ==> r.value.Val() == 1.0 / b.Val()
  {
    ZeroOneByValue(b);
    if r.Success? {
      QMul(b.den, b.num, b.num, b.den);
      assert b.num * b.den != 0;
      QDef(b.den * b.num, b.num * b.den);
      assert r.value.Val() * b.Val() == 1.0;
    }
  }

  lemma DivideByMultiplying(x: real, y: real, z: real, w: real)
    requires z != 0.0 && y == 1.0 / z && w == x * y
    ensures z != 0.0 && w == x / z
  {
  }

  // ---------------------------------------------------------------------
  // When the checked arithmetic succeeds
  // ---------------------------------------------------------------------

  /**
   * The unreduced cross products of a/ad + b/bd fit in int64. rational_add
   * divides the denominators by gcd(ad, bd) before multiplying, so every
   * checked step then stays in range as well.
   */
  predicate AddFits(a: Rational, b: Rational) {
    InRange(a.num * b.den) && InRange(b.num * a.den)
    && InRange(a.num * b.den + b.num * a.den) && InRange(a.den * b.den)
  }

  /** The same for a/ad - b/bd. */
  predicate SubFits(a: Rational, b: Rational) {
    InRange(a.num * b.den) && InRange(b.num * a.den)
    && InRange(a.num * b.den - b.num * a.den) && InRange(a.den * b.den)
  }

  /** The products of numerators and of denominators fit before cross-reduction. */
  predicate MulFits(a: Rational, b: Rational) {
    InRange(a.num * b.num) && InRange(a.den * b.den)
  }

  /**
   * a / b multiplies by b's reciprocal (+-bd)/|bn|: b is nonzero, its
   * numerator can be negated, and both sign choices of an * bd as well as
   * ad * |bn| fit.
   */
  predicate DivFits(a: Rational, b: Rational) {
    b.num != 0 && b.num != MIN
    && -MAX <= a.num * b.den <= MAX && InRange(a.den * UAbs(b.num))
  }

  /** Dividing out a positive factor never leaves the int64 range. */
  lemma {:induction false} FitsReduced(g: int, x: int)
    requires g >= 1 && InRange(g * x)
    ensures InRange(x)
  {
    if x >= 0 {
      MulMono(1, g, x);
    } else {
      MulMono(1, g, -x);
    }
  }

  /** The checked steps of add/sub fit whenever the unreduced ones do. */
  lemma {:induction false} CommonDenFits(an: int, ad: int, bn: int, bd: int, g: int, adg: int, bdg: int)
    requires g >= 1 && adg >= 1 && bd >= 1 && ad == g * adg && bd == g * bdg
    ensures adg * bd >= 1
    ensures InRange(an * bd) ==> InRange(an * bdg)
    ensures InRange(bn * ad) ==> InRange(bn * adg)
    ensures InRange(an * bd + bn * ad) ==> InRange(an * bdg + bn * adg)
    ensures InRange(an * bd - bn * ad) ==> InRange(an * bdg - bn * adg)
    ensures InRange(ad * bd) ==> InRange(adg * bd)
  {
    MulMono(1, adg, bd);
    assert an * bd == g * (an * bdg);
    assert bn * ad == g * (bn * adg);
    assert an * bd + bn * ad == g * (an * bdg + bn * adg);
    assert an * bd - bn * ad == g * (an * bdg - bn * adg);
    assert ad * bd == g * (adg * bd);
    if InRange(an * bd) { FitsReduced(g, an * bdg); }
    if InRange(bn * ad) { FitsReduced(g, bn * adg); }
    if InRange(an * bd + bn * ad) { FitsReduced(g, an * bdg + bn * adg); }
    if InRange(an * bd - bn * ad) { FitsReduced(g, an * bdg - bn * adg); }
    if InRange(ad * bd) { FitsReduced(g, adg * bd); }
  }

  /** The checked steps of mul fit whenever the unreduced products do. */
  lemma {:induction false} CrossReducedFits(a: Rational, b: Rational, g1: int, g2: int, an: int, bd: int, bn: int, ad: int)
    requires g1 >= 1 && g2 >= 1 && bd >= 1 && ad >= 1
    requires a.num == g1 * an && b.den == g1 * bd && b.num == g2 * bn && a.den == g2 * ad
    ensures ad * bd >= 1
    ensures MulFits(a, b) ==> InRange(an * bn) && InRange(ad * bd)
  {
    MulMono(1, ad, bd);
    MulMono(1, g1, g2);
    Regroup(g1, an, g2, bn);
    Regroup(g2, ad, g1, bd);
    if MulFits(a, b) {
      FitsReduced(g1 * g2, an * bn);
      FitsReduced(g2 * g1, ad * bd);
    }
  }

  /** gcd is symmetric on the pairs a canonical rational can hold. */
  lemma {:induction false} CoprimeSwap(x: nat, y: nat)
    requires x >= 1 && y >= 1 && Coprime(x, y)
    ensures Coprime(y, x)
  {
    CoprimeDef(x, y);
    CoprimeDef(y, x);
    var g := Gcd(y, x);
    GcdDivides(y, x);
    GcdGreatest(x, y, g);
    DividesBound(g, 1);
  }

  /** make(bd, bn) of a canonical nonzero b is bd/bn with the sign moved up. */
  lemma {:induction false} RecipCanonical(b: Rational, recip: Rational)
    requires b.Valid() && !b.IsZero() && b.num != MIN
    requires recip.Valid() && recip.Val() == Q(b.den, b.num)
    ensures recip == Rational(if b.num < 0 then -b.den else b.den, UAbs(b.num))
  {
    var c := Rational(if b.num < 0 then -b.den else b.den, UAbs(b.num));
    CoprimeSwap(UAbs(b.num), b.den);
    assert c.Valid();
    if b.num < 0 {
      QScale(b.den, b.num, -1);
    }
    ValInjective(recip, c);
  }

  /** DivFits makes the multiplication by the reciprocal fit. */
  lemma DivFitsMul(a: Rational, b: Rational, recip: Rational)
    requires a.Valid() && b.Valid() && b.num != MIN && b.num != 0
    requires recip == Rational(if b.num < 0 then -b.den else b.den, UAbs(b.num))
    ensures DivFits(a, b) ==> MulFits(a, recip)
  {
    assert a.num * -b.den == -(a.num * b.den);
  }

  /** An integer n is canonical as n/1. */
  lemma IntegerCanonical(n: int)
    requires InRange(n)
    ensures Rational(n, 1).Valid() && Rational(n, 1).Val() == n as real
  {
    CoprimeOne(UAbs(n));
    QDef(n, 1);
  }

  /** A canonical rational whose value is an integer n holds n itself, so n fits. */
  lemma {:induction false} IntegerValueFits(v: Rational, n: int)
    requires v.Valid() && v.Val() == n as real
    ensures InRange(n)
  {
    QDef(v.num, v.den);
    assert v.num as real == n as real * v.den as real;
    assert v.num == v.den * n;
    FitsReduced(v.den, n);
  }

  /** On integers rational_add is exactly the overflow-checked int64 sum. */
  lemma IntegerAdd(x: int, y: int)
    requires InRange(x) && InRange(y)
    ensures Add(Rational(x, 1), Rational(y, 1)).Success? <==> InRange(x + y)
    ensures InRange(x + y) ==> Add(Rational(x, 1), Rational(y, 1)) == Success(Rational(x + y, 1))
  {
    var a, b := Rational(x, 1), Rational(y, 1);
    IntegerCanonical(x);
    IntegerCanonical(y);
    if InRange(x + y) {
      IntegerCanonical(x + y);
      QDef(x, 1);
      QDef(y, 1);
      ValInjective(Add(a, b).value, Rational(x + y, 1));
    } else if Add(a, b).Success? {
      QDef(x, 1);
      QDef(y, 1);
      IntegerValueFits(Add(a, b).value, x + y);
    }
  }

  /** On integers rational_sub is exactly the overflow-checked int64 difference. */
  lemma IntegerSub(x: int, y: int)
    requires InRange(x) && InRange(y)
    ensures Sub(Rational(x, 1), Rational(y, 1)).Success? <==> InRange(x - y)
    ensures InRange(x - y) ==> Sub(Rational(x, 1), Rational(y, 1)) == Success(Rational(x - y, 1))
  {
    var a, b := Rational(x, 1), Rational(y, 1);
    IntegerCanonical(x);
    IntegerCanonical(y);
    if InRange(x - y) {
      IntegerCanonical(x - y);
      QDef(x, 1);
      QDef(y, 1);
      ValInjective(Sub(a, b).value, Rational(x - y, 1));
    } else if Sub(a, b).Success? {
      QDef(x, 1);
      QDef(y, 1);
      IntegerValueFits(Sub(a, b).value, x - y);
    }
  }

  /** On integers rational_mul is exactly the overflow-checked int64 product. */
  lemma IntegerMul(x: int, y: int)
    requires InRange(x) && InRange(y)
    ensures Mul(Rational(x, 1), Rational(y, 1)).Success? <==> InRange(x * y)
    ensures InRange(x * y) ==> Mul(Rational(x, 1), Rational(y, 1)) == Success(Rational(x * y, 1))
  {
    var a, b := Rational(x, 1), Rational(y, 1);
    IntegerCanonical(x);
    IntegerCanonical(y);
    if InRange(x * y) {
      IntegerCanonical(x * y);
      QMul(x, 1, y, 1);
      ValInjective(Mul(a, b).value, Rational(x * y, 1));
    } else if Mul(a, b).Success? {
      QMul(x, 1, y, 1);
      QDef(x * y, 1);
      assert false;
    }
  }

  /** The worked cases of the rational tests, including their overflow cases. */
  lemma ArithmeticExamples()
    ensures Add(Rational(1, 2), Rational(1, 3)) == Success(Rational(5, 6))
    ensures Mul(Rational(3, 4), Rational(2, 3)) == Success(Rational(1, 2))
    ensures Div(Rational(3, 4), Rational(2, 3)) == Success(Rational(9, 8))
    ensures Add(Rational(MAX, 1), One) == Failure(Overflow)
    ensures Sub(Zero, Rational(MIN, 1)) == Failure(Overflow)
    ensures Mul(Rational(MAX, 1), Rational(2, 1)) == Failure(Overflow)
  {
    IntegerAdd(MAX, 1);
    IntegerSub(0, MIN);
    IntegerMul(MAX, 2);
    ExampleFractions();
  }

  lemma ExampleFractions()
    ensures Add(Rational(1, 2), Rational(1, 3)) == Success(Rational(5, 6))
    ensures Mul(Rational(3, 4), Rational(2, 3)) == Success(Rational(1, 2))
    ensures Div(Rational(3, 4), Rational(2, 3)) == Success(Rational(9, 8))
  {
    var h, t, q, tt := Rational(1, 2), Rational(1, 3), Rational(3, 4), Rational(2, 3);
    SmallCanonical();
    QDef(1, 2); QDef(1, 3); QDef(3, 4); QDef(2, 3); QDef(5, 6); QDef(9, 8);
    assert AddFits(h, t) && MulFits(q, tt) && DivFits(q, tt);
    ValInjective(Add(h, t).value, Rational(5, 6));
    ValInjective(Mul(q, tt).value, Rational(1, 2));
    ValInjective(Div(q, tt).value, Rational(9, 8));
  }

  lemma SmallCanonical()
    ensures Rational(1, 2).Valid() && Rational(1, 3).Valid() && Rational(3, 4).Valid()
    ensures Rational(2, 3).Valid() && Rational(5, 6).Valid() && Rational(9, 8).Valid()
  {
    CoprimeDef(1, 2); CoprimeDef(1, 3); CoprimeDef(3, 4);
    CoprimeDef(2, 3); CoprimeDef(5, 6); CoprimeDef(9, 8);
  }
}
