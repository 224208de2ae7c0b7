/**
 * Euclid's algorithm as used by rational.cpp (gcd_u64, uabs) and the facts
 * about it that normalisation relies on: the gcd divides both arguments, every
 * common divisor divides it, and dividing both arguments by it leaves a
 * coprime pair.
 */
module NumberTheory {

  /** uabs: magnitude of a signed value, well defined for INT64_MIN too. */
  function UAbs(x: int): nat { if x < 0 then -x else x }

  /** gcd_u64: `while (b != 0) { t = a % b; a = b; b = t; } return a;` */
  function Gcd(a: nat, b: nat): nat
    decreases b
  {
    if b == 0 then a else Gcd(b, a % b)
  }

  predicate Divides(d: nat, x: int) { d > 0 && x % d == 0 }

  /**
   * gcd(a, b) == 1. The test is reached through `CoprimeAt`, whose recursion
   * depth is not a literal, so the verifier keeps `Coprime` folded (and the
   * `%` of Euclid's algorithm out of unrelated proofs) unless `CoprimeDef`
   * is invoked.
   */
  predicate Coprime(a: nat, b: nat) { CoprimeAt(a, b, b) }

  predicate CoprimeAt(a: nat, b: nat, depth: nat)
    decreases depth
  {
    if depth == 0 then Gcd(a, b) == 1 else CoprimeAt(a, b, depth - 1)
  }

  lemma {:induction false} CoprimeAtDef(a: nat, b: nat, depth: nat)
    ensures CoprimeAt(a, b, depth) <==> Gcd(a, b) == 1
    decreases depth
  {
    if depth > 0 {
      CoprimeAtDef(a, b, depth - 1);
    }
  }

  lemma CoprimeDef(a: nat, b: nat)
    ensures Coprime(a, b) <==> Gcd(a, b) == 1
  {
    CoprimeAtDef(a, b, b);
  }

  // ---------------------------------------------------------------------
  // Division with remainder
  // ---------------------------------------------------------------------

  /** Quotient and remainder are unique. */
  lemma {:induction false} DivModUnique(x: int, d: int, q: int, r: int)
    requires d > 0 && x == d * q + r && 0 <= r < d
    ensures x / d == q && x % d == r
  {
    var q0 := x / d;
    var r0 := x % d;
    assert x == d * q0 + r0;
    var t := q - q0;
    assert d * t == r0 - r by {
      assert d * q - d * q0 == d * (q - q0);
    }
    if t >= 1 {
      assert d * t >= d * 1 by { MulMono(1, t, d); }
    } else if t <= -1 {
      assert d * (-t) >= d * 1 by { MulMono(1, -t, d); }
    }
  }

  lemma MulMono(x: int, y: int, d: int)
    requires x <= y && d >= 0
    ensures d * x <= d * y
  {
    assert d * y - d * x == d * (y - x);
  }

  lemma {:induction false} MultipleDivides(d: nat, k: int)
    requires d > 0
    ensures Divides(d, d * k) && (d * k) / d == k
  {
    DivModUnique(d * k, d, k, 0);
  }

  lemma {:induction false} DividesWitness(d: nat, x: int)
    requires Divides(d, x)
    ensures x == d * (x / d)
  {
  }

  /** A common divisor of x and y divides every combination q*x + y. */
  lemma {:induction false} DividesCombination(d: nat, x: int, y: int, q: int)
    requires Divides(d, x) && Divides(d, y)
    ensures Divides(d, q * x + y)
  {
    var kx := x / d;
    var ky := y / d;
    assert q * x + y == d * (q * kx + ky) by {
      assert x == d * kx;
      assert y == d * ky;
      assert q * (d * kx) == d * (q * kx);
    }
    MultipleDivides(d, q * kx + ky);
  }

  /** A positive multiple of d is at least d. */
  lemma {:induction false} DividesBound(d: nat, x: int)
    requires Divides(d, x) && x > 0
    ensures d <= x
  {
    var k := x / d;
    assert x == d * k;
    if k >= 1 {
      MulMono(1, k, d);
    }
  }

  // ---------------------------------------------------------------------
  // Gcd
  // ---------------------------------------------------------------------

  lemma {:induction false} GcdDivides(a: nat, b: nat)
    requires a > 0 || b > 0
    ensures Gcd(a, b) > 0
    ensures Divides(Gcd(a, b), a) && Divides(Gcd(a, b), b)
    decreases b
  {
    if b == 0 {
      MultipleDivides(a, 1);
      MultipleDivides(a, 0);
    } else {
      GcdDivides(b, a % b);
      var g := Gcd(a, b);
      assert a == (a / b) * b + a % b;
      DividesCombination(g, b, a % b, a / b);
    }
  }

  lemma {:induction false} GcdGreatest(a: nat, b: nat, d: nat)
    requires Divides(d, a) && Divides(d, b)
    ensures Divides(d, Gcd(a, b))
    decreases b
  {
    if b != 0 {
      assert a % b == (-(a / b)) * b + a;
      DividesCombination(d, b, a, -(a / b));
      GcdGreatest(b, a % b, d);
    }
  }

  lemma {:induction false} GcdPositive(a: nat, b: nat)
    requires b > 0
    ensures Gcd(a, b) >= 1
  {
    GcdDivides(a, b);
  }

  /** If d divides x, then g*d divides g*x. */
  lemma {:induction false} DividesScaled(g: nat, d: nat, x: int)
    requires g > 0 && Divides(d, x)
    ensures Divides(g * d, g * x)
  {
    var k := x / d;
    DividesWitness(d, x);
    assert g * x == (g * d) * k by {
      assert g * (d * k) == (g * d) * k;
    }
    MultipleDivides(g * d, k);
  }

  /** Dividing both arguments by their gcd leaves a coprime pair. */
  lemma {:induction false} GcdQuotientsCoprime(a: nat, b: nat)
    requires b > 0
    ensures Gcd(a, b) > 0
    ensures Gcd(a / Gcd(a, b), b / Gcd(a, b)) == 1
    ensures Coprime(a / Gcd(a, b), b / Gcd(a, b))
  {
    var g := Gcd(a, b);
    GcdDivides(a, b);
    var a' := a / g;
    var b' := b / g;
    DividesWitness(g, a);
    DividesWitness(g, b);
    assert b' > 0 by {
      if b' <= 0 {
        MulMono(b', 0, g);
      }
    }
    var h := Gcd(a', b');
    GcdDivides(a', b');
    DividesScaled(g, h, a');
    DividesScaled(g, h, b');
    GcdGreatest(a, b, g * h);
    DividesBound(g * h, g);
    if h >= 2 {
      MulMono(2, h, g);
    }
    CoprimeDef(a', b');
  }

  lemma CoprimeOne(a: nat)
    ensures Coprime(a, 1)
  {
    CoprimeDef(a, 1);
  }

  lemma {:induction false} DividesNeg(d: nat, x: int)
    requires Divides(d, x)
    ensures Divides(d, -x)
  {
    DividesWitness(d, x);
    assert -x == d * (-(x / d));
    MultipleDivides(d, -(x / d));
  }

  /** Extended Euclid: the gcd is an integer combination of the arguments. */
  lemma {:induction false} Bezout(a: nat, b: nat) returns (x: int, y: int)
    ensures x * a + y * b == Gcd(a, b)
    decreases b
  {
    if b == 0 {
      x, y := 1, 0;
    } else {
      var x', y' := Bezout(b, a % b);
      var q := a / b;
      x, y := y', x' - y' * q;
      BezoutStep(a, b, q, a % b, x', y');
    }
  }

  /** One Euclid step of the Bezout coefficients: a == q*b + r. */
  lemma BezoutStep(a: int, b: int, q: int, r: int, x: int, y: int)
    requires a == q * b + r
    ensures x * b + y * r == y * a + (x - y * q) * b
  {
    assert y * r == y * a - (y * q) * b;
  }

  /** Euclid's lemma: d | m*k with gcd(m, d) == 1 forces d | k. */
  lemma {:induction false} CoprimeDividesProduct(d: nat, m: nat, k: int)
    requires d > 0 && Coprime(m, d) && Divides(d, m * k)
    ensures Divides(d, k)
  {
    CoprimeDef(m, d);
    var x, y := Bezout(m, d);
    assert k == x * (m * k) + d * (y * k) by {
      assert (x * m + y * d) * k == k;
      assert (x * m + y * d) * k == x * (m * k) + d * (y * k);
    }
    MultipleDivides(d, y * k);
    DividesCombination(d, m * k, d * (y * k), x);
  }
}
