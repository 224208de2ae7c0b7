/**
 * Signed 64-bit integers as unbounded `int` with explicit range predicates,
 * and the hand-written overflow checks of rational.cpp (add_overflow,
 * sub_overflow, mul_overflow). Each check is modelled branch by branch,
 * including C++'s truncating division, and is proved to fail exactly when the
 * mathematical result leaves [MIN, MAX].
 */
module Int64 {

  import opened Errors

  const MIN: int := -0x8000_0000_0000_0000
  const MAX: int := 0x7FFF_FFFF_FFFF_FFFF

  predicate InRange(x: int) { MIN <= x <= MAX }

  /** C++ integer division: truncates toward zero. */
  function TDiv(a: int, b: int): int
    requires b != 0
  {
    if a >= 0 && b > 0 then a / b
    else if a >= 0 then -(a / -b)
    else if b > 0 then -((-a) / b)
    else (-a) / (-b)
  }

  /** add_overflow: None when the sum leaves the int64 range. */
  function CheckedAdd(a: int, b: int): (r: Option<int>)
    requires InRange(a) && InRange(b)
    ensures r.Some? <==> InRange(a + b)
    ensures r.Some? ==> r.value == a + b
  {
    if b > 0 && a > MAX - b then None
    else if b < 0 && a < MIN - b then None
    else Some(a + b)
  }

  /** sub_overflow: None when the difference leaves the int64 range. */
  function CheckedSub(a: int, b: int): (r: Option<int>)
    requires InRange(a) && InRange(b)
    ensures r.Some? <==> InRange(a - b)
    ensures r.Some? ==> r.value == a - b
  {
    if b > 0 && a < MIN + b then None
    else if b < 0 && a > MAX + b then None
    else Some(a - b)
  }

  /**
   * mul_overflow, following the source's case analysis: zero and +-1 operands
   * first (MIN * -1 is the one failing unit case), then sign-directed
   * comparisons against truncated quotients of the bounds.
   */
  function CheckedMul(a: int, b: int): (r: Option<int>)
    requires InRange(a) && InRange(b)
    ensures r.Some? <==> InRange(a * b)
    ensures r.Some? ==> r.value == a * b
  {
    if a == 0 || b == 0 then Some(0)
    else if a == 1 then Some(b)
    else if b == 1 then Some(a)
    else if a == -1 then (if b == MIN then None else Some(-b))
    else if b == -1 then (if a == MIN then None else Some(-a))
    else
      var overflow :=
        if a > 0 then
          if b > 0 then a > TDiv(MAX, b) else b < TDiv(MIN, a)
        else
          if b > 0 then a < TDiv(MIN, b) else b < TDiv(MAX, a);
      MulCaseCorrect(a, b);
      if overflow then None else Some(a * b)
  }

  // ---------------------------------------------------------------------
  // Arithmetic facts used to justify the mul_overflow case analysis.
  // ---------------------------------------------------------------------

  /** For a positive divisor, x <= K / d exactly when x * d <= K (floor division). */
  lemma {:induction false} FloorDivBound(x: int, d: int, k: int)
    requires d > 0
    ensures x <= k / d <==> x * d <= k
  {
    var q := k / d;
    var r := k % d;
    assert k == q * d + r && 0 <= r < d;
    if x <= q {
      MulMonoRight(x, q, d);
    } else {
      MulMonoRight(q + 1, x, d);
      assert (q + 1) * d == q * d + d;
    }
  }

  lemma MulMonoRight(x: int, y: int, d: int)
    requires x <= y && d >= 0
    ensures x * d <= y * d
  {
    assert y * d - x * d == (y - x) * d;
  }

  lemma MulCaseCorrect(a: int, b: int)
    requires InRange(a) && InRange(b)
    requires a != 0 && b != 0 && a != 1 && b != 1 && a != -1 && b != -1
    ensures a > 0 && b > 0 ==> (a > TDiv(MAX, b) <==> !InRange(a * b))
    ensures a > 0 && b < 0 ==> (b < TDiv(MIN, a) <==> !InRange(a * b))
    ensures a < 0 && b > 0 ==> (a < TDiv(MIN, b) <==> !InRange(a * b))
    ensures a < 0 && b < 0 ==> (b < TDiv(MAX, a) <==> !InRange(a * b))
  {
    if a > 0 && b > 0 {
      FloorDivBound(a, b, MAX);
      MulPosPos(a, b);
    } else if a > 0 && b < 0 {
      // TDiv(MIN, a) == -((-MIN) / a); b < that  <==>  -b > (-MIN)/a  <==>  -b*a > -MIN
      FloorDivBound(-b, a, -MIN);
      MulPosPos(a, -b);
      assert (-b) * a == -(a * b);
    } else if a < 0 && b > 0 {
      FloorDivBound(-a, b, -MIN);
      MulPosPos(-a, b);
      assert (-a) * b == -(a * b);
    } else if a < 0 && b < 0 {
      FloorDivBound(-b, -a, MAX);
      MulPosPos(-a, -b);
      assert (-b) * (-a) == a * b;
    }
  }

  lemma MulPosPos(x: int, y: int)
    requires x > 0 && y > 0
    ensures x * y > 0
  {
  }
}
