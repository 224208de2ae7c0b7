/**
 * The fixed-capacity text builder of writer.hpp.
 *
 * A `Writer` holds the capacity of its buffer and the text written so far.
 * The buffer always holds `text` followed by a NUL, so `|text| < cap` is the
 * invariant; a null buffer is a writer of capacity 0, which refuses every
 * character. Every append either writes all of its characters (`Ok`) or
 * stops at the first character that does not fit (`BufferTooSmall`), leaving
 * the prefix that fitted.
 */
module Writers {

  import opened Errors
  import opened Int64
  import opened Rationals

  datatype Writer = Writer(cap: nat, text: string)
  {
    /** Room for the text and its terminating NUL (nothing at all when cap == 0). */
    predicate Valid() { |text| < cap || (cap == 0 && text == []) }

    /** Characters that can still be written before the NUL slot. */
    function Room(): nat { if cap == 0 || |text| + 1 >= cap then 0 else cap - 1 - |text| }
  }

  /** A fresh writer over a buffer of `cap` bytes: `out[0] = '\0'`, len 0. */
  function Fresh(cap: nat): (w: Writer)
    ensures w.Valid() && w.text == [] && w.cap == cap
  {
    Writer(cap, [])
  }

  /** The writer after an operation and the code the operation returned. */
  datatype Emitted = Emitted(w: Writer, ec: ErrorCode)

  /** Writer::put: one character, or BufferTooSmall when only the NUL slot is left. */
  function Put(w: Writer, ch: char): (r: Emitted)
    requires w.Valid()
    ensures r.w.Valid() && r.w.cap == w.cap
    ensures r.ec == Ok || r.ec == BufferTooSmall
    ensures r.ec == Ok <==> w.Room() >= 1
    ensures r.ec == Ok ==> r.w.text == w.text + [ch]
    ensures r.ec != Ok ==> r.w == w
  {
    if w.cap == 0 then Emitted(w, BufferTooSmall)
    else if |w.text| + 1 >= w.cap then Emitted(w, BufferTooSmall)
    else Emitted(w.(text := w.text + [ch]), Ok)
  }

  /**
   * Writer::append: character by character through `put`, returning the first
   * error. The result is characterised without reference to `put`: all of `s`
   * is written exactly when it fits, otherwise the longest prefix that fits.
   * The loop itself is AppendChars, kept behind a recursion on a depth the
   * solver cannot see through, so that callers reason from this contract.
   */
  function Append(w: Writer, s: string): (r: Emitted)
    requires w.Valid()
    ensures r.w.Valid() && r.w.cap == w.cap
    ensures r.ec == Ok || r.ec == BufferTooSmall
    ensures r.ec == Ok <==> |s| <= w.Room()
    ensures r.w.text == w.text + s[..Min(|s|, w.Room())]
  {
    AppendAt(w, s, |s| + 1)
  }

  function AppendAt(w: Writer, s: string, depth: nat): (r: Emitted)
    requires w.Valid()
    ensures r.w.Valid() && r.w.cap == w.cap
    ensures r.ec == Ok || r.ec == BufferTooSmall
    ensures r.ec == Ok <==> |s| <= w.Room()
    ensures r.w.text == w.text + s[..Min(|s|, w.Room())]
    decreases depth
  {
    if depth > 0 then AppendAt(w, s, depth - 1) else AppendChars(w, s)
  }

  /** The loop of Writer::append. */
  function AppendChars(w: Writer, s: string): (r: Emitted)
    requires w.Valid()
    ensures r.w.Valid() && r.w.cap == w.cap
    ensures r.ec == Ok || r.ec == BufferTooSmall
    ensures r.ec == Ok <==> |s| <= w.Room()
    ensures r.w.text == w.text + s[..Min(|s|, w.Room())]
    decreases |s|
  {
    if s == [] then Emitted(w, Ok)
    else
      var e := Put(w, s[0]);
      if e.ec != Ok then e
      else
        var rest := AppendChars(e.w, s[1..]);
        assert w.text + s[..Min(|s|, w.Room())] == e.w.text + s[1..][..Min(|s| - 1, e.w.Room())];
        rest
  }

  function Min(a: nat, b: nat): nat { if a <= b then a else b }

  /** `if (!is_ok(ec)) return ec; ec = w.append(s);` */
  function AppendThen(e: Emitted, s: string): (r: Emitted)
    requires e.w.Valid()
    ensures r.w.Valid()
  {
    if e.ec != Ok then e else Append(e.w, s)
  }

  /** Two appends chained with an early return are one append of the concatenation. */
  lemma {:induction false} AppendChain(w: Writer, s: string, t: string)
    requires w.Valid()
    ensures AppendThen(Append(w, s), t) == Append(w, s + t)
  {
    var e := Append(w, s);
    if e.ec == Ok {
      assert e.w.Room() == w.Room() - |s|;
      FitsPrefix(s, t, w.Room());
    } else {
      OverflowsPrefix(s, t, w.Room());
    }
  }

  /** Appending nothing changes nothing and succeeds. */
  lemma AppendNothing(w: Writer)
    requires w.Valid()
    ensures Append(w, "") == Emitted(w, Ok)
  {
    assert ""[..0] == "";
  }

  /** When s fits in n characters, the part of s + t that fits is s and the part of t that fits after it. */
  lemma FitsPrefix(s: string, t: string, n: nat)
    requires |s| <= n
    ensures (s + t)[..Min(|s + t|, n)] == s + t[..Min(|t|, n - |s|)]
  {
  }

  /** When s does not fit in n characters, the part of s + t that fits lies within s. */
  lemma OverflowsPrefix(s: string, t: string, n: nat)
    requires n < |s|
    ensures (s + t)[..Min(|s + t|, n)] == s[..Min(|s|, n)]
  {
  }

  // ---------------------------------------------------------------------
  // Decimal numbers
  // ---------------------------------------------------------------------

  const U64_LIMIT: nat := 0x1_0000_0000_0000_0000

  function DigitChar(d: nat): (c: char)
    requires d < 10
    ensures '0' <= c <= '9'
  {
    (('0' as int) + d) as char
  }

  function DigitValue(c: char): nat
    requires '0' <= c <= '9'
  {
    (c as int) - ('0' as int)
  }

  /** The decimal numeral of v, most significant digit first, "0" for zero. */
  function Decimal(v: nat): (s: string)
    ensures 1 <= |s|
    ensures forall i :: 0 <= i < |s| ==> '0' <= s[i] <= '9'
    decreases v
  {
    (if v < 10 then [] else Decimal(v / 10)) + [DigitChar(v % 10)]
  }

  /** The value of a string of decimal digits. */
  function Parse(s: string): nat
    requires forall i :: 0 <= i < |s| ==> '0' <= s[i] <= '9'
    decreases |s|
  {
    if s == [] then 0 else 10 * Parse(s[..|s| - 1]) + DigitValue(s[|s| - 1])
  }

  /** Reading back the numeral gives the number, and it has no leading zero. */
  lemma {:induction false} DecimalRoundTrip(v: nat)
    ensures Parse(Decimal(v)) == v
    ensures Decimal(v)[0] == '0' ==> v == 0
    decreases v
  {
    var s := Decimal(v);
    if v >= 10 {
      DecimalRoundTrip(v / 10);
      assert s[..|s| - 1] == Decimal(v / 10);
    } else {
      assert s == [DigitChar(v)];
      assert s[..0] == [];
    }
  }

  /** A uint64 value has at most 20 digits. */
  lemma {:induction false} DecimalLength(v: nat, k: nat)
    requires v < Pow10(k)
    ensures |Decimal(v)| <= k || (v == 0 && |Decimal(v)| == 1)
    decreases v
  {
    if v >= 10 {
      assert k >= 2 && v / 10 < Pow10(k - 1);
      DecimalLength(v / 10, k - 1);
    } else if v > 0 {
      assert k >= 1;
    }
  }

  function Pow10(k: nat): (p: nat)
    ensures p >= 1
  {
    if k == 0 then 1 else 10 * Pow10(k - 1)
  }

  /**
   * The digit buffer of append_u64: the do-while loop emits the least
   * significant digit first.
   */
  function DigitsLowFirst(v: nat): (s: string)
    decreases v
  {
    [DigitChar(v % 10)] + (if v / 10 == 0 then [] else DigitsLowFirst(v / 10))
  }

  function Reverse(s: string): (r: string)
    ensures |r| == |s|
    ensures forall i :: 0 <= i < |s| ==> r[i] == s[|s| - 1 - i]
  {
    if s == [] then [] else Reverse(s[1..]) + [s[0]]
  }

  /** Emitting the buffer from its end gives the numeral. */
  lemma {:induction false} DigitsReversed(v: nat)
    ensures Reverse(DigitsLowFirst(v)) == Decimal(v)
    decreases v
  {
    if v / 10 != 0 {
      DigitsReversed(v / 10);
      assert Reverse(DigitsLowFirst(v)) == Reverse(DigitsLowFirst(v / 10)) + [DigitChar(v % 10)];
    } else {
      assert v < 10;
    }
  }

  /** Puts `buf[n - 1 - i]` for i = 0, 1, ... as append_u64's second loop does. */
  function PutBackwards(w: Writer, buf: string): (r: Emitted)
    requires w.Valid()
    ensures r == Append(w, Reverse(buf))
    decreases |buf|
  {
    if buf == [] then Emitted(w, Ok)
    else
      var e := Put(w, buf[|buf| - 1]);
      var rest := if e.ec != Ok then e else PutBackwards(e.w, buf[..|buf| - 1]);
      assert Reverse(buf) == [buf[|buf| - 1]] + Reverse(buf[..|buf| - 1]);
      rest
  }

  /** Writer::append_u64 */
  function AppendU64(w: Writer, v: nat): (r: Emitted)
    requires w.Valid() && v < U64_LIMIT
    ensures r == Append(w, Decimal(v))
  {
    DigitsReversed(v);
    PutBackwards(w, DigitsLowFirst(v))
  }

  /** The text append_i64 writes: a minus sign for negatives, then the magnitude. */
  function I64Text(v: int): string
  {
    (if v < 0 then "-" else "") + Decimal(if v < 0 then -v else v)
  }

  /**
   * Writer::append_i64. The magnitude of a negative v is computed as
   * uint64(-(v + 1)) + 1 so that INT64_MIN does not overflow.
   */
  function AppendI64(w: Writer, v: int): (r: Emitted)
    requires w.Valid() && InRange(v)
    ensures r == Append(w, I64Text(v))
  {
    var mag: nat := if v < 0 then (-(v + 1)) + 1 else v;
    if v < 0 then
      var e := Put(w, '-');
      PutIsAppend(w, '-');
      AppendChain(w, "-", Decimal(mag));
      assert I64Text(v) == "-" + Decimal(mag);
      if e.ec != Ok then e else AppendU64(e.w, mag)
    else
      assert I64Text(v) == Decimal(mag);
      AppendU64(w, mag)
  }

  lemma PutIsAppend(w: Writer, ch: char)
    requires w.Valid()
    ensures Put(w, ch) == Append(w, [ch])
  {
    var e := Append(w, [ch]);
    assert [ch][..Min(1, w.Room())] == (if w.Room() >= 1 then [ch] else []);
  }

  /** Writer::append_index1: the 1-based row number of a 0-based uint8 index. */
  function AppendIndex1(w: Writer, v: nat): (r: Emitted)
    requires w.Valid() && v < 256
    ensures r == Append(w, Decimal(v + 1))
  {
    AppendU64(w, v + 1)
  }

  /**
   * The LaTeX of a rational: the integer when den == 1, else \frac{num}{den}.
   * The text itself is RationalLatex, reached through a depth the solver
   * cannot see through (RationalTextDef opens it), so that texts built from
   * many entries do not unfold every numeral.
   */
  function RationalText(q: Rational): (t: string)
    ensures |t| >= 1
  {
    RationalTextAt(q, if q.den == 1 then 1 else 2)
  }

  function RationalTextAt(q: Rational, depth: nat): (t: string)
    ensures |t| >= 1
    decreases depth
  {
    if depth > 0 then RationalTextAt(q, depth - 1) else RationalLatex(q)
  }

  function RationalLatex(q: Rational): (t: string)
    ensures |t| >= 1
  {
    if q.den == 1 then I64Text(q.num)
    else "\\frac{" + I64Text(q.num) + "}{" + I64Text(q.den) + "}"
  }

  lemma {:induction false} RationalTextAtDef(q: Rational, depth: nat)
    ensures RationalTextAt(q, depth) == RationalLatex(q)
    decreases depth
  {
    if depth > 0 {
      RationalTextAtDef(q, depth - 1);
    }
  }

  lemma RationalTextDef(q: Rational)
    ensures RationalText(q) == RationalLatex(q)
  {
    RationalTextAtDef(q, if q.den == 1 then 1 else 2);
  }

  /** Writer::append_rational_latex */
  function AppendRationalLatex(w: Writer, q: Rational): (r: Emitted)
    requires w.Valid() && q.Valid()
    ensures r == Append(w, RationalText(q))
  {
    RationalTextDef(q);
    if q.den == 1 then AppendI64(w, q.num)
    else
      var e1 := Append(w, "\\frac{");
      var e2 := if e1.ec != Ok then e1 else AppendI64(e1.w, q.num);
      var e3 := AppendThen(e2, "}{");
      var e4 := if e3.ec != Ok then e3 else AppendI64(e3.w, q.den);
      var e5 := AppendThen(e4, "}");
      AppendChain(w, "\\frac{", I64Text(q.num));
      AppendChain(w, "\\frac{" + I64Text(q.num), "}{");
      AppendChain(w, "\\frac{" + I64Text(q.num) + "}{", I64Text(q.den));
      AppendChain(w, "\\frac{" + I64Text(q.num) + "}{" + I64Text(q.den), "}");
      e5
  }
}
