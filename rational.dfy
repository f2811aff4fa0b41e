/**
  RationalNumber<int> of 1/src/rational.h: a fraction of two ints, kept
  canonical by a hand-written Euclidean gcd (get_max_delim), with
  overflow-checked arithmetic, comparisons through a common denominator,
  and conversions to and from "n/d" text.

  The C++ `%` and `/` truncate, so get_max_delim can return a negative
  divisor and make_canonical can leave a negative denominator behind
  (3/5 - 5/6 is stored as 7/-30). `Reduce` and the `...AsWritten`
  functions are the operators as written, and the object
  `RationalNumber` runs them; `Normalize` and `Add`, `Sub`, `Mul`, `Div`,
  `Increment`, `Decrement` are the corrected arithmetic, with a positive
  denominator always.
 */
module Rationals {
  import opened Wrappers
  import opened Machine
  import Text

  datatype Rational = Rational(num: Int32, den: Int32)

  datatype Error =
    | ZeroDivision          // zero_division_error
    | NegativeDenominator   // negative_denominator_error
    | Overflow              // overflow_error
    | InvalidString         // invalid_string_error
    | Parse(e: Text.NumberError)  // std::stoll throws
    | Trap                  // a C++ division by zero or INT_MIN / -1 (undefined behaviour)

  /** The number a fraction with a non-zero denominator denotes. */
  function Val(x: Rational): real
    requires x.den != 0
  {
    (x.num as real) / (x.den as real)
  }

  // ------------------------------------------------------------ gcd

  /** The loop of get_max_delim: (a, b) := (b, a % b) until b is zero. */
  function Euclid(a: int, b: int): int
    decreases Abs(b)
  {
    if b == 0 then a
    else
      TRemBounds(a, b);
      Euclid(b, TRem(a, b))
  }

  /** Whether that loop evaluates INT_MIN % -1, which C++ leaves undefined. */
  predicate EuclidTraps(a: int, b: int)
    decreases Abs(b)
  {
    b != 0 && ((a == INT_MIN && b == -1) || (TRemBounds(a, b); EuclidTraps(b, TRem(a, b))))
  }

  /** get_max_delim: `a` itself when a == b, otherwise the Euclidean loop. */
  function MaxDelim(a: int, b: int): int {
    if a == b then a else Euclid(a, b)
  }

  predicate MaxDelimTraps(a: int, b: int) {
    a != b && EuclidTraps(a, b)
  }

  /** `g` is non-zero and divides `x` exactly. */
  predicate Divides(g: int, x: int) {
    g != 0 && TRem(x, g) == 0
  }

  lemma {:induction false} EuclidInt32(a: int, b: int)
    requires IsInt32(a) && IsInt32(b)
    ensures IsInt32(Euclid(a, b))
    decreases Abs(b)
  {
    if b != 0 {
      TRemBounds(a, b);
      EuclidInt32(b, TRem(a, b));
    }
  }

  /** Only INT_MIN can make the loop trap. */
  lemma {:induction false} EuclidNoTrap(a: int, b: int)
    requires INT_MIN < a && INT_MIN < b && IsInt32(a) && IsInt32(b)
    ensures !EuclidTraps(a, b)
    decreases Abs(b)
  {
    if b != 0 {
      TRemBounds(a, b);
      EuclidNoTrap(b, TRem(a, b));
    }
  }

  lemma {:induction false} EuclidDivides(a: int, b: int)
    requires a != 0 || b != 0
    ensures Divides(Euclid(a, b), a) && Divides(Euclid(a, b), b)
    decreases Abs(b)
  {
    if b == 0 {
      TDivExact(a, a, 1);
      TDivExact(0, a, 0);
    } else {
      TRemBounds(a, b);
      var r := TRem(a, b);
      EuclidDivides(b, r);
      assert Euclid(a, b) == Euclid(b, r);
      TDivTRem(a, b);
      DividesCombination(a, b, TDiv(a, b), r, Euclid(b, r));
    }
  }

  /** A divisor of `b` and `r` divides b * q + r. */
  lemma DividesCombination(a: int, b: int, q: int, r: int, g: int)
    requires Divides(g, b) && Divides(g, r) && a == b * q + r
    ensures Divides(g, a)
  {
    var kb, kr := TDiv(b, g), TDiv(r, g);
    Cofactor(b, g);
    Cofactor(r, g);
    var k := kb * q + kr;
    Combine(a, b, q, r, g, kb, kr);
    TDivExact(a, g, k);
  }

  lemma Cofactor(x: int, g: int)
    requires Divides(g, x)
    ensures x == g * TDiv(x, g)
  {
    TDivTRem(x, g);
  }

  lemma Combine(a: int, b: int, q: int, r: int, g: int, kb: int, kr: int)
    requires b == g * kb && r == g * kr && a == b * q + r
    ensures a == (kb * q + kr) * g
  {
    assert (g * kb) * q == g * (kb * q);
    assert g * (kb * q) + g * kr == (kb * q + kr) * g;
  }

  lemma MaxDelimDivides(a: int, b: int)
    requires a != 0 || b != 0
    ensures Divides(MaxDelim(a, b), a) && Divides(MaxDelim(a, b), b)
  {
    if a == b {
      TDivExact(a, a, 1);
    } else {
      EuclidDivides(a, b);
    }
  }

  /** The gcd is zero exactly for two zeros. */
  lemma MaxDelimZero(a: int, b: int)
    ensures MaxDelim(a, b) == 0 <==> a == 0 && b == 0
  {
    if a != 0 || b != 0 {
      MaxDelimDivides(a, b);
    }
  }

  /** Scaling both arguments scales the result: truncating `%` commutes with scaling. */
  lemma {:induction false} EuclidScale(k: int, a: int, b: int)
    requires k != 0
    ensures Euclid(k * a, k * b) == k * Euclid(a, b)
    decreases Abs(b)
  {
    if b != 0 {
      assert k * b != 0 by { SignOfProduct(k, b); }
      TRemBounds(a, b);
      TRemScale(k, a, b);
      EuclidScale(k, b, TRem(a, b));
    }
  }

  lemma MaxDelimScale(k: int, a: int, b: int)
    requires k != 0
    ensures MaxDelim(k * a, k * b) == k * MaxDelim(a, b)
  {
    if a != b {
      assert k * a != k * b by {
        assert k * a - k * b == k * (a - b);
        SignOfProduct(k, a - b);
      }
      EuclidScale(k, a, b);
    }
  }

  /** For non-negative arguments the loop only sees non-negative values. */
  lemma {:induction false} EuclidNonNegative(a: int, b: int)
    requires a >= 0 && b >= 0
    ensures Euclid(a, b) >= 0
    decreases Abs(b)
  {
    if b != 0 {
      TRemBounds(a, b);
      EuclidNonNegative(b, TRem(a, b));
    }
  }

  /** get_max_delim, with its loop. */
  method GetMaxDelim(a0: Int32, b0: Int32) returns (r: Result<Int32, Error>)
    ensures r == if MaxDelimTraps(a0, b0) then Failure(Trap) else (EuclidInt32(a0, b0); Success(MaxDelim(a0, b0)))
  {
    if a0 == b0 {
      return Success(a0);
    }
    var a: int, b: int := a0, b0;
    while b != 0
      invariant IsInt32(a) && IsInt32(b)
      invariant Euclid(a, b) == Euclid(a0, b0)
      invariant EuclidTraps(a, b) == EuclidTraps(a0, b0)
      decreases Abs(b)
    {
      if a == INT_MIN && b == -1 {
        return Failure(Trap);
      }
      TRemBounds(a, b);
      a, b := b, TRem(a, b);
    }
    return Success(a);
  }

  /** The loop cannot trap once the second argument is positive. */
  lemma EuclidNoTrapPositive(a: int, b: int)
    requires IsInt32(a) && IsInt32(b)
    ensures b > 0 ==> !EuclidTraps(a, b)
  {
    if b > 0 {
      TRemBounds(a, b);
      EuclidNoTrap(b, TRem(a, b));
    }
  }

  // ------------------------------------------------------------ value arithmetic

  lemma RealMul(a: int, b: int)
    ensures (a * b) as real == (a as real) * (b as real)
  {
  }

  /** Two fractions denote the same number iff their cross products agree. */
  lemma ValEq(a: int, b: int, c: int, d: int)
    requires b != 0 && d != 0
    ensures (a as real) / (b as real) == (c as real) / (d as real) <==> a * d == c * b
  {
    RealMul(a, d);
    RealMul(c, b);
    var B, D := b as real, d as real;
    calc {
      (a as real) / B == (c as real) / D;
    <==>
      (a as real) / B * (B * D) == (c as real) / D * (B * D);
    <==>
      (a as real) * D == (c as real) * B;
    }
  }

  /** Dividing both parts by a common divisor keeps the value. */
  lemma QuotientsKeepValue(a: int, b: int, g: int)
    requires Divides(g, a) && Divides(g, b) && b != 0
    ensures TDiv(b, g) != 0 && a * TDiv(b, g) == TDiv(a, g) * b
  {
    var p, q := TDiv(a, g), TDiv(b, g);
    assert a == g * p && b == g * q;
    calc {
      a * q;
      (g * p) * q;
      { assert (g * p) * q == p * (g * q); }
      p * (g * q);
      p * b;
    }
  }

  // ------------------------------------------------------------ canonical forms

  /** Both parts divided by get_max_delim, over unbounded integers. */
  function ReducedPair(a: int, b: int): (int, int)
    requires a != 0 || b != 0
  {
    MaxDelimZero(a, b);
    var g := MaxDelim(a, b);
    (TDiv(a, g), TDiv(b, g))
  }

  lemma ReducedPairScale(k: int, a: int, b: int)
    requires k != 0 && (a != 0 || b != 0)
    ensures k * a != 0 || k * b != 0
    ensures ReducedPair(k * a, k * b) == ReducedPair(a, b)
  {
    MaxDelimZero(a, b);
    MaxDelimScale(k, a, b);
    var g := MaxDelim(a, b);
    assert g != 0;
    assert k * g != 0 by { SignOfProduct(k, g); }
    assert k * a != 0 || k * b != 0 by {
      if a != 0 { SignOfProduct(k, a); } else { SignOfProduct(k, b); }
    }
    TDivScale(k, a, g);
    TDivScale(k, b, g);
  }

  lemma ReducedPairValue(a: int, b: int)
    requires b != 0
    ensures ReducedPair(a, b).1 != 0 && a * ReducedPair(a, b).1 == ReducedPair(a, b).0 * b
  {
    MaxDelimDivides(a, b);
    QuotientsKeepValue(a, b, MaxDelim(a, b));
  }

  /**
    Dividing by get_max_delim is a canonical form: two fractions reduce to
    the same pair exactly when they denote the same number, whatever the
    signs of the divisors involved.
   */
  lemma SameValueReducedPair(a: int, b: int, c: int, d: int)
    requires b != 0 && d != 0
    ensures a * d == c * b <==> ReducedPair(a, b) == ReducedPair(c, d)
  {
    if a * d == c * b {
      ReducedPairScale(d, a, b);
      ReducedPairScale(b, c, d);
      assert d * a == b * c && d * b == b * d;
    }
    if ReducedPair(a, b) == ReducedPair(c, d) {
      ReducedPairValue(a, b);
      ReducedPairValue(c, d);
      var p, q := ReducedPair(a, b).0, ReducedPair(a, b).1;
      CrossCancel(a, b, c, d, p, q);
    }
  }

  lemma CrossCancel(a: int, b: int, c: int, d: int, p: int, q: int)
    requires q != 0 && a * q == p * b && c * q == p * d
    ensures a * d == c * b
  {
    calc {
      (a * d) * q;
      (a * q) * d;
      (p * b) * d;
      (p * d) * b;
      (c * q) * b;
      (c * b) * q;
    }
    assert (a * d - c * b) * q == 0;
    if a * d != c * b {
      SignOfProduct(a * d - c * b, q);
    }
  }

  /**
    make_canonical as written: both fields divided by get_max_delim, which
    may be negative. A trapping gcd loop, a zero divisor (0/0) or
    INT_MIN / -1 are undefined in C++.
   */
  function Reduce(x: Rational): (r: Result<Rational, Error>)
    ensures r.Success? ==> x.num != 0 || x.den != 0
    ensures r.Success? ==> (r.value.num as int, r.value.den as int) == ReducedPair(x.num, x.den)
    ensures r.Success? && x.den != 0 ==> r.value.den != 0 && Val(r.value) == Val(x)
    ensures r.Success? && x.den > 0 ==> (r.value.den < 0 <==> MaxDelim(x.num, x.den) < 0)
  {
    if MaxDelimTraps(x.num, x.den) then Failure(Trap)
    else
      var g := MaxDelim(x.num, x.den);
      if g == 0 then Failure(Trap)
      else if g == -1 && (x.num == INT_MIN || x.den == INT_MIN) then Failure(Trap)
      else
        MaxDelimZero(x.num, x.den);
        TDivInt32(x.num, g);
        TDivInt32(x.den, g);
        var r := Rational(TDiv(x.num, g), TDiv(x.den, g));
        if x.den != 0 then
          ReducedPairValue(x.num, x.den);
          ValEq(r.num, r.den, x.num, x.den);
          if x.den > 0 then ReduceSign(x); Success(r)
          else Success(r)
        else Success(r)
  }

  /** Over a positive denominator, the quotient by get_max_delim is negative exactly when the divisor is. */
  lemma ReduceSign(x: Rational)
    requires x.den > 0 && !MaxDelimTraps(x.num, x.den)
    ensures MaxDelim(x.num, x.den) != 0
    ensures TDiv(x.den, MaxDelim(x.num, x.den)) < 0 <==> MaxDelim(x.num, x.den) < 0
  {
    NormalizeParts(x);
    var g := MaxDelim(x.num, x.den);
    if g < 0 {
      TDivNeg(x.den, Abs(g));
    }
  }

  /**
    A positive denominator and a numerator other than INT_MIN always
    reduce, and so does any non-zero denominator when neither part is INT_MIN.
   */
  lemma ReduceDefined(x: Rational)
    ensures x.den > 0 && x.num != INT_MIN ==> Reduce(x).Success?
    ensures x.den != 0 && Negatable(x.num) && Negatable(x.den) ==> Reduce(x).Success?
  {
    EuclidNoTrapPositive(x.num, x.den);
    if Negatable(x.num) && Negatable(x.den) {
      EuclidNoTrap(x.num, x.den);
    }
    MaxDelimZero(x.num, x.den);
  }

  /** `v` and `-v` are both ints: every int but INT_MIN. */
  predicate Negatable(v: int) {
    Abs(v) <= INT_MAX
  }

  /** 0/d reduces to 0/1. */
  lemma ReduceZero(d: Int32)
    requires d != 0
    ensures Reduce(Rational(0, d)) == Success(Rational(0, 1))
  {
    assert TRem(0, d) == 0;
    assert !EuclidTraps(d, 0) && !EuclidTraps(0, d);
    assert Euclid(d, 0) == d;
    assert MaxDelim(0, d) == d;
    TDivExact(d, d, 1);
    TDivExact(0, d, 0);
  }

  /**
    The canonical form the arithmetic keeps: dividing by the magnitude of
    get_max_delim and moving the sign to the numerator, so the denominator
    is positive. It fails with Overflow where no int fraction with a
    positive denominator has the value (2^31 / 1, 1 / 2^31).
   */
  function Normalize(x: Rational): (r: Result<Rational, Error>)
    ensures r.Success? ==> x.den != 0 && r.value.den > 0 && Val(r.value) == Val(x)
    ensures x.den == 0 <==> r == Failure(ZeroDivision)
    ensures r.Failure? && x.den != 0 ==> r.error == Overflow
    ensures x.den > 0 ==> r.Success?
  {
    if x.den == 0 then Failure(ZeroDivision)
    else if MaxDelimTraps(x.num, x.den) then
      EuclidNoTrapPositive(x.num, x.den);
      Failure(Overflow)
    else
      NormalizeParts(x);
      var g := Abs(MaxDelim(x.num, x.den));
      var p, q := TDiv(x.num, g), TDiv(x.den, g);
      if q > 0 then Success(Rational(p, q))
      else if p == INT_MIN || q == INT_MIN then Failure(Overflow)
      else Success(Rational(-p, -q))
  }

  /** A non-zero denominator normalizes when neither part is INT_MIN. */
  lemma NormalizeDefined(x: Rational)
    ensures x.den != 0 && Negatable(x.num) && Negatable(x.den) ==> Normalize(x).Success?
  {
    if x.den != 0 && Negatable(x.num) && Negatable(x.den) {
      EuclidNoTrap(x.num, x.den);
      NormalizeParts(x);
      var g := Abs(MaxDelim(x.num, x.den));
      QuotientBound(Abs(x.num), g);
      QuotientBound(Abs(x.den), g);
    }
  }

  /** The quotients by the magnitude of get_max_delim: ints with the value of `x`. */
  lemma NormalizeParts(x: Rational)
    requires x.den != 0 && !MaxDelimTraps(x.num, x.den)
    ensures Abs(MaxDelim(x.num, x.den)) > 0
    ensures var g := Abs(MaxDelim(x.num, x.den));
      var p, q := TDiv(x.num, g), TDiv(x.den, g);
      IsInt32(p) && IsInt32(q) && q != 0 && (x.den > 0 ==> q > 0)
      && (p as real) / (q as real) == Val(x) && ((-p) as real) / ((-q) as real) == Val(x)
  {
    MaxDelimDivides(x.num, x.den);
    FractionParts(x.num, x.den, MaxDelim(x.num, x.den));
  }

  lemma FractionParts(a: int, b: int, g0: int)
    requires Divides(g0, a) && Divides(g0, b) && b != 0 && IsInt32(a) && IsInt32(b)
    ensures var g := Abs(g0);
      var p, q := TDiv(a, g), TDiv(b, g);
      g > 0 && IsInt32(p) && IsInt32(q) && q != 0 && (b > 0 ==> q > 0)
      && (p as real) / (q as real) == (a as real) / (b as real)
      && ((-p) as real) / ((-q) as real) == (a as real) / (b as real)
  {
    var g := Abs(g0);
    DivideByMagnitude(a, b, g0);
    var p, q := TDiv(a, g), TDiv(b, g);
    ValEq(p, q, a, b);
    assert (-p) * b == -(p * b);
    assert a * (-q) == -(a * q);
    ValEq(-p, -q, a, b);
  }

  lemma DivideByMagnitude(a: int, b: int, g0: int)
    requires Divides(g0, a) && Divides(g0, b) && b != 0 && IsInt32(a) && IsInt32(b)
    ensures var g := Abs(g0);
      var p, q := TDiv(a, g), TDiv(b, g);
      g > 0 && IsInt32(p) && IsInt32(q) && q != 0 && (b > 0 ==> q > 0) && a * q == p * b
  {
    var g := Abs(g0);
    TDivNeg(a, g0);
    TDivNeg(b, g0);
    assert Divides(g, a) && Divides(g, b);
    TDivInt32(a, g);
    TDivInt32(b, g);
    QuotientsKeepValue(a, b, g);
  }

  function SignFix(p: (int, int)): (int, int) {
    if p.1 > 0 then p else (-p.0, -p.1)
  }

  lemma NormalizeIsSignFixed(x: Rational)
    requires Normalize(x).Success?
    ensures x.den != 0
    ensures (Normalize(x).value.num as int, Normalize(x).value.den as int) == SignFix(ReducedPair(x.num, x.den))
  {
    NormalizeParts(x);
    ReducedPairValue(x.num, x.den);
    var g0 := MaxDelim(x.num, x.den);
    MaxDelimZero(x.num, x.den);
    if g0 < 0 {
      TDivNeg(x.num, g0);
      TDivNeg(x.den, g0);
    }
  }

  /** Normalize is a canonical form: equal values give identical fields. */
  lemma NormalizeCanonical(x: Rational, y: Rational)
    requires Normalize(x).Success? && Normalize(y).Success?
    ensures x.den != 0 && y.den != 0
    ensures Normalize(x) == Normalize(y) <==> Val(x) == Val(y)
  {
    NormalizeIsSignFixed(x);
    NormalizeIsSignFixed(y);
    ValEq(x.num, x.den, y.num, y.den);
    SameValueReducedPair(x.num, x.den, y.num, y.den);
    var u, v := Normalize(x).value, Normalize(y).value;
    if u == v {
      assert Val(x) == Val(u) == Val(v) == Val(y);
    }
  }

  /** 0/d normalizes to 0/1. */
  lemma NormalizeZero(d: Int32)
    requires d != 0
    ensures Normalize(Rational(0, d)) == Success(Rational(0, 1))
  {
    ReduceZero(d);
    assert Normalize(Rational(0, d)).Success?;
    NormalizeIsSignFixed(Rational(0, d));
  }

  // ------------------------------------------------------------ constructors

  /** RationalNumber(n, d): rejects a zero, then a negative denominator. */
  function Make(n: Int32, d: Int32): (r: Result<Rational, Error>)
    ensures d == 0 ==> r == Failure(ZeroDivision)
    ensures d < 0 ==> r == Failure(NegativeDenominator)
    ensures d > 0 ==> r.Success? && r.value.num == n && r.value.den == d
  {
    if d == 0 then Failure(ZeroDivision)
    else if d < 0 then Failure(NegativeDenominator)
    else Success(Rational(n, d))
  }

  /** RationalNumber(n): the integer n, over 1. */
  function FromInt(n: Int32): (r: Rational)
    ensures r.den == 1 && Val(r) == n as real
  {
    Rational(n, 1)
  }

  /** RationalNumber(): zero. */
  function Zero(): (r: Rational)
    ensures r.den > 0 && Val(r) == 0.0
  {
    Rational(0, 1)
  }

  // ------------------------------------------------------------ common denominator

  /**
    The schoolbook cross-multiplication of two fractions with positive
    denominators fits an int: x.den * y.den, x.num * y.den and y.num * x.den.
   */
  predicate CrossFits(x: Rational, y: Rational) {
    x.den > 0 && y.den > 0 && IsInt32(x.den * y.den) && IsInt32(x.num * y.den) && IsInt32(y.num * x.den)
  }

  /** The schoolbook numerator of x + y or x - y over x.den * y.den. */
  function CrossSum(x: Rational, y: Rational, subtract: bool): int {
    if subtract then x.num * y.den - y.num * x.den else x.num * y.den + y.num * x.den
  }

  /**
    make_equal_denominator: both fractions scaled to the denominator
    x.den * (y.den / g) for g = get_max_delim(x.den, y.den); each of the
    three products is overflow-checked and the pair is built with the
    checking constructor.
   */
  function MakeEqualDenominator(x: Rational, y: Rational): (r: Result<(Rational, Rational), Error>)
    ensures r.Success? ==> r.value.0.den == r.value.1.den > 0
    ensures r.Success? ==> x.den != 0 && y.den != 0
    ensures r.Success? ==> Val(r.value.0) == Val(x) && Val(r.value.1) == Val(y)
    ensures x.den > 0 && y.den > 0 && r.Failure? ==> r.error == Overflow
  {
    MedPositive(x, y);
    if MaxDelimTraps(x.den, y.den) then Failure(Trap)
    else
      var g := MaxDelim(x.den, y.den);
      if g == 0 then Failure(Trap)
      else if g == -1 && (x.den == INT_MIN || y.den == INT_MIN) then Failure(Trap)
      else ScaleToCommon(x, y, g)
  }

  /**
    The rest of make_equal_denominator once g is known: the cofactors
    y.den / g and x.den / g, the three overflow-checked products, and the
    pair built with the checking constructor.
   */
  function ScaleToCommon(x: Rational, y: Rational, g: int): (r: Result<(Rational, Rational), Error>)
    requires g == MaxDelim(x.den, y.den) && g != 0 && !(g == -1 && (x.den == INT_MIN || y.den == INT_MIN))
    ensures r.Success? ==> r.value.0.den == r.value.1.den > 0
    ensures r.Success? ==> x.den != 0 && y.den != 0
    ensures r.Success? ==> Val(r.value.0) == Val(x) && Val(r.value.1) == Val(y)
    ensures x.den > 0 && y.den > 0 && r.Failure? ==> r.error == Overflow
  {
    MedPositive(x, y);
    MaxDelimZero(x.den, y.den);
    MaxDelimDivides(x.den, y.den);
    TDivInt32(y.den, g);
    TDivInt32(x.den, g);
    var f, s := TDiv(y.den, g), TDiv(x.den, g);
    if !IsInt32(f * x.den) || !IsInt32(f * x.num) || !IsInt32(s * y.num) then Failure(Overflow)
    else
      var d, n1, n2 := f * x.den, f * x.num, s * y.num;
      if d == 0 then Failure(ZeroDivision)
      else if d < 0 then Failure(NegativeDenominator)
      else
        CommonDenominatorValue(x.num, x.den, y.num, y.den, g);
        var a, b := Make(n1, d), Make(n2, d);
        Success((a.value, b.value))
  }

  lemma MedPositive(x: Rational, y: Rational)
    ensures x.den > 0 && y.den > 0 ==>
      !MaxDelimTraps(x.den, y.den) && MaxDelim(x.den, y.den) > 0
      && TDiv(y.den, MaxDelim(x.den, y.den)) > 0 && TDiv(x.den, MaxDelim(x.den, y.den)) > 0
  {
    if x.den > 0 && y.den > 0 {
      EuclidNoTrapPositive(x.den, y.den);
      EuclidNonNegative(x.den, y.den);
      MaxDelimZero(x.den, y.den);
      MaxDelimDivides(x.den, y.den);
      var g := MaxDelim(x.den, y.den);
      DivideByMagnitude(x.den, y.den, g);
      DivideByMagnitude(y.den, x.den, g);
    }
  }

  /**
    make_equal_denominator succeeds whenever the schoolbook products fit an
    int, and each part it builds is that product divided by g =
    get_max_delim(x.den, y.den): the denominator is the least common multiple.
   */
  lemma EqualDenominatorDefined(x: Rational, y: Rational)
    ensures CrossFits(x, y) ==> (MakeEqualDenominator(x, y).Success? && MaxDelim(x.den, y.den) >= 1
      && MakeEqualDenominator(x, y).value.0.den * MaxDelim(x.den, y.den) == x.den * y.den
      && MakeEqualDenominator(x, y).value.0.num * MaxDelim(x.den, y.den) == x.num * y.den
      && MakeEqualDenominator(x, y).value.1.num * MaxDelim(x.den, y.den) == y.num * x.den)
  {
    if CrossFits(x, y) {
      MedPositive(x, y);
      CofactorsFit(x, y);
    }
  }

  /**
    The cofactors y.den / g and x.den / g of g = get_max_delim(x.den, y.den)
    give the schoolbook products divided by g, so none of
    make_equal_denominator's products overflows where those do not.
   */
  lemma CofactorsFit(x: Rational, y: Rational)
    ensures CrossFits(x, y) ==>
      var g := MaxDelim(x.den, y.den);
      g >= 1 && (var f, s := TDiv(y.den, g), TDiv(x.den, g);
        (f * x.den) * g == x.den * y.den && (f * x.num) * g == x.num * y.den
        && (s * y.num) * g == y.num * x.den
        && f * x.den > 0 && IsInt32(f * x.den) && IsInt32(f * x.num) && IsInt32(s * y.num))
  {
    if CrossFits(x, y) {
      MedPositive(x, y);
      var g := MaxDelim(x.den, y.den);
      MaxDelimDivides(x.den, y.den);
      var f, s := TDiv(y.den, g), TDiv(x.den, g);
      Cofactor(y.den, g);
      Cofactor(x.den, g);
      assert (f * x.den) * g == x.den * (g * f);
      PartBound(f * x.den, g, x.den * y.den);
      assert (f * x.num) * g == x.num * (g * f);
      PartBound(f * x.num, g, x.num * y.den);
      assert (s * y.num) * g == y.num * (g * s);
      PartBound(s * y.num, g, y.num * x.den);
      MulPos(f, x.den);
    }
  }

  /** A whole share `t` of `n` by a factor g >= 1 is no larger than `n`, and an int when `n` is. */
  lemma PartBound(t: int, g: int, n: int)
    requires g >= 1 && t * g == n
    ensures Abs(t) <= Abs(n)
    ensures IsInt32(n) ==> IsInt32(t)
  {
    AbsMul(t, g);
    if Abs(t) > 0 { MulAtLeast(g, Abs(t)); }
    if t > 0 { MulPos(t, g); }
  }

  /** Shares of two numbers by the same factor add and subtract as shares of the sum and difference. */
  lemma SharedNumerators(a: int, b: int, g: int, c: int, e: int)
    ensures g >= 1 && a * g == c && b * g == e ==>
      Abs(a + b) <= Abs(c + e) && Abs(a - b) <= Abs(c - e)
      && (IsInt32(c + e) ==> IsInt32(a + b)) && (IsInt32(c - e) ==> IsInt32(a - b))
  {
    if g >= 1 && a * g == c && b * g == e {
      assert (a + b) * g == c + e;
      assert (a - b) * g == c - e;
      PartBound(a + b, g, c + e);
      PartBound(a - b, g, c - e);
    }
  }

  lemma CommonDenominatorValue(xn: int, xd: int, yn: int, yd: int, g: int)
    requires Divides(g, xd) && Divides(g, yd) && xd != 0 && yd != 0
    requires (TDiv(yd, g) * xd) != 0
    ensures var f, s := TDiv(yd, g), TDiv(xd, g);
      ((f * xn) as real) / ((f * xd) as real) == (xn as real) / (xd as real)
      && ((s * yn) as real) / ((f * xd) as real) == (yn as real) / (yd as real)
  {
    var f, s := TDiv(yd, g), TDiv(xd, g);
    Cofactor(xd, g);
    Cofactor(yd, g);
    ScaledValue(f, xn, xd);
    CrossFactors(g, s, f);
    ScaledValue(s, yn, yd);
  }

  /** Scaling both parts of a fraction by the same non-zero factor keeps its value. */
  lemma ScaledValue(k: int, n: int, d: int)
    requires k != 0 && d != 0
    ensures ((k * n) as real) / ((k * d) as real) == (n as real) / (d as real)
  {
    assert (k * n) * d == n * (k * d);
    ValEq(k * n, k * d, n, d);
  }

  lemma CrossFactors(g: int, s: int, f: int)
    ensures f * (g * s) == s * (g * f)
  {
  }

  // ------------------------------------------------------------ arithmetic

  /** The fraction += and -= hold before make_canonical: a checked sum or
      difference over the common denominator. */
  function SumRaw(x: Rational, y: Rational, subtract: bool): (r: Result<Rational, Error>)
    ensures r.Success? ==> x.den != 0 && y.den != 0 && r.value.den > 0
    ensures r.Success? ==> Val(r.value) == if subtract then Val(x) - Val(y) else Val(x) + Val(y)
    ensures x.den > 0 && y.den > 0 && r.Failure? ==> r.error == Overflow
    ensures CrossFits(x, y) && IsInt32(CrossSum(x, y, subtract)) ==>
      r.Success? && Abs(r.value.num) <= Abs(CrossSum(x, y, subtract))
  {
    EqualDenominatorDefined(x, y);
    var p :- MakeEqualDenominator(x, y);
    SharedNumerators(p.0.num, p.1.num, MaxDelim(x.den, y.den), x.num * y.den, y.num * x.den);
    var n := if subtract then p.0.num - p.1.num else p.0.num + p.1.num;
    if IsInt32(n) then
      SplitSum(p.0.num, p.1.num, p.0.den, subtract);
      Success(Rational(n, p.0.den))
    else Failure(Overflow)
  }

  lemma SplitSum(a: int, b: int, d: int, subtract: bool)
    requires d != 0
    ensures ((if subtract then a - b else a + b) as real) / (d as real)
      == if subtract then (a as real) / (d as real) - (b as real) / (d as real)
         else (a as real) / (d as real) + (b as real) / (d as real)
  {
  }

  /** The fraction *= holds before make_canonical: checked products, denominator first. */
  function ProductRaw(x: Rational, y: Rational): (r: Result<Rational, Error>)
    ensures r.Success? && x.den != 0 && y.den != 0 ==> r.value.den != 0 && Val(r.value) == Val(x) * Val(y)
    ensures r.Success? && x.den > 0 && y.den > 0 ==> r.value.den > 0
    ensures r.Success? <==> IsInt32(x.den * y.den) && IsInt32(x.num * y.num)
    ensures r.Failure? ==> r.error == Overflow
  {
    if !IsInt32(x.den * y.den) then Failure(Overflow)
    else if !IsInt32(x.num * y.num) then Failure(Overflow)
    else
      var r := Rational(x.num * y.num, x.den * y.den);
      if x.den != 0 && y.den != 0 then
        FractionProduct(x.num, x.den, y.num, y.den);
        if x.den > 0 && y.den > 0 then MulPos(x.den, y.den); Success(r)
        else Success(r)
      else Success(r)
  }

  lemma FractionProduct(a: int, b: int, c: int, d: int)
    requires b != 0 && d != 0
    ensures b * d != 0
    ensures ((a * c) as real) / ((b * d) as real) == ((a as real) / (b as real)) * ((c as real) / (d as real))
  {
    SignOfProduct(b, d);
    RealMul(a, c);
    RealMul(b, d);
  }

  /** The fraction /= holds before make_canonical: checked products, denominator first. */
  function QuotientRaw(x: Rational, y: Rational): (r: Result<Rational, Error>)
    ensures r.Success? && x.den != 0 && y.den != 0 && y.num != 0 ==>
      r.value.den != 0 && Val(r.value) == Val(x) / Val(y)
    ensures r.Success? <==> IsInt32(x.den * y.num) && IsInt32(x.num * y.den)
    ensures r.Failure? ==> r.error == Overflow
  {
    if !IsInt32(x.den * y.num) then Failure(Overflow)
    else if !IsInt32(x.num * y.den) then Failure(Overflow)
    else
      var r := Rational(x.num * y.den, x.den * y.num);
      if x.den != 0 && y.den != 0 && y.num != 0 then
        FractionQuotient(x.num, x.den, y.num, y.den);
        Success(r)
      else Success(r)
  }

  lemma FractionQuotient(a: int, b: int, c: int, d: int)
    requires b != 0 && d != 0 && c != 0
    ensures b * c != 0
    ensures ((a * d) as real) / ((b * c) as real) == ((a as real) / (b as real)) / ((c as real) / (d as real))
  {
    SignOfProduct(b, c);
    RealMul(a, d);
    RealMul(b, c);
  }

  /** `x + y` (and `x += y`), corrected: the sum, normalized. */
  function Add(x: Rational, y: Rational): (r: Result<Rational, Error>)
    ensures x.den > 0 && y.den > 0 && r.Success? ==> r.value.den > 0 && Val(r.value) == Val(x) + Val(y)
    ensures x.den > 0 && y.den > 0 && r.Failure? ==> r.error == Overflow
    ensures CrossFits(x, y) && IsInt32(CrossSum(x, y, false)) ==> r.Success?
  {
    var s :- SumRaw(x, y, false);
    Normalize(s)
  }

  /** `x - y` (and `x -= y`), corrected. */
  function Sub(x: Rational, y: Rational): (r: Result<Rational, Error>)
    ensures x.den > 0 && y.den > 0 && r.Success? ==> r.value.den > 0 && Val(r.value) == Val(x) - Val(y)
    ensures x.den > 0 && y.den > 0 && r.Failure? ==> r.error == Overflow
    ensures CrossFits(x, y) && IsInt32(CrossSum(x, y, true)) ==> r.Success?
  {
    var s :- SumRaw(x, y, true);
    Normalize(s)
  }

  /** `x * y` (and `x *= y`), corrected. */
  function Mul(x: Rational, y: Rational): (r: Result<Rational, Error>)
    ensures x.den > 0 && y.den > 0 && r.Success? ==> r.value.den > 0 && Val(r.value) == Val(x) * Val(y)
    ensures x.den > 0 && y.den > 0 && r.Failure? ==> r.error == Overflow
    ensures x.den > 0 && y.den > 0 ==> (r.Success? <==> IsInt32(x.den * y.den) && IsInt32(x.num * y.num))
  {
    var s :- ProductRaw(x, y);
    Normalize(s)
  }

  /** `x / y` (and `x /= y`), corrected: a zero divisor is rejected. */
  function Div(x: Rational, y: Rational): (r: Result<Rational, Error>)
    ensures y.num == 0 ==> r == Failure(ZeroDivision)
    ensures x.den > 0 && y.den > 0 && r.Success? ==> r.value.den > 0 && Val(r.value) == Val(x) / Val(y)
    ensures x.den > 0 && y.den > 0 && r.Failure? && y.num != 0 ==> r.error == Overflow
    ensures x.den > 0 && y.den > 0 && y.num != 0 && Negatable(x.den * y.num) && Negatable(x.num * y.den) ==>
      r.Success?
  {
    if y.num == 0 then Failure(ZeroDivision)
    else
      var s :- QuotientRaw(x, y);
      NormalizeDefined(s);
      Normalize(s)
  }

  /** Unary minus: the numerator times -1, overflow-checked. */
  function Negate(x: Rational): (r: Result<Rational, Error>)
    ensures r.Failure? <==> x.num == INT_MIN
    ensures r.Failure? ==> r.error == Overflow
    ensures r.Success? ==> r.value.den == x.den
    ensures r.Success? && x.den != 0 ==> Val(r.value) == -Val(x)
  {
    if !IsInt32(x.num * -1) then Failure(Overflow)
    else Success(Rational(x.num * -1, x.den))
  }

  /** Prefix ++, corrected: adds the integer 1. */
  function Increment(x: Rational): (r: Result<Rational, Error>)
    ensures x.den > 0 && r.Success? ==> r.value.den > 0 && Val(r.value) == Val(x) + 1.0
    ensures x.den > 0 && r.Failure? ==> r.error == Overflow
    ensures x.den > 0 && IsInt32(x.num + x.den) ==> r.Success?
  {
    Add(x, FromInt(1))
  }

  /** Prefix --, corrected: subtracts the integer 1. */
  function Decrement(x: Rational): (r: Result<Rational, Error>)
    ensures x.den > 0 && r.Success? ==> r.value.den > 0 && Val(r.value) == Val(x) - 1.0
    ensures x.den > 0 && r.Failure? ==> r.error == Overflow
    ensures x.den > 0 && IsInt32(x.num - x.den) ==> r.Success?
  {
    Sub(x, FromInt(1))
  }

  // ------------------------------------------------------------ as written

  /** `a` is `b` with both parts negated. */
  predicate SignFlipped(a: Rational, b: Rational) {
    a.num as int == -(b.num as int) && a.den as int == -(b.den as int)
  }

  /**
    `b` is what the corrected arithmetic makes of the as-written result
    `a`: the same fraction when the denominator of `a` is positive, and
    both parts negated when it is negative.
   */
  predicate Corrects(b: Rational, a: Rational) {
    a.den != 0 && (a.den > 0 ==> a == b) && (a.den < 0 ==> SignFlipped(a, b))
  }

  /**
    make_canonical as written differs from the corrected form only by the
    sign of both parts, and only where the denominator came out negative.
   */
  lemma ReduceAgainstNormalize(s: Rational)
    requires Reduce(s).Success? && Normalize(s).Success?
    ensures Corrects(Normalize(s).value, Reduce(s).value)
  {
    NormalizeIsSignFixed(s);
  }

  /** make_canonical of n/0: 0/0 divides by zero, any other n gives 1/0. */
  lemma ReduceOverZero(n: Int32)
    ensures Reduce(Rational(n, 0)) == if n == 0 then Failure(Trap) else Success(Rational(1, 0))
  {
    if n != 0 {
      EuclidEnd(n);
      TDivExact(n, n, 1);
      TDivExact(0, n, 0);
    }
  }

  /**
    operator+= as the C++ writes it: the sum reduced by make_canonical as
    written. It has the value of the sum, and it is the corrected sum up
    to the sign of both parts; it fails wherever the corrected sum fails,
    and beyond that only by a trapping division.
   */
  function AddAsWritten(x: Rational, y: Rational): (r: Result<Rational, Error>)
    ensures r.Success? ==> x.den != 0 && y.den != 0 && r.value.den != 0 && Val(r.value) == Val(x) + Val(y)
    ensures r.Success? ==> Add(x, y).Success? && Corrects(Add(x, y).value, r.value)
    ensures Add(x, y).Failure? ==> r == Add(x, y)
    ensures r.Failure? && Add(x, y).Success? ==> r.error == Trap
    ensures CrossFits(x, y) && Negatable(CrossSum(x, y, false)) ==> r.Success?
  {
    var s :- SumRaw(x, y, false);
    ReduceDefined(s);
    var r := Reduce(s);
    if r.Success? then ReduceAgainstNormalize(s); r else r
  }

  /** operator-= as the C++ writes it. */
  function SubAsWritten(x: Rational, y: Rational): (r: Result<Rational, Error>)
    ensures r.Success? ==> x.den != 0 && y.den != 0 && r.value.den != 0 && Val(r.value) == Val(x) - Val(y)
    ensures r.Success? ==> Sub(x, y).Success? && Corrects(Sub(x, y).value, r.value)
    ensures Sub(x, y).Failure? ==> r == Sub(x, y)
    ensures r.Failure? && Sub(x, y).Success? ==> r.error == Trap
    ensures CrossFits(x, y) && Negatable(CrossSum(x, y, true)) ==> r.Success?
  {
    var s :- SumRaw(x, y, true);
    ReduceDefined(s);
    var r := Reduce(s);
    if r.Success? then ReduceAgainstNormalize(s); r else r
  }

  /** operator*= as the C++ writes it: 3/5 * -5/6 is left as 1/-2. */
  function MulAsWritten(x: Rational, y: Rational): (r: Result<Rational, Error>)
    ensures r.Success? && x.den != 0 && y.den != 0 ==> r.value.den != 0 && Val(r.value) == Val(x) * Val(y)
    ensures r.Success? && Mul(x, y).Success? ==> Corrects(Mul(x, y).value, r.value)
    ensures x.den > 0 && y.den > 0 && r.Success? ==> Mul(x, y).Success?
    ensures x.den > 0 && y.den > 0 && Mul(x, y).Failure? ==> r == Mul(x, y)
    ensures x.den > 0 && y.den > 0 && IsInt32(x.den * y.den) && Negatable(x.num * y.num) ==> r.Success?
  {
    var s :- ProductRaw(x, y);
    ReduceDefined(s);
    var r := Reduce(s);
    if r.Success? && Normalize(s).Success? then ReduceAgainstNormalize(s); r else r
  }

  /**
    operator/= as the C++ writes it: no check of the divisor, so a zero
    divisor leaves the denominator 0 (the fraction 1/0), or divides by
    zero when the numerator is 0 as well.
   */
  function DivAsWritten(x: Rational, y: Rational): (r: Result<Rational, Error>)
    ensures y.num == 0 ==> (r == if !IsInt32(x.num * y.den) then Failure(Overflow)
      else if x.num * y.den == 0 then Failure(Trap) else Success(Rational(1, 0)))
    ensures r.Success? && x.den != 0 && y.den != 0 && y.num != 0 ==>
      r.value.den != 0 && Val(r.value) == Val(x) / Val(y)
    ensures r.Success? && Div(x, y).Success? ==> Corrects(Div(x, y).value, r.value)
    ensures x.den > 0 && y.den > 0 && y.num != 0 && Negatable(x.den * y.num) && Negatable(x.num * y.den) ==>
      r.Success?
  {
    var s :- QuotientRaw(x, y);
    ReduceDefined(s);
    if y.num == 0 then ReduceOverZero(s.num); Reduce(s)
    else
      var r := Reduce(s);
      if r.Success? && Normalize(s).Success? then ReduceAgainstNormalize(s); r else r
  }

  /** Prefix ++ as the C++ writes it: += 1, so -5/2 becomes 3/-2. */
  function IncrementAsWritten(x: Rational): (r: Result<Rational, Error>)
    ensures r.Success? ==> x.den != 0 && r.value.den != 0 && Val(r.value) == Val(x) + 1.0
    ensures r.Success? ==> Increment(x).Success? && Corrects(Increment(x).value, r.value)
    ensures Increment(x).Failure? ==> r == Increment(x)
    ensures x.den > 0 && Negatable(x.num + x.den) ==> r.Success?
  {
    AddAsWritten(x, FromInt(1))
  }

  /** Prefix -- as the C++ writes it: -= 1. */
  function DecrementAsWritten(x: Rational): (r: Result<Rational, Error>)
    ensures r.Success? ==> x.den != 0 && r.value.den != 0 && Val(r.value) == Val(x) - 1.0
    ensures r.Success? ==> Decrement(x).Success? && Corrects(Decrement(x).value, r.value)
    ensures Decrement(x).Failure? ==> r == Decrement(x)
    ensures x.den > 0 && Negatable(x.num - x.den) ==> r.Success?
  {
    SubAsWritten(x, FromInt(1))
  }

  /**
    A difference of two valid fractions is left with a negative
    denominator, and adding 1 to it then throws
    negative_denominator_error; the normalized arithmetic gives -7/30 and
    23/30.
   */
  lemma NegativeDenominatorFinding()
    ensures SubAsWritten(Rational(3, 5), Rational(5, 6)) == Success(Rational(7, -30))
    ensures AddAsWritten(Rational(7, -30), FromInt(1)) == Failure(NegativeDenominator)
    ensures Sub(Rational(3, 5), Rational(5, 6)) == Success(Rational(-7, 30))
    ensures Add(Rational(-7, 30), FromInt(1)) == Success(Rational(23, 30))
  {
    NegativeDenominatorSub();
    NegativeDenominatorAdd();
    NormalizedDifference();
  }

  lemma NegativeDenominatorSub()
    ensures SubAsWritten(Rational(3, 5), Rational(5, 6)) == Success(Rational(7, -30))
  {
    MedOf3Over5And5Over6();
    assert SumRaw(Rational(3, 5), Rational(5, 6), true) == Success(Rational(-7, 30));
    ReduceMinus7Over30();
  }

  /** -7/30 reduced by the C++ gcd, which is -1 here, becomes 7/-30. */
  lemma ReduceMinus7Over30()
    ensures Reduce(Rational(-7, 30)) == Success(Rational(7, -30))
  {
    GcdMinus7And30();
    assert TDiv(-7, -1) == 7 && TDiv(30, -1) == -30;
  }

  lemma NegativeDenominatorAdd()
    ensures AddAsWritten(Rational(7, -30), FromInt(1)) == Failure(NegativeDenominator)
  {
    GcdMinus30And1();
  }

  lemma NormalizedDifference()
    ensures Sub(Rational(3, 5), Rational(5, 6)) == Success(Rational(-7, 30))
    ensures Add(Rational(-7, 30), FromInt(1)) == Success(Rational(23, 30))
  {
    MedOf3Over5And5Over6();
    GcdMinus7And30();
    Gcd30And1();
    Gcd23And30();
  }

  lemma MedOf3Over5And5Over6()
    ensures MakeEqualDenominator(Rational(3, 5), Rational(5, 6)) == Success((Rational(18, 30), Rational(25, 30)))
  {
    Gcd5And6();
    assert TDiv(6, 1) == 6 && TDiv(5, 1) == 5;
  }

  /** `x /= 0` stores the fraction 1/0 instead of throwing zero_division_error. */
  lemma DivisionByZeroFinding()
    ensures DivAsWritten(Rational(3, 5), Rational(0, 1)) == Success(Rational(1, 0))
    ensures Div(Rational(3, 5), Rational(0, 1)) == Failure(ZeroDivision)
  {
    Gcd3And0();
    assert QuotientRaw(Rational(3, 5), Rational(0, 1)) == Success(Rational(3, 0));
  }

  // ------------------------------------------------------------ comparisons

  /**
    operator==: the two make_canonical (as written) forms agree field by
    field, which despite negative divisors is equality of values; only a
    trapping make_canonical makes it fail.
   */
  function Equals(x: Rational, y: Rational): (r: Result<bool, Error>)
    ensures r.Failure? ==> r.error == Trap
    ensures x.den != 0 && y.den != 0 && r.Success? ==> (r.value <==> Val(x) == Val(y))
    ensures x.den > 0 && y.den > 0 && x.num != INT_MIN && y.num != INT_MIN ==> r.Success?
  {
    ReduceDefined(x);
    ReduceDefined(y);
    var a :- Reduce(x);
    var b :- Reduce(y);
    if x.den != 0 && y.den != 0 then
      SameValueReducedPair(x.num, x.den, y.num, y.den);
      ValEq(x.num, x.den, y.num, y.den);
      Success(a == b)
    else Success(a == b)
  }

  /** operator!=: the negation of ==, inequality of values. */
  function NotEquals(x: Rational, y: Rational): (r: Result<bool, Error>)
    ensures r.Failure? ==> r.error == Trap
    ensures x.den != 0 && y.den != 0 && r.Success? ==> (r.value <==> Val(x) != Val(y))
    ensures x.den > 0 && y.den > 0 && x.num != INT_MIN && y.num != INT_MIN ==> r.Success?
  {
    var e :- Equals(x, y);
    Success(!e)
  }

  /** operator< for two RationalNumber<int>: numerators over the common denominator. */
  function Less(x: Rational, y: Rational): (r: Result<bool, Error>)
    ensures x.den != 0 && y.den != 0 && r.Success? ==> r.value == (Val(x) < Val(y))
    ensures x.den > 0 && y.den > 0 && r.Failure? ==> r.error == Overflow
    ensures CrossFits(x, y) ==> r.Success?
  {
    EqualDenominatorDefined(x, y);
    var p :- MakeEqualDenominator(x, y);
    OrderOverDenominator(p.0.num, p.1.num, p.0.den);
    Success(p.0.num < p.1.num)
  }

  lemma OrderOverDenominator(a: int, b: int, d: int)
    requires d > 0
    ensures a < b <==> (a as real) / (d as real) < (b as real) / (d as real)
  {
  }

  /** operator>: `y < x`. */
  function Greater(x: Rational, y: Rational): (r: Result<bool, Error>)
    ensures x.den != 0 && y.den != 0 && r.Success? ==> r.value == (Val(x) > Val(y))
    ensures x.den > 0 && y.den > 0 && r.Failure? ==> r.error == Overflow
    ensures CrossFits(y, x) ==> r.Success?
  {
    Less(y, x)
  }

  /** operator<=: `!(y < x)`. */
  function LessEq(x: Rational, y: Rational): (r: Result<bool, Error>)
    ensures x.den != 0 && y.den != 0 && r.Success? ==> r.value == (Val(x) <= Val(y))
    ensures x.den > 0 && y.den > 0 && r.Failure? ==> r.error == Overflow
    ensures CrossFits(y, x) ==> r.Success?
  {
    var l :- Less(y, x);
    Success(!l)
  }

  /** operator>=: `!(x < y)`. */
  function GreaterEq(x: Rational, y: Rational): (r: Result<bool, Error>)
    ensures x.den != 0 && y.den != 0 && r.Success? ==> r.value == (Val(x) >= Val(y))
    ensures x.den > 0 && y.den > 0 && r.Failure? ==> r.error == Overflow
    ensures CrossFits(x, y) ==> r.Success?
  {
    var l :- Less(x, y);
    Success(!l)
  }

  // ------------------------------------------------------------ conversions

  /**
    operator int: the truncating quotient. The range check after it never
    fires, since an int quotient of ints fits an int except INT_MIN / -1,
    which like a zero denominator is undefined.
   */
  function ToInt(x: Rational): (r: Result<Int32, Error>)
    ensures r.Failure? <==> x.den == 0 || (x.num == INT_MIN && x.den == -1)
    ensures r.Success? && x.den > 0 && x.num >= 0 ==> r.value * x.den <= x.num < (r.value + 1) * x.den
    ensures r.Success? && x.den > 0 && x.num < 0 ==> (r.value - 1) * x.den < x.num <= r.value * x.den
    ensures r.Success? ==> var m := x.num - x.den * r.value;
      Abs(m) < Abs(x.den) && (x.num >= 0 ==> m >= 0) && (x.num <= 0 ==> m <= 0)
  {
    if x.den == 0 || (x.num == INT_MIN && x.den == -1) then Failure(Trap)
    else
      TDivInt32(x.num, x.den);
      TruncatedQuotient(x.num, x.den);
      Success(TDiv(x.num, x.den))
  }

  /** The remainder left by a truncating quotient, and the bounds it gives for a positive divisor. */
  lemma TruncatedQuotient(n: int, d: int)
    requires d != 0
    ensures var q := TDiv(n, d); var m := n - d * q;
      Abs(m) < Abs(d) && (n >= 0 ==> m >= 0) && (n <= 0 ==> m <= 0)
      && (d > 0 && n >= 0 ==> q * d <= n < (q + 1) * d)
      && (d > 0 && n < 0 ==> (q - 1) * d < n <= q * d)
  {
    var q := TDiv(n, d);
    TRemBounds(n, d);
    TDivTRem(n, d);
    assert (q + 1) * d == q * d + d;
    assert (q - 1) * d == q * d - d;
  }

  /**
    operator std::string: "n/d" with the stored fields, unreduced; the text
    before its first '/' reads back as the numerator and the rest as the
    denominator.
   */
  function ToString(x: Rational): (r: string)
    ensures var k := Text.IndexOf(r, '/');
      k < |r| && Text.ParseInteger(r[..k]) == Some(x.num as int) && Text.ParseInteger(r[k + 1..]) == Some(x.den as int)
  {
    var a, b := Text.IntToString(x.num), Text.IntToString(x.den);
    Text.IntToStringShape(x.num);
    Text.ParseIntToString(x.num);
    Text.ParseIntToString(x.den);
    Text.IndexOfAfter(a, '/', b);
    var r := a + ['/'] + b;
    assert r[..|a|] == a;
    assert r[|a| + 1..] == b;
    r
  }

  /**
    RationalNumber(const char*, const char*): both parts parsed as long long,
    narrowed to int, then the checking constructor. C++ leaves the order of
    the two std::stoll calls open; this model parses the numerator first, so
    when both parts are malformed it reports the numerator's error.
   */
  function FromParts(n: string, d: string): (r: Result<Rational, Error>)
    ensures r.Success? ==> r.value.den > 0
    ensures r != Failure(InvalidString)
    ensures Text.Stoll(n).Failure? ==> r == Failure(Parse(Text.Stoll(n).error))
    ensures Text.Stoll(n).Success? && Text.Stoll(d).Failure? ==> r == Failure(Parse(Text.Stoll(d).error))
    ensures Text.Stoll(n).Success? && Text.Stoll(d).Success? ==>
      var a, b := Wrap32(Text.Stoll(n).value), Wrap32(Text.Stoll(d).value);
      (r.Success? <==> b > 0) && (r.Success? ==> r.value == Rational(a, b))
      && (b == 0 ==> r == Failure(ZeroDivision)) && (b < 0 ==> r == Failure(NegativeDenominator))
  {
    match Text.Stoll(n)
    case Failure(e) => Failure(Parse(e))
    case Success(a) =>
      match Text.Stoll(d)
      case Failure(e) => Failure(Parse(e))
      case Success(b) => Make(Wrap32(a), Wrap32(b))
  }

  /** RationalNumber(const char*): the text around the first '/', which must exist. */
  function FromString(s: string): (r: Result<Rational, Error>)
    ensures r == Failure(InvalidString) <==> forall i :: 0 <= i < |s| ==> s[i] != '/'
    ensures r.Success? ==> r.value.den > 0
    ensures forall i :: 0 <= i < |s| && s[i] == '/' && '/' !in s[..i] ==> r == FromParts(s[..i], s[i + 1..])
  {
    var k := Text.IndexOf(s, '/');
    if k == |s| then Failure(InvalidString)
    else FromParts(s[..k], s[k + 1..])
  }

  /** Printing and parsing back gives the same fields. */
  lemma StringRoundTrip(x: Rational)
    requires x.den > 0
    ensures FromString(ToString(x)) == Success(x)
  {
  }

  // ------------------------------------------------------------ gcd of the example values

  /** One turn of the get_max_delim loop, with the remainder it computes. */
  lemma EuclidStep(a: int, b: int, r: int)
    requires b != 0 && TRem(a, b) == r
    ensures Euclid(a, b) == Euclid(b, r)
    ensures EuclidTraps(a, b) <==> (a == INT_MIN && b == -1) || EuclidTraps(b, r)
  {
  }

  /** The loop stops once the second operand is zero. */
  lemma EuclidEnd(a: int)
    ensures Euclid(a, 0) == a && !EuclidTraps(a, 0)
  {
  }

  lemma Gcd5And6()
    ensures MaxDelim(5, 6) == 1 && !MaxDelimTraps(5, 6)
  {
    EuclidStep(5, 6, 5);
    EuclidStep(6, 5, 1);
    EuclidStep(5, 1, 0);
    EuclidEnd(1);
  }

  lemma Gcd6And5()
    ensures MaxDelim(6, 5) == 1 && !MaxDelimTraps(6, 5)
  {
    EuclidStep(6, 5, 1);
    EuclidStep(5, 1, 0);
    EuclidEnd(1);
  }

  lemma Gcd43And30()
    ensures MaxDelim(43, 30) == 1 && !MaxDelimTraps(43, 30)
  {
    EuclidSteps4(43, 30, 13, 4, 1);
  }

  /** Four turns of the loop over positive values, with the remainders c, d, e and then 0. */
  lemma EuclidSteps4(a: int, b: int, c: int, d: int, e: int)
    requires 0 < e < d < c < b < a <= INT_MAX
    requires TRem(a, b) == c && TRem(b, c) == d && TRem(c, d) == e && TRem(d, e) == 0
    ensures MaxDelim(a, b) == e && !MaxDelimTraps(a, b)
  {
    EuclidNoTrapPositive(a, b);
    EuclidStep(a, b, c);
    EuclidStep(b, c, d);
    EuclidStep(c, d, e);
    EuclidStep(d, e, 0);
    EuclidEnd(e);
  }

  lemma GcdMinus7And30()
    ensures MaxDelim(-7, 30) == -1 && !MaxDelimTraps(-7, 30)
  {
    EuclidStep(-7, 30, -7);
    EuclidStep(30, -7, 2);
    EuclidStep(-7, 2, -1);
    EuclidStep(2, -1, 0);
    EuclidEnd(-1);
  }

  lemma Gcd7AndMinus30()
    ensures MaxDelim(7, -30) == 1 && !MaxDelimTraps(7, -30)
  {
    EuclidStep(7, -30, 7);
    EuclidStep(-30, 7, -2);
    EuclidStep(7, -2, 1);
    EuclidStep(-2, 1, 0);
    EuclidEnd(1);
  }

  lemma Gcd15And30()
    ensures MaxDelim(15, 30) == 15 && !MaxDelimTraps(15, 30)
  {
    EuclidStep(15, 30, 15);
    EuclidStep(30, 15, 0);
    EuclidEnd(15);
  }

  lemma Gcd18And25()
    ensures MaxDelim(18, 25) == 1 && !MaxDelimTraps(18, 25)
  {
    EuclidSteps6(18, 25, 7, 4, 3, 1);
  }

  /** Six turns of the loop over positive values, with the remainders a, c, d, e, f and then 0. */
  lemma EuclidSteps6(a: int, b: int, c: int, d: int, e: int, f: int)
    requires 0 < f < e < d < c < a < b <= INT_MAX
    requires TRem(a, b) == a && TRem(b, a) == c && TRem(a, c) == d
    requires TRem(c, d) == e && TRem(d, e) == f && TRem(e, f) == 0
    ensures MaxDelim(a, b) == f && !MaxDelimTraps(a, b)
  {
    EuclidNoTrapPositive(a, b);
    EuclidStep(a, b, a);
    EuclidStep(b, a, c);
    EuclidStep(a, c, d);
    EuclidStep(c, d, e);
    EuclidStep(d, e, f);
    EuclidStep(e, f, 0);
    EuclidEnd(f);
  }

  lemma Gcd3And5()
    ensures MaxDelim(3, 5) == 1 && !MaxDelimTraps(3, 5)
  {
    EuclidStep(3, 5, 3);
    EuclidStep(5, 3, 2);
    EuclidStep(3, 2, 1);
    EuclidStep(2, 1, 0);
    EuclidEnd(1);
  }

  lemma GcdMinus30And1()
    ensures MaxDelim(-30, 1) == 1 && !MaxDelimTraps(-30, 1)
  {
    EuclidStep(-30, 1, 0);
    EuclidEnd(1);
  }

  lemma Gcd30And1()
    ensures MaxDelim(30, 1) == 1 && !MaxDelimTraps(30, 1)
  {
    EuclidStep(30, 1, 0);
    EuclidEnd(1);
  }

  lemma Gcd23And30()
    ensures MaxDelim(23, 30) == 1 && !MaxDelimTraps(23, 30)
  {
    EuclidSteps5(23, 30, 7, 2, 1);
  }

  /** Five turns of the loop over positive values, with the remainders a, c, d, e and then 0. */
  lemma EuclidSteps5(a: int, b: int, c: int, d: int, e: int)
    requires 0 < e < d < c < a < b <= INT_MAX
    requires TRem(a, b) == a && TRem(b, a) == c && TRem(a, c) == d && TRem(c, d) == e && TRem(d, e) == 0
    ensures MaxDelim(a, b) == e && !MaxDelimTraps(a, b)
  {
    EuclidNoTrapPositive(a, b);
    EuclidStep(a, b, a);
    EuclidStep(b, a, c);
    EuclidStep(a, c, d);
    EuclidStep(c, d, e);
    EuclidStep(d, e, 0);
    EuclidEnd(e);
  }

  lemma Gcd3And0()
    ensures MaxDelim(3, 0) == 3 && !MaxDelimTraps(3, 0)
  {
    EuclidEnd(3);
  }

  // ------------------------------------------------------------ the in-file tests

  lemma ConstructionTests()
    ensures FromParts("1", "2") == Success(Rational(1, 2))
    ensures FromString("1/2") == Success(Rational(1, 2))
    ensures ToString(Rational(5, 6)) == "5/6"
    ensures ToInt(Rational(5, 6)) == Success(0)
  {
    TextTests();
  }

  lemma TextTests()
    ensures FromParts("1", "2") == Success(Rational(1, 2))
    ensures FromString("1/2") == Success(Rational(1, 2))
    ensures ToString(Rational(5, 6)) == "5/6"
  {
    StringRoundTrip(Rational(1, 2));
    assert Text.IntToString(1) == "1" && Text.IntToString(2) == "2";
    assert ToString(Rational(1, 2)) == "1/2";
    assert Text.IntToString(5) == "5" && Text.IntToString(6) == "6";
  }

  lemma ArithmeticTests()
    ensures Add(Rational(3, 5), Rational(5, 6)) == Success(Rational(43, 30))
    ensures Sub(Rational(3, 5), Rational(5, 6)) == Success(Rational(-7, 30))
  {
    MedOf3Over5And5Over6();
    Gcd43And30();
    NegativeDenominatorFinding();
  }

  lemma ProductTests()
    ensures Mul(Rational(3, 5), Rational(5, 6)) == Success(Rational(1, 2))
    ensures Div(Rational(3, 5), Rational(5, 6)) == Success(Rational(18, 25))
  {
    Gcd15And30();
    assert TDiv(15, 15) == 1 && TDiv(30, 15) == 2;
    Gcd18And25();
  }

  /**
    The same tests through the operators as written: the difference is
    stored as 7/-30, and the test still passes because != compares the
    make_canonical forms.
   */
  lemma ArithmeticTestsAsWritten()
    ensures AddAsWritten(Rational(3, 5), Rational(5, 6)) == Success(Rational(43, 30))
    ensures SubAsWritten(Rational(3, 5), Rational(5, 6)) == Success(Rational(7, -30))
    ensures NotEquals(Rational(7, -30), Rational(-7, 30)) == Success(false)
    ensures MulAsWritten(Rational(3, 5), Rational(5, 6)) == Success(Rational(1, 2))
    ensures DivAsWritten(Rational(3, 5), Rational(5, 6)) == Success(Rational(18, 25))
  {
    SumTestAsWritten();
    NegativeDenominatorSub();
    DifferenceTestAsWritten();
    ProductTestAsWritten();
    QuotientTestAsWritten();
  }

  lemma SumTestAsWritten()
    ensures AddAsWritten(Rational(3, 5), Rational(5, 6)) == Success(Rational(43, 30))
  {
    MedOf3Over5And5Over6();
    assert SumRaw(Rational(3, 5), Rational(5, 6), false) == Success(Rational(43, 30));
    Gcd43And30();
    TDivExact(43, 1, 43);
    TDivExact(30, 1, 30);
  }

  lemma DifferenceTestAsWritten()
    ensures NotEquals(Rational(7, -30), Rational(-7, 30)) == Success(false)
  {
    ReduceMinus7Over30();
    Gcd7AndMinus30();
    TDivExact(7, 1, 7);
    TDivExact(-30, 1, -30);
  }

  lemma ProductTestAsWritten()
    ensures MulAsWritten(Rational(3, 5), Rational(5, 6)) == Success(Rational(1, 2))
  {
    assert ProductRaw(Rational(3, 5), Rational(5, 6)) == Success(Rational(15, 30));
    Gcd15And30();
    TDivExact(15, 15, 1);
    TDivExact(30, 15, 2);
  }

  lemma QuotientTestAsWritten()
    ensures DivAsWritten(Rational(3, 5), Rational(5, 6)) == Success(Rational(18, 25))
  {
    assert QuotientRaw(Rational(3, 5), Rational(5, 6)) == Success(Rational(18, 25));
    Gcd18And25();
    TDivExact(18, 1, 18);
    TDivExact(25, 1, 25);
  }

  /** The signed gcd in *= and ++: 3/5 * -5/6 is 1/-2 and ++ on -5/2 gives 3/-2. */
  lemma SignedGcdExamples()
    ensures MulAsWritten(Rational(3, 5), Rational(-5, 6)) == Success(Rational(1, -2))
    ensures IncrementAsWritten(Rational(-5, 2)) == Success(Rational(3, -2))
  {
    EuclidStep(-15, 30, -15);
    EuclidStep(30, -15, 0);
    EuclidEnd(-15);
    assert ProductRaw(Rational(3, 5), Rational(-5, 6)) == Success(Rational(-15, 30));
    TDivExact(-15, -15, 1);
    TDivExact(30, -15, -2);
    EuclidStep(2, 1, 0);
    EuclidEnd(1);
    assert TDiv(1, 1) == 1 && TDiv(2, 1) == 2;
    assert MakeEqualDenominator(Rational(-5, 2), FromInt(1)) == Success((Rational(-5, 2), Rational(2, 2)));
    EuclidStep(-3, 2, -1);
    EuclidStep(2, -1, 0);
    EuclidEnd(-1);
    TDivExact(-3, -1, 3);
    TDivExact(2, -1, -2);
  }

  lemma ComparisonTests()
    ensures Less(Rational(3, 5), Rational(5, 6)) == Success(true)
    ensures LessEq(Rational(3, 5), Rational(5, 6)) == Success(true)
    ensures Greater(Rational(3, 5), Rational(5, 6)) == Success(false)
    ensures GreaterEq(Rational(3, 5), Rational(5, 6)) == Success(false)
    ensures Equals(Rational(3, 5), Rational(5, 6)) == Success(false)
    ensures NotEquals(Rational(3, 5), Rational(5, 6)) == Success(true)
  {
    LessTests(Rational(3, 5), Rational(5, 6));
  }

  lemma LessTests(a: Rational, b: Rational)
    requires a == Rational(3, 5) && b == Rational(5, 6)
    ensures Less(a, b) == Success(true) && Less(b, a) == Success(false)
  {
    ReduceDefined(a);
    ReduceDefined(b);
    assert Val(a) < Val(b);
    MedOf3Over5And5Over6();
    MedOf5Over6And3Over5();
  }

  /**
    A negative denominator, which only the unchecked constructor stores:
    the quotient still truncates toward zero, and with
    get_max_delim(-6, 4) = -2 the common denominator comes out as 12.
   */
  lemma NegativeDenominatorTests()
    ensures ToInt(Rational(7, -30)) == Success(0)
    ensures Less(Rational(1, -6), Rational(1, 4)) == Success(true)
  {
    EuclidStep(-6, 4, -2);
    EuclidStep(4, -2, 0);
    EuclidEnd(-2);
    TDivExact(4, -2, -2);
    TDivExact(-6, -2, 3);
    assert MakeEqualDenominator(Rational(1, -6), Rational(1, 4)).Success?;
  }

  lemma MedOf5Over6And3Over5()
    ensures MakeEqualDenominator(Rational(5, 6), Rational(3, 5)) == Success((Rational(25, 30), Rational(18, 30)))
  {
    Gcd6And5();
    assert TDiv(6, 1) == 6 && TDiv(5, 1) == 5;
  }

  // ------------------------------------------------------------ the object

  /** What += or -= leaves in the object when it fails: __builtin_add_overflow
      has already stored the wrapped sum in the numerator; a trapping
      make_canonical finds the raw sum over the common denominator. */
  function SumLeftover(x: Rational, y: Rational, subtract: bool): Rational {
    match MakeEqualDenominator(x, y)
    case Failure(_) => x
    case Success(p) =>
      var n := if subtract then p.0.num - p.1.num else p.0.num + p.1.num;
      if IsInt32(n) then Rational(n, p.0.den) else Rational(Wrap32(n), x.den)
  }

  /** What *= or /= leaves when it throws: the wrapped numerator product, once the
      denominator product fitted; the raw fraction if make_canonical fails. */
  function ProductLeftover(x: Rational, dm: int, nm: int): Rational {
    if !IsInt32(x.den * dm) then x
    else if !IsInt32(x.num * nm) then Rational(Wrap32(x.num * nm), x.den)
    else Rational(x.num * nm, x.den * dm)
  }

  /** A RationalNumber<int> object, whose compound operators update it in place. */
  class RationalNumber {
    var num: Int32
    var den: Int32

    function Value(): Rational
      reads this
    {
      Rational(num, den)
    }

    /**
      The state the checking constructors leave (a positive denominator).
      The compound operators as written do not keep it: see
      `NegativeDenominatorObject`.
     */
    predicate Valid()
      reads this
    {
      den > 0
    }

    /** Copy construction from a fraction (the checking constructors are `Make`, `FromInt`, `Zero`). */
    constructor (v: Rational)
      ensures Value() == v
    {
      num, den := v.num, v.den;
    }

    /**
      make_canonical as written: both parts divided by the signed result of
      get_max_delim, so the denominator can come out negative, and n/0
      becomes 1/0. A division by zero or INT_MIN / -1 is a Trap, with the
      object left as it was.
     */
    method MakeCanonical() returns (r: Result<Rational, Error>)
      modifies this
      ensures r == Reduce(old(Value()))
      ensures Value() == if r.Success? then r.value else old(Value())
    {
      var m := GetMaxDelim(num, den);
      if m.Failure? {
        return Failure(Trap);
      }
      var g := m.value;
      if g == 0 || (g == -1 && (num == INT_MIN || den == INT_MIN)) {
        return Failure(Trap);
      }
      MaxDelimZero(num, den);
      TDivInt32(num, g);
      TDivInt32(den, g);
      num, den := TDiv(num, g), TDiv(den, g);
      return Success(Value());
    }

    /** operator+= and operator-=. */
    method SumAssign(rhs: Rational, subtract: bool) returns (r: Result<Rational, Error>)
      modifies this
      ensures r == if subtract then SubAsWritten(old(Value()), rhs) else AddAsWritten(old(Value()), rhs)
      ensures Value() == if r.Success? then r.value else SumLeftover(old(Value()), rhs, subtract)
    {
      var x := Value();
      var p := MakeEqualDenominator(x, rhs);
      if p.Failure? {
        return Failure(p.error);
      }
      var n := if subtract then p.value.0.num - p.value.1.num else p.value.0.num + p.value.1.num;
      if !IsInt32(n) {
        num := Wrap32(n);
        return Failure(Overflow);
      }
      num, den := n, p.value.0.den;
      assert SumRaw(x, rhs, subtract) == Success(Value());
      r := MakeCanonical();
    }

    method AddAssign(rhs: Rational) returns (r: Result<Rational, Error>)
      modifies this
      ensures r == AddAsWritten(old(Value()), rhs)
      ensures Value() == if r.Success? then r.value else SumLeftover(old(Value()), rhs, false)
    {
      r := SumAssign(rhs, false);
    }

    method SubAssign(rhs: Rational) returns (r: Result<Rational, Error>)
      modifies this
      ensures r == SubAsWritten(old(Value()), rhs)
      ensures Value() == if r.Success? then r.value else SumLeftover(old(Value()), rhs, true)
    {
      r := SumAssign(rhs, true);
    }

    /** operator*=: the denominator product is checked first, then the numerator product. */
    method MulAssign(rhs: Rational) returns (r: Result<Rational, Error>)
      modifies this
      ensures r == MulAsWritten(old(Value()), rhs)
      ensures Value() == if r.Success? then r.value else ProductLeftover(old(Value()), rhs.den, rhs.num)
    {
      if !IsInt32(den * rhs.den) {
        return Failure(Overflow);
      }
      var d := den * rhs.den;
      if !IsInt32(num * rhs.num) {
        num := Wrap32(num * rhs.num);
        return Failure(Overflow);
      }
      num := num * rhs.num;
      den := d;
      r := MakeCanonical();
    }

    /** operator/=, with no check of the divisor. */
    method DivAssign(rhs: Rational) returns (r: Result<Rational, Error>)
      modifies this
      ensures r == DivAsWritten(old(Value()), rhs)
      ensures Value() == if r.Success? then r.value else ProductLeftover(old(Value()), rhs.num, rhs.den)
    {
      if !IsInt32(den * rhs.num) {
        return Failure(Overflow);
      }
      var d := den * rhs.num;
      if !IsInt32(num * rhs.den) {
        num := Wrap32(num * rhs.den);
        return Failure(Overflow);
      }
      num := num * rhs.den;
      den := d;
      r := MakeCanonical();
    }

    /** Unary minus: negates the object itself and returns a copy. */
    method NegateInPlace() returns (r: Result<Rational, Error>)
      modifies this
      ensures r == Negate(old(Value()))
      ensures Value() == if r.Success? then r.value else old(Value())
    {
      if !IsInt32(num * -1) {
        return Failure(Overflow);
      }
      num := num * -1;
      return Success(Value());
    }

    /** Prefix ++. */
    method PreIncrement() returns (r: Result<Rational, Error>)
      modifies this
      ensures r == IncrementAsWritten(old(Value()))
      ensures Value() == if r.Success? then r.value else SumLeftover(old(Value()), FromInt(1), false)
    {
      r := AddAssign(FromInt(1));
    }

    /** Postfix ++: the value before the increment. */
    method PostIncrement() returns (r: Result<Rational, Error>)
      modifies this
      ensures r.Success? <==> IncrementAsWritten(old(Value())).Success?
      ensures r.Success? ==> r.value == old(Value()) && Value() == IncrementAsWritten(old(Value())).value
      ensures r.Failure? ==> r == IncrementAsWritten(old(Value())) && Value() == SumLeftover(old(Value()), FromInt(1), false)
    {
      var before := Value();
      var s := PreIncrement();
      if s.Failure? {
        return Failure(s.error);
      }
      return Success(before);
    }

    /** Prefix --. */
    method PreDecrement() returns (r: Result<Rational, Error>)
      modifies this
      ensures r == DecrementAsWritten(old(Value()))
      ensures Value() == if r.Success? then r.value else SumLeftover(old(Value()), FromInt(1), true)
    {
      r := SubAssign(FromInt(1));
    }

    /** Postfix --: the value before the decrement. */
    method PostDecrement() returns (r: Result<Rational, Error>)
      modifies this
      ensures r.Success? <==> DecrementAsWritten(old(Value())).Success?
      ensures r.Success? ==> r.value == old(Value()) && Value() == DecrementAsWritten(old(Value())).value
      ensures r.Failure? ==> r == DecrementAsWritten(old(Value())) && Value() == SumLeftover(old(Value()), FromInt(1), true)
    {
      var before := Value();
      var s := PreDecrement();
      if s.Failure? {
        return Failure(s.error);
      }
      return Success(before);
    }
  }

  /**
    A valid object does not stay valid: 3/5 -= 5/6 leaves the object at
    7/-30, and += 1 on it then throws negative_denominator_error.
   */
  method NegativeDenominatorObject() returns (before: bool, after: Rational, next: Result<Rational, Error>)
    ensures before && after == Rational(7, -30) && next == Failure(NegativeDenominator)
  {
    var q := new RationalNumber(Rational(3, 5));
    before := q.Valid();
    var d := q.SubAssign(Rational(5, 6));
    NegativeDenominatorFinding();
    after := q.Value();
    next := q.AddAssign(FromInt(1));
  }

  /** 3/5 /= 0/1 leaves the object at 1/0 and reports success. */
  method ZeroDivisorObject() returns (r: Result<Rational, Error>, after: Rational)
    ensures r == Success(Rational(1, 0)) && after == Rational(1, 0)
  {
    var q := new RationalNumber(Rational(3, 5));
    r := q.DivAssign(Rational(0, 1));
    after := q.Value();
  }
}
