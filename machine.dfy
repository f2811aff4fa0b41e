/**
  Machine integers of the C++ code: the ranges of int, unsigned and unsigned
  long, the two's-complement narrowing of a wider value to int, and the
  truncating division and remainder of C++ (Dafny's own are Euclidean).
 */
module Machine {

  const INT_MIN: int := -0x8000_0000
  const INT_MAX: int := 0x7fff_ffff
  const U32: int := 0x1_0000_0000
  const U64: int := 0x1_0000_0000_0000_0000
  const LLONG_MIN: int := -0x8000_0000_0000_0000
  const LLONG_MAX: int := 0x7fff_ffff_ffff_ffff

  predicate IsInt32(x: int) { INT_MIN <= x <= INT_MAX }

  predicate IsUnsigned(x: int) { 0 <= x < U32 }

  /** The C++ `int`. */
  type Int32 = x: int | IsInt32(x)

  /** The value an int variable holds after an implicit conversion from a wider integer. */
  function Wrap32(x: int): (r: int)
    ensures IsInt32(r)
    ensures (r - x) % U32 == 0
    ensures IsInt32(x) ==> r == x
  {
    var m := x % U32;
    if m <= INT_MAX then m else m - U32
  }

  /** The value an int holds after conversion from an unsigned int. */
  function AsInt32(u: nat): (r: int)
    requires u < U32
    ensures IsInt32(r)
    ensures u <= INT_MAX ==> r == u
    ensures u > INT_MAX ==> r < 0
  {
    if u <= INT_MAX then u else u - U32
  }

  function Abs(x: int): nat { if x < 0 then -x else x }

  /** C++ `a / b`: the quotient truncated toward zero. */
  function TDiv(a: int, b: int): int
    requires b != 0
  {
    if (a >= 0) == (b > 0) then Abs(a) / Abs(b) else -(Abs(a) / Abs(b))
  }

  /** C++ `a % b`: the remainder that goes with TDiv, with the sign of `a`. */
  function TRem(a: int, b: int): int
    requires b != 0
  {
    if a >= 0 then Abs(a) % Abs(b) else -(Abs(a) % Abs(b))
  }

  lemma TRemBounds(a: int, b: int)
    requires b != 0
    ensures Abs(TRem(a, b)) < Abs(b)
    ensures a >= 0 ==> TRem(a, b) >= 0
    ensures a <= 0 ==> TRem(a, b) <= 0
  {
  }

  /** The C++ guarantee (a / b) * b + a % b == a. */
  lemma TDivTRem(a: int, b: int)
    requires b != 0
    ensures a == b * TDiv(a, b) + TRem(a, b)
  {
    var q, m := Abs(a) / Abs(b), Abs(a) % Abs(b);
    assert Abs(a) == Abs(b) * q + m;
    MulSigns(b, q, a);
  }

  /** b * TDiv(a, b) has the magnitude |b| * (|a| / |b|) and the sign of a. */
  lemma MulSigns(b: int, q: int, a: int)
    requires b != 0 && q == Abs(a) / Abs(b)
    ensures b * TDiv(a, b) == (if a >= 0 then Abs(b) * q else -(Abs(b) * q))
  {
    if b > 0 {
      if a >= 0 { assert TDiv(a, b) == q; } else { assert TDiv(a, b) == -q; }
    } else {
      assert b == -(Abs(b) as int);
      if a >= 0 {
        assert TDiv(a, b) == -q;
        assert b * (-q) == Abs(b) * q;
      } else {
        assert TDiv(a, b) == q;
        assert b * q == -(Abs(b) * q);
      }
    }
  }

  /** Truncating division commutes with a common nonzero factor of both operands. */
  lemma TDivScale(k: int, a: int, b: int)
    requires k != 0 && b != 0
    ensures TDiv(k * a, k * b) == TDiv(a, b)
  {
    AbsMul(k, a);
    AbsMul(k, b);
    DivCancel(Abs(k), Abs(a), Abs(b));
    if a == 0 {
      assert k * a == 0;
    } else {
      SignOfProduct(k, a);
      SignOfProduct(k, b);
    }
  }

  lemma SignOfProduct(x: int, y: int)
    requires x != 0 && y != 0
    ensures (x * y > 0) == ((x > 0) == (y > 0))
  {
    if x > 0 && y > 0 { MulPos(x, y); }
    else if x < 0 && y < 0 { MulPos(-x, -y); assert x * y == (-x) * (-y); }
    else if x > 0 { MulPos(x, -y); assert x * y == -(x * (-y)); }
    else { MulPos(-x, y); assert x * y == -((-x) * y); }
  }

  lemma MulPos(x: int, y: int)
    requires x > 0 && y > 0
    ensures x * y > 0
  {
  }

  lemma TRemScale(k: int, a: int, b: int)
    requires k != 0 && b != 0
    ensures TRem(k * a, k * b) == k * TRem(a, b)
  {
    TDivScale(k, a, b);
    TDivTRem(a, b);
    TDivTRem(k * a, k * b);
    ScaledRemainder(k, a, b, TDiv(a, b), TRem(a, b), TRem(k * a, k * b));
  }

  lemma ScaledRemainder(k: int, a: int, b: int, t: int, r: int, r': int)
    requires a == b * t + r && k * a == (k * b) * t + r'
    ensures r' == k * r
  {
    assert k * a == k * (b * t) + k * r;
    assert (k * b) * t == k * (b * t);
  }

  lemma AbsMul(x: int, y: int)
    ensures Abs(x * y) == Abs(x) * Abs(y)
  {
    if x < 0 && y < 0 { assert x * y == (-x) * (-y); }
    else if x < 0 { assert -(x * y) == (-x) * y; }
    else if y < 0 { assert -(x * y) == x * (-y); }
  }

  lemma DivCancel(k: nat, a: nat, b: nat)
    requires k > 0 && b > 0
    ensures (k * a) / (k * b) == a / b
  {
    var q, r := a / b, a % b;
    assert a == q * b + r && 0 <= r < b;
    assert k * a == q * (k * b) + k * r;
    MulStrict(k, r, b);
    DivUnique(k * a, k * b, q, k * r);
  }

  lemma MulStrict(k: nat, r: nat, b: nat)
    requires k > 0 && r < b
    ensures 0 <= k * r < k * b
  {
    assert k * b - k * r == k * (b - r);
    MulPos(k, b - r);
  }

  lemma DivUnique(a: int, b: int, q: int, r: int)
    requires b > 0 && a == q * b + r && 0 <= r < b
    ensures a / b == q
  {
    var q', r' := a / b, a % b;
    assert a == q' * b + r' && 0 <= r' < b;
    assert (q' - q) * b == r - r';
    if q' > q {
      MulAtLeast(q' - q, b);
    } else if q' < q {
      MulAtLeast(q - q', b);
    }
  }

  lemma MulAtLeast(x: int, b: int)
    requires x >= 1 && b > 0
    ensures x * b >= b
  {
    assert x * b == (x - 1) * b + b;
    if x > 1 { MulPos(x - 1, b); }
  }

  /** An exact division has no remainder whichever sign the divisor has. */
  lemma TDivExact(a: int, b: int, q: int)
    requires b != 0 && a == q * b
    ensures TDiv(a, b) == q && TRem(a, b) == 0
  {
    ExactQuotient(a, b, q);
    TDivTRem(a, b);
    assert b * q == a;
  }

  lemma ExactQuotient(a: int, b: int, q: int)
    requires b != 0 && a == q * b
    ensures TDiv(a, b) == q
  {
    ExactMagnitude(a, b, q);
    if q != 0 {
      SignOfProduct(q, b);
    }
  }

  lemma ExactMagnitude(a: int, b: int, q: int)
    requires b != 0 && a == q * b
    ensures Abs(a) / Abs(b) == Abs(q)
  {
    AbsMul(q, b);
    DivUnique(Abs(a), Abs(b), Abs(q), 0);
  }

  /** A truncating quotient of ints is an int, except for INT_MIN / -1. */
  lemma TDivInt32(a: int, b: int)
    requires IsInt32(a) && b != 0 && !(a == INT_MIN && b == -1)
    ensures IsInt32(TDiv(a, b))
  {
    var q := Abs(a) / Abs(b);
    QuotientBound(Abs(a), Abs(b));
    if Abs(b) == 1 {
      assert q == Abs(a);
      if a == INT_MIN {
        assert b == 1;
        assert TDiv(a, b) == -q;
      }
    } else {
      assert q <= INT_MAX;
    }
  }

  lemma QuotientBound(x: nat, y: nat)
    requires y >= 1
    ensures x / y <= x
    ensures y == 1 ==> x / y == x
    ensures y >= 2 ==> 2 * (x / y) <= x
  {
    var q, r := x / y, x % y;
    assert x == q * y + r && 0 <= r;
    if y >= 2 {
      assert q * y == q * 2 + q * (y - 2);
      assert q * (y - 2) >= 0 by {
        if q > 0 && y > 2 { MulPos(q, y - 2); }
      }
    }
  }

  lemma TDivNeg(a: int, b: int)
    requires b != 0
    ensures TDiv(a, -b) == -TDiv(a, b) && TRem(a, -b) == TRem(a, b)
  {
  }
}
