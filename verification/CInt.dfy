/**
 C++ integer semantics the date/time functions rely on: fixed-width ranges,
 two's-complement narrowing and wrap-around, and the truncating `/` and `%`
 of C++ (Dafny's own `/` and `%` are Euclidean).
 */
module CInt {

  const Int16Min: int := -0x8000
  const Int16Max: int := 0x7FFF
  const Int32Min: int := -0x8000_0000
  const Int32Max: int := 0x7FFF_FFFF
  const Int64Min: int := -0x8000_0000_0000_0000
  const Int64Max: int := 0x7FFF_FFFF_FFFF_FFFF

  type Int32 = x: int | Int32Min <= x <= Int32Max
  type Int64 = x: int | Int64Min <= x <= Int64Max

  predicate InInt16(x: int) { Int16Min <= x <= Int16Max }
  predicate InInt32(x: int) { Int32Min <= x <= Int32Max }
  predicate InInt64(x: int) { Int64Min <= x <= Int64Max }

  /** `(int16_t)x`: two's-complement narrowing to 16 bits. */
  function Wrap16(x: int): (r: int)
    ensures InInt16(r)
    ensures InInt16(x) ==> r == x
    ensures (r - x) % 0x1_0000 == 0
  {
    (x + 0x8000) % 0x1_0000 - 0x8000
  }

  /** `(int32_t)x`: two's-complement narrowing to 32 bits. */
  function Wrap32(x: int): (r: Int32)
    ensures InInt32(x) ==> r == x
    ensures (r - x) % 0x1_0000_0000 == 0
  {
    (x + 0x8000_0000) % 0x1_0000_0000 - 0x8000_0000
  }

  /** `(int64_t)x`, and the result of an int64 addition that is allowed to wrap. */
  function Wrap64(x: int): (r: Int64)
    ensures InInt64(x) ==> r == x
    ensures (r - x) % 0x1_0000_0000_0000_0000 == 0
  {
    (x + 0x8000_0000_0000_0000) % 0x1_0000_0000_0000_0000 - 0x8000_0000_0000_0000
  }

  /** The narrowing test `value != (int32_t)value` holds exactly outside the int32 range. */
  lemma Wrap32Identity(x: int)
    ensures Wrap32(x) == x <==> InInt32(x)
  {
  }

  /** Two values that agree modulo 2^64 and both lie in the int64 range are equal. */
  lemma {:induction false} Wrap64Unique(x: int, y: int)
    requires InInt64(x) && InInt64(y)
    requires (x - y) % 0x1_0000_0000_0000_0000 == 0
    ensures x == y
  {
    var k := (x - y) / 0x1_0000_0000_0000_0000;
    assert x - y == k * 0x1_0000_0000_0000_0000;
  }

  /** Wrap-around only depends on the value modulo 2^64. */
  lemma {:induction false} Wrap64OfCongruent(x: int, y: int)
    requires (x - y) % 0x1_0000_0000_0000_0000 == 0
    ensures Wrap64(x) == Wrap64(y)
  {
    var m := 0x1_0000_0000_0000_0000;
    var k := (Wrap64(x) - x) / m + (x - y) / m - (Wrap64(y) - y) / m;
    assert Wrap64(x) - Wrap64(y) == m * k;
    DivisionOfMultiple(k, m);
    Wrap64Unique(Wrap64(x), Wrap64(y));
  }

  /** An int64 sum that wraps can be wrapped operand by operand. */
  lemma Wrap64AddWrapped(x: int, y: int)
    ensures Wrap64(x + Wrap64(y)) == Wrap64(x + y)
  {
    Wrap64OfCongruent(x + Wrap64(y), x + y);
  }

  /** C++ `a / b` for a positive divisor: the quotient rounded toward zero. */
  function CTrunc(a: int, b: int): (q: int)
    requires b > 0
    ensures a >= 0 ==> 0 <= a - b * q < b
    ensures a < 0 ==> -b < a - b * q <= 0
  {
    if a >= 0 then a / b else -((-a) / b)
  }

  /** C++ `a % b` for a positive divisor: the remainder takes the sign of `a`. */
  function CRem(a: int, b: int): (r: int)
    requires b > 0
    ensures a == b * CTrunc(a, b) + r
    ensures -b < r < b
    ensures r != 0 ==> (r < 0 <==> a < 0)
  {
    a - b * CTrunc(a, b)
  }

  /** Truncating division is odd: `(-a) / b == -(a / b)` in C++. */
  lemma CTruncNegate(a: int, b: int)
    requires b > 0
    ensures CTrunc(-a, b) == -CTrunc(a, b)
    ensures CRem(-a, b) == -CRem(a, b)
  {
  }

  /** A zero C++ remainder is the same divisibility test as a zero Euclidean one,
      and then both quotients agree. */
  lemma {:induction false} CRemZeroIsDivisible(a: int, b: int)
    requires b > 0
    ensures CRem(a, b) == 0 <==> a % b == 0
    ensures a % b == 0 ==> CTrunc(a, b) == a / b
  {
    if a < 0 {
      var q := (-a) / b;
      var r := (-a) % b;
      assert -a == b * q + r;
      assert a == b * (-q) + (-r);
      if r == 0 {
        assert a == b * (-q);
        DivisionOfMultiple(-q, b);
      } else {
        assert a == b * (-q - 1) + (b - r);
        EuclidUnique(a, b, -q - 1, b - r);
      }
    }
  }

  /** Euclidean division of an exact multiple. */
  lemma DivisionOfMultiple(k: int, b: int)
    requires b > 0
    ensures (b * k) / b == k && (b * k) % b == 0
  {
    EuclidUnique(b * k, b, k, 0);
  }

  /** Euclidean quotient and remainder are the unique pair with `0 <= r < b`. */
  lemma {:induction false} EuclidUnique(a: int, b: int, q: int, r: int)
    requires b > 0 && 0 <= r < b && a == b * q + r
    ensures a / b == q && a % b == r
  {
    var q' := a / b;
    var r' := a % b;
    assert b * (q - q') == r' - r;
    if q > q' {
      MulAtLeastDivisor(b, q - q');
    } else if q < q' {
      MulAtLeastDivisor(b, q' - q);
    }
  }

  /** A positive multiple of `b` is at least `b`. */
  lemma {:induction false} MulAtLeastDivisor(b: int, k: int)
    requires b > 0 && k >= 1
    ensures b * k >= b
    decreases k
  {
    if k > 1 {
      MulAtLeastDivisor(b, k - 1);
      assert b * k == b * (k - 1) + b;
    }
  }
}
