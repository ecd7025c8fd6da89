/** The .NET fixed-width integer types, their unchecked (wrapping) arithmetic and
    C#'s truncating division, on unbounded integers. */
module Integers {
  import opened BitArithmetic

  type Byte = b: int | 0 <= b < 0x100
  type Int16 = x: int | -0x8000 <= x < 0x8000
  type UInt16 = x: int | 0 <= x < 0x1_0000
  type Int32 = x: int | -0x8000_0000 <= x < 0x8000_0000
  type UInt32 = x: int | 0 <= x < 0x1_0000_0000
  type Int64 = x: int | -0x8000_0000_0000_0000 <= x < 0x8000_0000_0000_0000
  type UInt64 = x: int | 0 <= x < 0x1_0000_0000_0000_0000

  lemma Pow2Widths()
    ensures Pow2(8) == 0x100
    ensures Pow2(16) == 0x1_0000
    ensures Pow2(31) == 0x8000_0000
    ensures Pow2(32) == 0x1_0000_0000
    ensures Pow2(63) == 0x8000_0000_0000_0000
    ensures Pow2(64) == 0x1_0000_0000_0000_0000
  {
    Pow2Narrow();
    Pow2Middle();
    Pow2Add(32, 31);
    Pow2Add(32, 32);
  }

  lemma Pow2Narrow()
    ensures Pow2(8) == 0x100 && Pow2(16) == 0x1_0000
  {
    assert Pow2(4) == 16;
    Pow2Add(4, 4);
    Pow2Add(8, 8);
  }

  lemma Pow2Middle()
    ensures Pow2(16) == 0x1_0000 && Pow2(31) == 0x8000_0000 && Pow2(32) == 0x1_0000_0000
  {
    Pow2Narrow();
    Pow2Add(16, 15);
    Pow2Add(16, 16);
  }

  /** Unchecked 32-bit result of an integer computation (C# int arithmetic). */
  function Wrap32(x: int): (r: Int32)
    ensures (r - x) % 0x1_0000_0000 == 0
    ensures -0x8000_0000 <= x < 0x8000_0000 ==> r == x
  {
    var u := x % 0x1_0000_0000;
    if u < 0x8000_0000 then u else u - 0x1_0000_0000
  }

  /** Wrap32 depends only on its argument modulo 2^32. */
  lemma Wrap32Congruent(x: int, y: int, k: int)
    requires x == y + 0x1_0000_0000 * k
    ensures Wrap32(x) == Wrap32(y)
  {
    DivModUniqueInt(x, 0x1_0000_0000, y / 0x1_0000_0000 + k, y % 0x1_0000_0000);
  }

  /** Wrapping an intermediate sum does not change the wrapped total. */
  lemma Wrap32Inner(a: int, x: int)
    ensures Wrap32(a + Wrap32(x)) == Wrap32(a + x)
  {
    var k := (Wrap32(x) - x) / 0x1_0000_0000;
    assert Wrap32(x) - x == 0x1_0000_0000 * k;
    Wrap32Congruent(a + Wrap32(x), a + x, k);
  }

  /** Wrapping a factor does not change the wrapped product. */
  lemma Wrap32MulInner(a: int, b: int)
    ensures Wrap32(Wrap32(a) * b) == Wrap32(a * b)
  {
    var w := Wrap32(a);
    var k := (w - a) / 0x1_0000_0000;
    assert w == a + 0x1_0000_0000 * k;
    assert w * b == a * b + 0x1_0000_0000 * (k * b) by {
      assert (a + 0x1_0000_0000 * k) * b == a * b + (0x1_0000_0000 * k) * b;
    }
    Wrap32Congruent(w * b, a * b, k * b);
  }

  /** Unchecked 64-bit result of an integer computation (C# long arithmetic). */
  function Wrap64(x: int): (r: Int64)
    ensures (r - x) % 0x1_0000_0000_0000_0000 == 0
    ensures -0x8000_0000_0000_0000 <= x < 0x8000_0000_0000_0000 ==> r == x
  {
    var u := x % 0x1_0000_0000_0000_0000;
    if u < 0x8000_0000_0000_0000 then u else u - 0x1_0000_0000_0000_0000
  }

  function Abs(x: int): (r: int)
    ensures 0 <= r && (r == x || r == -x)
  {
    if x < 0 then -x else x
  }

  lemma DivisionRemainder(a: int, d: int)
    requires 0 <= a && 0 < d
    ensures 0 <= a - d * (a / d) < d
  {
  }

  lemma MulNeg(x: int, y: int)
    ensures x * (-y) == -(x * y)
  {
  }

  lemma MulMonotoneInt(d: nat, x: int, y: int)
    requires x <= y
    ensures d * x <= d * y
  {
    assert d * y - d * x == d * (y - x);
  }

  /** Euclidean division with remainder determines the quotient and the remainder. */
  lemma DivModUniqueInt(a: int, d: int, q: int, r: int)
    requires d > 0 && a == d * q + r && 0 <= r < d
    ensures a / d == q && a % d == r
  {
    var q0, r0 := a / d, a % d;
    assert a == d * q0 + r0;
    if q0 > q {
      MulMonotoneInt(d, q + 1, q0);
    } else if q0 < q {
      MulMonotoneInt(d, q0 + 1, q);
    }
  }

  /** C#'s integer division, which truncates toward zero: the remainder has the sign
      of the dividend. */
  function TruncDiv(a: int, d: int): (q: int)
    requires d != 0
    ensures 0 <= a ==> 0 <= a - d * q < Abs(d)
    ensures a < 0 ==> -Abs(d) < a - d * q <= 0
  {
    var q0 := Abs(a) / Abs(d);
    DivisionRemainder(Abs(a), Abs(d));
    MulNeg(Abs(d), q0);
    if (d < 0) == (a < 0) then q0 else -q0
  }

  /** C#'s remainder operator %, whose result has the sign of the dividend. */
  function TruncRem(a: int, d: int): (r: int)
    requires d != 0
    ensures 0 <= a ==> 0 <= r < Abs(d)
    ensures a < 0 ==> -Abs(d) < r <= 0
    ensures a == d * TruncDiv(a, d) + r
  {
    a - d * TruncDiv(a, d)
  }

  /** A non-zero multiple of d is at least as large as d in magnitude. */
  lemma MulAtLeast(d: int, e: int)
    requires e != 0
    ensures Abs(d * e) >= Abs(d)
  {
    var ad, ae := Abs(d), Abs(e);
    assert Abs(d * e) == ad * ae by {
      if d < 0 && e < 0 {
        assert d * e == ad * ae;
      } else if d < 0 {
        assert d * e == -(ad * ae);
      } else if e < 0 {
        assert d * e == -(ad * ae);
      }
    }
    MulMonotoneInt(ad, 1, ae);
  }

  /** Truncating division undoes multiplication by the divisor. */
  lemma TruncDivOfMultiple(q: int, d: int)
    requires d != 0
    ensures TruncDiv(d * q, d) == q
  {
    var q1 := TruncDiv(d * q, d);
    assert Abs(d * q - d * q1) < Abs(d);
    if q1 != q {
      assert d * q - d * q1 == d * (q - q1);
      MulAtLeast(d, q - q1);
      assert false;
    }
  }

  /** Dividing a natural number by a positive one gives a natural number. */
  lemma DivNonNegative(a: int, d: int)
    requires 0 <= a && 0 < d
    ensures a / d >= 0
  {
  }

  /** The magnitude of a truncated quotient is the quotient of the magnitudes. */
  lemma TruncDivMagnitude(a: int, d: int)
    requires d != 0
    ensures Abs(TruncDiv(a, d)) == Abs(a) / Abs(d)
  {
    var q0 := Abs(a) / Abs(d);
    DivNonNegative(Abs(a), Abs(d));
    assert TruncDiv(a, d) == if (d < 0) == (a < 0) then q0 else -q0;
  }
}
