/** Bitwise arithmetic on unbounded naturals: the .NET operators &, |, ^, ~, << and >>
    on fixed-width integers are expressed with these and an explicit width. */
module BitArithmetic {

  function Pow2(k: nat): (r: nat)
    ensures r >= 1
  {
    if k == 0 then 1 else 2 * Pow2(k - 1)
  }

  /** Bit k of x (bit 0 is the least significant). */
  function Bit(x: nat, k: nat): (r: nat)
    ensures r <= 1
  {
    if k == 0 then x % 2 else Bit(x / 2, k - 1)
  }

  function BitAnd(a: nat, b: nat): nat
    decreases a
  {
    if a == 0 || b == 0 then 0 else 2 * BitAnd(a / 2, b / 2) + (if a % 2 == 1 && b % 2 == 1 then 1 else 0)
  }

  function BitOr(a: nat, b: nat): nat
    decreases a + b
  {
    if a == 0 then b
    else if b == 0 then a
    else 2 * BitOr(a / 2, b / 2) + (if a % 2 == 1 || b % 2 == 1 then 1 else 0)
  }

  function BitXor(a: nat, b: nat): nat
    decreases a + b
  {
    if a == 0 then b
    else if b == 0 then a
    else 2 * BitXor(a / 2, b / 2) + (a % 2 + b % 2) % 2
  }

  /** ~a on a width-bit unsigned integer. */
  function BitNot(a: nat, width: nat): nat
    requires a < Pow2(width)
  {
    Pow2(width) - 1 - a
  }

  /** The width-bit unsigned pattern of a two's-complement (or unsigned) integer. */
  function Unsigned(x: int, width: nat): (r: nat)
    ensures r < Pow2(width)
  {
    x % Pow2(width)
  }

  /** The signed width-bit integer whose pattern is u. */
  function Signed(u: nat, width: nat): int
    requires 1 <= width && u < Pow2(width)
  {
    if u < Pow2(width - 1) then u else u - Pow2(width)
  }

  /** x >> s on an unsigned value: s halvings. */
  function ShiftRight(x: nat, s: nat): nat
  {
    if s == 0 then x else ShiftRight(x / 2, s - 1)
  }

  /** x * 2^s, the shift x << s before any truncation: s doublings. */
  function ShiftUp(x: nat, s: nat): nat
  {
    if s == 0 then x else 2 * ShiftUp(x, s - 1)
  }

  /** The low w bits of x (x modulo 2^w): what a cast to a w-bit unsigned type keeps. */
  function LowBits(x: nat, w: nat): (r: nat)
    ensures r < Pow2(w)
  {
    if w == 0 then 0 else 2 * LowBits(x / 2, w - 1) + x % 2
  }

  lemma Pow2Add(a: nat, b: nat)
    ensures Pow2(a + b) == Pow2(a) * Pow2(b)
  {
    if a > 0 {
      Pow2Add(a - 1, b);
    }
  }

  lemma Pow2Monotone(a: nat, b: nat)
    requires a <= b
    ensures Pow2(a) <= Pow2(b)
  {
    if a < b {
      Pow2Monotone(a, b - 1);
    }
  }

  lemma {:induction false} BitOfZero(k: nat)
    ensures Bit(0, k) == 0
  {
    if k > 0 {
      BitOfZero(k - 1);
    }
  }

  /** A number below 2^n has no bit set at position n or above. */
  lemma {:induction false} BitAboveWidth(x: nat, n: nat, k: nat)
    requires x < Pow2(n) && n <= k
    ensures Bit(x, k) == 0
  {
    if n == 0 {
      assert x == 0;
      BitOfZero(k);
    } else {
      BitAboveWidth(x / 2, n - 1, k - 1);
    }
  }

  /** The highest bit of a number between 2^n and 2^(n+1) is bit n. */
  lemma {:induction false} TopBit(x: nat, n: nat)
    requires Pow2(n) <= x < Pow2(n + 1)
    ensures Bit(x, n) == 1
  {
    if n > 0 {
      TopBit(x / 2, n - 1);
    }
  }

  /** Two numbers below 2^n with the same low n bits are equal. */
  lemma {:induction false} BitsEqual(a: nat, b: nat, n: nat)
    requires a < Pow2(n) && b < Pow2(n)
    requires forall k :: 0 <= k < n ==> Bit(a, k) == Bit(b, k)
    ensures a == b
  {
    if n > 0 {
      forall k | 0 <= k < n - 1
        ensures Bit(a / 2, k) == Bit(b / 2, k)
      {
        assert Bit(a, k + 1) == Bit(b, k + 1);
      }
      BitsEqual(a / 2, b / 2, n - 1);
      assert Bit(a, 0) == Bit(b, 0);
    }
  }

  /** Bit k of 2 * h + low, for a low bit low: low at position 0, bit k - 1 of h above. */
  lemma BitOfDouble(h: nat, low: nat, k: nat)
    requires low <= 1
    ensures Bit(2 * h + low, k) == if k == 0 then low else Bit(h, k - 1)
  {
    assert (2 * h + low) / 2 == h && (2 * h + low) % 2 == low;
  }

  lemma {:induction false} BitOfAnd(a: nat, b: nat, k: nat)
    ensures Bit(BitAnd(a, b), k) == if Bit(a, k) == 1 && Bit(b, k) == 1 then 1 else 0
    decreases a
  {
    if a == 0 || b == 0 {
      BitOfZero(k);
    } else {
      var low := if a % 2 == 1 && b % 2 == 1 then 1 else 0;
      assert BitAnd(a, b) == 2 * BitAnd(a / 2, b / 2) + low;
      BitOfDouble(BitAnd(a / 2, b / 2), low, k);
      if k > 0 {
        BitOfAnd(a / 2, b / 2, k - 1);
      }
    }
  }

  lemma {:induction false} BitOfOr(a: nat, b: nat, k: nat)
    ensures Bit(BitOr(a, b), k) == if Bit(a, k) == 1 || Bit(b, k) == 1 then 1 else 0
    decreases a + b
  {
    if a == 0 {
      BitOfZero(k);
    } else if b == 0 {
      BitOfZero(k);
    } else {
      var low := if a % 2 == 1 || b % 2 == 1 then 1 else 0;
      assert BitOr(a, b) == 2 * BitOr(a / 2, b / 2) + low;
      BitOfDouble(BitOr(a / 2, b / 2), low, k);
      if k > 0 {
        BitOfOr(a / 2, b / 2, k - 1);
      }
    }
  }

  lemma {:induction false} BitOfXor(a: nat, b: nat, k: nat)
    ensures Bit(BitXor(a, b), k) == (Bit(a, k) + Bit(b, k)) % 2
    decreases a + b
  {
    if a == 0 {
      BitOfZero(k);
    } else if b == 0 {
      BitOfZero(k);
    } else {
      var low := (a % 2 + b % 2) % 2;
      assert BitXor(a, b) == 2 * BitXor(a / 2, b / 2) + low;
      BitOfDouble(BitXor(a / 2, b / 2), low, k);
      if k > 0 {
        BitOfXor(a / 2, b / 2, k - 1);
      }
    }
  }

  lemma {:induction false} BitOfNot(a: nat, width: nat, k: nat)
    requires a < Pow2(width)
    ensures Bit(BitNot(a, width), k) == if k < width then 1 - Bit(a, k) else 0
  {
    if width == 0 {
      BitOfZero(k);
    } else if k == 0 {
    } else {
      assert (Pow2(width) - 1 - a) / 2 == Pow2(width - 1) - 1 - a / 2;
      BitOfNot(a / 2, width - 1, k - 1);
    }
  }

  /** Shifting left by s moves bit k - s to position k and clears the low s bits. */
  lemma {:induction false} BitOfShiftUp(a: nat, s: nat, k: nat)
    ensures Bit(ShiftUp(a, s), k) == if k < s then 0 else Bit(a, k - s)
  {
    if s > 0 {
      var y := ShiftUp(a, s - 1);
      assert ShiftUp(a, s) == 2 * y;
      if k > 0 {
        assert Bit(2 * y, k) == Bit(y, k - 1);
        BitOfShiftUp(a, s - 1, k - 1);
      }
    }
  }

  /** Shifting right by s moves bit k + s to position k. */
  lemma {:induction false} BitOfShiftRight(a: nat, s: nat, k: nat)
    ensures Bit(ShiftRight(a, s), k) == Bit(a, k + s)
  {
    if s > 0 {
      BitOfShiftRight(a / 2, s - 1, k);
      assert Bit(a, k + s) == Bit(a / 2, k + s - 1);
    }
  }

  /** Keeping the low w bits keeps bits below w and clears the others. */
  lemma {:induction false} BitOfLowBits(a: nat, w: nat, k: nat)
    ensures Bit(LowBits(a, w), k) == if k < w then Bit(a, k) else 0
  {
    if w == 0 {
      BitOfZero(k);
    } else {
      var low := LowBits(a / 2, w - 1);
      assert LowBits(a, w) == 2 * low + a % 2;
      if k > 0 {
        assert Bit(2 * low + a % 2, k) == Bit(low, k - 1);
        BitOfLowBits(a / 2, w - 1, k - 1);
      }
    }
  }

  /** 2^w - 1 has exactly the low w bits set. */
  lemma {:induction false} BitOfMask(w: nat, k: nat)
    ensures Bit(Pow2(w) - 1, k) == if k < w then 1 else 0
  {
    if w == 0 {
      BitOfZero(k);
    } else if k > 0 {
      BitOfMask(w - 1, k - 1);
    }
  }

  lemma {:induction false} BitAndBound(a: nat, b: nat, n: nat)
    requires a < Pow2(n) || b < Pow2(n)
    ensures BitAnd(a, b) < Pow2(n)
    decreases a
  {
    if a != 0 && b != 0 && n > 0 {
      BitAndBound(a / 2, b / 2, n - 1);
    }
  }

  lemma {:induction false} BitOrBound(a: nat, b: nat, n: nat)
    requires a < Pow2(n) && b < Pow2(n)
    ensures BitOr(a, b) < Pow2(n)
    decreases a + b
  {
    if a != 0 && b != 0 {
      BitOrBound(a / 2, b / 2, n - 1);
    }
  }

  lemma {:induction false} BitXorBound(a: nat, b: nat, n: nat)
    requires a < Pow2(n) && b < Pow2(n)
    ensures BitXor(a, b) < Pow2(n)
    decreases a + b
  {
    if a != 0 && b != 0 {
      BitXorBound(a / 2, b / 2, n - 1);
    }
  }

  /** x & 2^k isolates bit k. */
  lemma {:induction false} AndPow2(x: nat, k: nat)
    ensures BitAnd(x, Pow2(k)) == if Bit(x, k) == 1 then Pow2(k) else 0
  {
    if k == 0 {
      if x != 0 {
        assert BitAnd(x / 2, 0) == 0;
      }
    } else if x != 0 {
      assert Pow2(k) / 2 == Pow2(k - 1) && Pow2(k) % 2 == 0;
      AndPow2(x / 2, k - 1);
      assert Bit(x, k) == Bit(x / 2, k - 1);
      assert BitAnd(x, Pow2(k)) == 2 * BitAnd(x / 2, Pow2(k - 1));
      if Bit(x, k) == 1 {
        assert BitAnd(x / 2, Pow2(k - 1)) == Pow2(k - 1);
      } else {
        assert BitAnd(x / 2, Pow2(k - 1)) == 0;
      }
    } else {
      BitOfZero(k);
    }
  }

  /** A number is its high part shifted back up plus its low bits. */
  lemma {:induction false} SplitAtBit(x: nat, w: nat)
    ensures x == ShiftUp(ShiftRight(x, w), w) + LowBits(x, w)
  {
    if w > 0 {
      SplitAtBit(x / 2, w - 1);
      var high := ShiftRight(x / 2, w - 1);
      assert ShiftRight(x, w) == high;
      assert ShiftUp(high, w) == 2 * ShiftUp(high, w - 1);
    }
  }
}
