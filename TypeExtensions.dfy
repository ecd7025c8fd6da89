/** Common/TypeExtensions.cs: BitCount and HammingDistance on 64-bit unsigned values. */
module TypeExtensions {
  import opened BitArithmetic
  import opened Integers

  /** The number of 1 bits among bits 0 .. n-1 of x. */
  function Ones(x: nat, n: nat): (r: nat)
    ensures r <= n
  {
    if n == 0 then 0 else Ones(x, n - 1) + Bit(x, n - 1)
  }

  /** The number of bit positions below n where a and b differ. */
  function Differing(a: nat, b: nat, n: nat): (r: nat)
    ensures r <= n
  {
    if n == 0 then 0 else Differing(a, b, n - 1) + (if Bit(a, n - 1) != Bit(b, n - 1) then 1 else 0)
  }

  /** Counting from the low end: bit 0 plus the ones of the value shifted right once. */
  lemma {:induction false} OnesShift(x: nat, n: nat)
    requires 1 <= n
    ensures Ones(x, n) == x % 2 + Ones(x / 2, n - 1)
  {
    if n > 1 {
      OnesShift(x, n - 1);
    }
  }

  lemma {:induction false} OnesOfZero(n: nat)
    ensures Ones(0, n) == 0
  {
    if n > 0 {
      OnesOfZero(n - 1);
      BitOfZero(n - 1);
    }
  }

  /** BitCount: shifts x right until it is zero, counting the 1 bits shifted out. The
      loop makes at most 64 shifts and the count fits the byte it is returned in. */
  method BitCount(x: UInt64) returns (count: Byte, ghost shifts: nat)
    ensures count == Ones(x, 64)
    ensures shifts <= 64
    ensures x == 0 ==> count == 0
  {
    Pow2Widths();
    var ones;
    ones, shifts := ShiftOutOnes(x, 64);
    count := ones;
    if x == 0 {
      OnesOfZero(64);
    }
  }

  /** The loop of BitCount on a value of the given width: the 1 bits shifted out until
      the value is zero, after at most width shifts. */
  method ShiftOutOnes(x: nat, ghost width: nat) returns (count: nat, ghost shifts: nat)
    requires x < Pow2(width)
    ensures count == Ones(x, width)
    ensures shifts <= width
  {
    count := 0;
    shifts := 0;
    var v: nat := x;
    while v != 0
      invariant shifts <= width && v < Pow2(width - shifts)
      invariant count + Ones(v, width - shifts) == Ones(x, width)
      decreases v
    {
      ShiftStep(v, width - shifts);
      if v % 2 == 1 {
        count := count + 1;
      }
      v := v / 2;
      shifts := shifts + 1;
    }
    OnesOfZero(width - shifts);
  }

  /** One turn of the loop: the shifted value fits one bit less, and the bit shifted
      out plus the ones left make up the ones before. */
  lemma ShiftStep(v: nat, width: nat)
    requires v != 0 && v < Pow2(width)
    ensures 1 <= width
    ensures v / 2 < Pow2(width - 1)
    ensures Ones(v, width) == v % 2 + Ones(v / 2, width - 1)
  {
    OnesShift(v, width);
  }

  /** The Hamming distance of the two 64-bit values: the positions where they differ. */
  function Hamming(a: UInt64, b: UInt64): nat
  {
    Differing(a, b, 64)
  }

  lemma OnesOfXor(a: nat, b: nat, n: nat)
    ensures Ones(BitXor(a, b), n) == Differing(a, b, n)
  {
    forall k | 0 <= k < n
      ensures Bit(BitXor(a, b), k) == (Bit(a, k) + Bit(b, k)) % 2
    {
      BitOfXor(a, b, k);
    }
    OnesOfDifference(BitXor(a, b), a, b, n);
  }

  /** A value whose every bit below n is the sum modulo 2 of the bits of a and b has a 1
      exactly where they differ. */
  lemma {:induction false} OnesOfDifference(x: nat, a: nat, b: nat, n: nat)
    requires forall k :: 0 <= k < n ==> Bit(x, k) == (Bit(a, k) + Bit(b, k)) % 2
    ensures Ones(x, n) == Differing(a, b, n)
  {
    if n > 0 {
      OnesOfDifference(x, a, b, n - 1);
    }
  }

  /** HammingDistance(a, b) = BitCount(a ^ b). */
  method HammingDistance(a: UInt64, b: UInt64) returns (d: Byte)
    ensures d == Hamming(a, b)
  {
    Pow2Widths();
    BitXorBound(a, b, 64);
    OnesOfXor(a, b, 64);
    var count, shifts := BitCount(BitXor(a, b));
    d := count;
  }

  lemma HammingSymmetric(a: UInt64, b: UInt64)
    ensures Hamming(a, b) == Hamming(b, a)
  {
    DifferingSymmetric(a, b, 64);
  }

  lemma {:induction false} DifferingSymmetric(a: nat, b: nat, n: nat)
    ensures Differing(a, b, n) == Differing(b, a, n)
  {
    if n > 0 {
      DifferingSymmetric(a, b, n - 1);
    }
  }

  /** a and b agree on their n low bits. */
  predicate AgreeBelow(a: nat, b: nat, n: nat)
  {
    forall k :: 0 <= k < n ==> Bit(a, k) == Bit(b, k)
  }

  lemma {:induction false} DifferingZero(a: nat, b: nat, n: nat)
    ensures Differing(a, b, n) == 0 <==> AgreeBelow(a, b, n)
  {
    if n > 0 {
      DifferingZero(a, b, n - 1);
      if Bit(a, n - 1) != Bit(b, n - 1) {
        assert Differing(a, b, n) != 0;
        assert !AgreeBelow(a, b, n);
      } else if Differing(a, b, n - 1) != 0 {
        assert Differing(a, b, n) != 0;
        var k :| 0 <= k < n - 1 && Bit(a, k) != Bit(b, k);
        assert !AgreeBelow(a, b, n);
      } else {
        assert Differing(a, b, n) == 0;
        assert AgreeBelow(a, b, n - 1);
        assert AgreeBelow(a, b, n);
      }
    }
  }

  /** The distance is zero exactly for equal values. */
  lemma HammingZeroIffEqual(a: UInt64, b: UInt64)
    ensures Hamming(a, b) == 0 <==> a == b
  {
    Pow2Widths();
    DifferingZero(a, b, 64);
    if Hamming(a, b) == 0 {
      BitsEqual(a, b, 64);
    }
  }
}
