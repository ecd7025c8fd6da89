/** Bit, tick and byte-array helpers of Common/Extensions.cs (class ValueTypeExtensions).
    DateTime and TimeSpan values are their tick counts (100 ns units). */
module ValueTypeExtensions {
  import opened BitArithmetic
  import opened Integers
  import opened Wrappers
  import opened Constants

  /** `(x & 1) == 0` on a 32-bit int. */
  function IsEven(x: Int32): (r: bool)
    ensures r <==> Bit(Unsigned(x, 32), 0) == 0
    ensures r <==> x % 2 == 0
  {
    Pow2Widths();
    AndPow2(Unsigned(x, 32), 0);
    BitAnd(Unsigned(x, 32), 1) == 0
  }

  /** `(num & (1 << bitpos)) != 0` for all four overloads: an Int16 or UInt16 is widened
      to int (sign-extended or zero-extended), a UInt32 and the int mask are widened to
      long, and in every case the test reads bit (bitpos & 31) of the 32-bit two's
      complement pattern of num, since C# masks a 32-bit shift count to five bits. */
  function IsBitSetAt(num: int, bitpos: Int32): (r: bool)
    requires -0x8000_0000 <= num < 0x1_0000_0000
    ensures r <==> Bit(Unsigned(num, 32), bitpos % 32) == 1
  {
    AndPow2(Unsigned(num, 32), bitpos % 32);
    BitAnd(Unsigned(num, 32), Pow2(bitpos % 32)) != 0
  }

  lemma IsBitSetAtExamples()
    ensures IsBitSetAt(0x0100, 8) && !IsBitSetAt(0xFEFF, 8)
    ensures IsBitSetAt(1, 32) && !IsBitSetAt(1, 33)
    ensures IsBitSetAt(-0x8000, 31) && IsBitSetAt(-1, 20)
  {
    Pow2Widths();
    assert Unsigned(-0x8000, 32) == 0xFFFF_8000;
    assert Unsigned(-1, 32) == 0xFFFF_FFFF;
    TopBit(0xFFFF_8000, 31);
    BitOfMask(32, 20);
  }

  /** The microsecond-of-second of a DateTime: ticks / 10 modulo one million. */
  function Microseconds(ticks: nat): (r: nat)
    requires ticks <= MaxDateTimeTicks
    ensures r < USecPerSec
  {
    (ticks / TicksPerUSec) % USecPerSec
  }

  /** dateTime.AddTicks(microseconds * 10): the product wraps as a 64-bit long, and
      AddTicks throws ArgumentOutOfRangeException outside the DateTime range. */
  function AddMicroseconds(ticks: nat, microseconds: Int64): (r: Result<nat>)
    requires ticks <= MaxDateTimeTicks
    ensures r.Ok? ==> r.value <= MaxDateTimeTicks
    ensures r.Err? ==> r.error == ArgumentOutOfRange
  {
    var t := ticks + Wrap64(microseconds * 10);
    if 0 <= t <= MaxDateTimeTicks then Ok(t) else Err(ArgumentOutOfRange)
  }

  /** The whole microseconds of a TimeSpan, truncated toward zero. */
  function TotalMicroseconds(ticks: Int64): (r: Int64)
    ensures 0 <= ticks ==> 0 <= ticks - 10 * r < 10
    ensures ticks < 0 ==> -10 < ticks - 10 * r <= 0
  {
    TruncDiv(ticks, TicksPerUSec)
  }

  lemma ShiftDiv(a: nat, m: int, d: nat)
    requires d > 0 && a + d * m >= 0
    ensures (a + d * m) / d == a / d + m && (a + d * m) % d == a % d
  {
    var q := a / d;
    var rest := a % d;
    assert a + d * m == d * (q + m) + rest by {
      assert d * (q + m) == d * q + d * m;
    }
    DivModUniqueInt(a + d * m, d, q + m, rest);
  }

  lemma ModShift(x: int, k: int, n: nat)
    requires n > 0
    ensures (x + n * k) % n == x % n
  {
    var q := x / n;
    assert x + n * k == n * (q + k) + x % n by {
      assert n * (q + k) == n * q + n * k;
    }
    DivModUniqueInt(x + n * k, n, q + k, x % n);
  }

  /** Adding m microseconds moves the microsecond-of-second by m (modulo a second),
      whenever the tick count stays representable. */
  lemma {:induction false} AddMicrosecondsShiftsMicroseconds(ticks: nat, m: Int64)
    requires ticks <= MaxDateTimeTicks
    requires -0x8000_0000_0000_0000 <= m * 10 < 0x8000_0000_0000_0000
    ensures AddMicroseconds(ticks, m).Ok? <==> 0 <= ticks + 10 * m <= MaxDateTimeTicks
    ensures AddMicroseconds(ticks, m).Ok? ==>
      AddMicroseconds(ticks, m).value == ticks + 10 * m &&
      Microseconds(AddMicroseconds(ticks, m).value) == (Microseconds(ticks) + m) % USecPerSec
  {
    if 0 <= ticks + 10 * m <= MaxDateTimeTicks {
      var t := ticks + 10 * m;
      ShiftDiv(ticks, m, 10);
      var q := ticks / 10;
      var n := USecPerSec;
      calc {
        Microseconds(t);
        (q + m) % n;
        { ModShift(q % n + m, q / n, n); assert q == q % n + n * (q / n); }
        (q % n + m) % n;
      }
    }
  }

  /** TotalMicroseconds undoes the tick scaling of AddMicroseconds, and on a
      non-negative span agrees with Microseconds modulo one second. */
  lemma {:induction false} TotalMicrosecondsOfScaled(m: Int64)
    requires -0x8000_0000_0000_0000 <= m * 10 < 0x8000_0000_0000_0000
    ensures TotalMicroseconds(m * 10) == m
  {
    var r := TotalMicroseconds(m * 10);
    assert -10 < 10 * (m - r) < 10;
  }

  lemma {:induction false} MicrosecondsIsTotalMicrosecondsModSecond(ticks: nat)
    requires ticks <= MaxDateTimeTicks
    ensures Microseconds(ticks) == TotalMicroseconds(ticks) % USecPerSec
  {
    var r := TotalMicroseconds(ticks);
    DivisionRemainder(ticks, 10);
    assert ticks / 10 == r by {
      assert 0 <= ticks - 10 * (ticks / 10) < 10;
      assert -10 < 10 * (r - ticks / 10) < 10;
    }
  }

  lemma MicrosecondsExamples()
    ensures Microseconds(1234567) == 123456
    ensures TotalMicroseconds(876543210987654321) == 87654321098765432
    ensures TotalMicroseconds(-15) == -1
  {
    TotalMicrosecondsOfScaled(87654321098765432);
    assert TotalMicroseconds(-15) == -1 by {
      var r := TotalMicroseconds(-15);
      assert -10 < -15 - 10 * r <= 0;
    }
  }

  /** byte[].Matches: the same reference (including two nulls) matches, a null right
      does not, a null left with a non-null right throws NullReferenceException, and
      otherwise the arrays match iff their contents are equal. */
  method Matches(left: array?<Byte>, right: array?<Byte>) returns (r: Result<bool>)
    ensures left == right ==> r == Ok(true)
    ensures left != right && right == null ==> r == Ok(false)
    ensures left != right && right != null && left == null ==> r == Err(NullReference)
    ensures left != right && left != null && right != null ==> r == Ok(left[..] == right[..])
  {
    if left == right {
      return Ok(true);
    }
    if right == null {
      return Ok(false);
    }
    if left == null {
      return Err(NullReference);
    }
    if left.Length != right.Length {
      return Ok(false);
    }
    var i := 0;
    while i < left.Length
      invariant 0 <= i <= left.Length
      invariant left[..i] == right[..i]
    {
      if left[i] != right[i] {
        assert left[..][i] != right[..][i];
        return Ok(false);
      }
      assert left[..i + 1] == left[..i] + [left[i]];
      assert right[..i + 1] == right[..i] + [right[i]];
      i := i + 1;
    }
    assert left[..] == left[..i] && right[..] == right[..i];
    return Ok(true);
  }

  function Reverse<T>(s: seq<T>): (r: seq<T>)
    ensures |r| == |s|
  {
    if s == [] then [] else Reverse(s[1..]) + [s[0]]
  }

  lemma {:induction false} ReverseIndex<T>(s: seq<T>, i: nat)
    requires i < |s|
    ensures Reverse(s)[i] == s[|s| - 1 - i]
  {
    if i < |s| - 1 {
      ReverseIndex(s[1..], i);
    }
  }

  lemma ReverseInvolution<T>(s: seq<T>)
    ensures Reverse(Reverse(s)) == s
  {
    forall i | 0 <= i < |s|
      ensures Reverse(Reverse(s))[i] == s[i]
    {
      ReverseIndex(Reverse(s), i);
      ReverseIndex(s, |s| - 1 - i);
    }
  }

  /** The effect of ReverseBytes(offset, count) on the array contents s. With count < 2
      the loop runs no iteration; otherwise its first iteration already touches both
      ends of the range, so a range outside the array throws IndexOutOfRangeException
      before anything is written. */
  function ReverseRange(s: seq<Byte>, offset: int, count: int): Result<seq<Byte>>
  {
    if count < 2 then Ok(s)
    else if 0 <= offset && offset + count <= |s| then
      Ok(s[..offset] + Reverse(s[offset..offset + count]) + s[offset + count..])
    else Err(IndexOutOfRange)
  }

  /** ReverseRange reverses exactly the cells of [offset, offset + count) and leaves
      every other cell unchanged. */
  lemma ReverseRangeIndex(s: seq<Byte>, offset: int, count: int)
    ensures ReverseRange(s, offset, count).Ok? <==> count < 2 || (0 <= offset && offset + count <= |s|)
    ensures ReverseRange(s, offset, count).Ok? ==>
      var t := ReverseRange(s, offset, count).value;
      |t| == |s| &&
      forall k :: 0 <= k < |s| ==>
        t[k] == if offset <= k < offset + count then s[2 * offset + count - 1 - k] else s[k]
  {
    if 2 <= count && 0 <= offset && offset + count <= |s| {
      var t := ReverseRange(s, offset, count).value;
      forall k | offset <= k < offset + count
        ensures t[k] == s[2 * offset + count - 1 - k]
      {
        ReverseIndex(s[offset..offset + count], k - offset);
      }
    }
  }

  /** Reversing the same range twice restores the contents. */
  lemma ReverseRangeInvolution(s: seq<Byte>, offset: int, count: int)
    requires ReverseRange(s, offset, count).Ok?
    ensures ReverseRange(ReverseRange(s, offset, count).value, offset, count) == Ok(s)
  {
    if 2 <= count {
      var t := ReverseRange(s, offset, count).value;
      ReverseRangeIndex(s, offset, count);
      ReverseRangeIndex(t, offset, count);
      var u := ReverseRange(t, offset, count).value;
      forall k | 0 <= k < |s|
        ensures u[k] == s[k]
      {
        if offset <= k < offset + count {
          assert u[k] == t[2 * offset + count - 1 - k];
        }
      }
      assert u == s;
    }
  }

  /** Over the whole array, index i moves to n - 1 - i. */
  lemma ReverseWholeArray(s: seq<Byte>)
    requires 2 <= |s|
    ensures ReverseRange(s, 0, |s|) == Ok(Reverse(s))
    ensures forall i :: 0 <= i < |s| ==> ReverseRange(s, 0, |s|).value[i] == s[|s| - 1 - i]
  {
    assert s[..0] == [] && s[0..|s|] == s && s[|s|..] == [];
    assert s[..0] + Reverse(s[0..|s|]) + s[|s|..] == Reverse(s);
    forall i | 0 <= i < |s|
      ensures Reverse(s)[i] == s[|s| - 1 - i]
    {
      ReverseIndex(s, i);
    }
  }

  lemma ReverseRangeExample()
    ensures ReverseRange([4, 6, 3, 7, 8, 3, 7, 8, 3], 2, 4) == Ok([4, 6, 3, 8, 7, 3, 7, 8, 3])
  {
    var s: seq<Byte> := [4, 6, 3, 7, 8, 3, 7, 8, 3];
    var r: seq<Byte> := [3, 7, 8, 3];
    assert s[2..6] == r;
    forall i | 0 <= i < 4
      ensures Reverse(r)[i] == r[3 - i]
    {
      ReverseIndex(r, i);
    }
    assert |Reverse(r)| == 4;
    assert Reverse(r)[0] == 3 && Reverse(r)[1] == 8 && Reverse(r)[2] == 7 && Reverse(r)[3] == 3;
    assert Reverse(r) == [3, 8, 7, 3];
    assert s[..2] + [3, 8, 7, 3] + s[6..] == [4, 6, 3, 8, 7, 3, 7, 8, 3];
  }

  /** The contents after the first i swaps of ReverseBytes: the outer i cells at each end
      of the range are exchanged with their mirror images. */
  function PartlyReversed(s: seq<Byte>, offset: int, count: int, i: int): (r: seq<Byte>)
    requires 0 <= offset && offset + count <= |s| && 0 <= i && 2 * i <= count
    ensures |r| == |s|
  {
    seq(|s|, k requires 0 <= k < |s| =>
      if offset <= k < offset + i || offset + count - i <= k < offset + count
      then s[2 * offset + count - 1 - k] else s[k])
  }

  lemma PartlyReversedStep(s: seq<Byte>, offset: int, count: int, i: int)
    requires 0 <= offset && offset + count <= |s| && 0 <= i && 2 * i + 2 <= count
    ensures var p := PartlyReversed(s, offset, count, i);
      PartlyReversed(s, offset, count, i + 1) ==
      p[offset + i := p[offset + count - i - 1]][offset + count - i - 1 := p[offset + i]]
  {
  }

  lemma PartlyReversedDone(s: seq<Byte>, offset: int, count: int)
    requires 0 <= offset && offset + count <= |s| && 2 <= count
    ensures PartlyReversed(s, offset, count, count / 2) == ReverseRange(s, offset, count).value
  {
    ReverseRangeIndex(s, offset, count);
    var p := PartlyReversed(s, offset, count, count / 2);
    var t := ReverseRange(s, offset, count).value;
    forall k | 0 <= k < |s|
      ensures p[k] == t[k]
    {
      if offset + count / 2 <= k < offset + count - count / 2 {
        assert k == 2 * offset + count - 1 - k;
      }
    }
  }

  /** Reverses bytes[offset .. offset + count) in place, swapping cell offset + i with
      cell offset + count - 1 - i for i below count / 2. A null array throws
      NullReferenceException as soon as the loop body runs. */
  method ReverseBytes(bytes: array?<Byte>, offset: Int32, count: Int32) returns (r: Result<()>)
    modifies bytes
    ensures bytes == null ==> r == if count < 2 then Ok(()) else Err(NullReference)
    ensures bytes != null ==>
      match ReverseRange(old(bytes[..]), offset, count)
      case Ok(t) => r == Ok(()) && bytes[..] == t
      case Err(e) => r == Err(e) && bytes[..] == old(bytes[..])
  {
    if count < 2 {
      return Ok(());
    }
    if bytes == null {
      return Err(NullReference);
    }
    if !(0 <= offset && offset + count <= bytes.Length) {
      return Err(IndexOutOfRange);
    }
    ghost var s := bytes[..];
    var i := 0;
    while i < count / 2
      invariant 0 <= i <= count / 2
      invariant bytes[..] == PartlyReversed(s, offset, count, i)
    {
      var leftIndex := offset + i;
      var rightIndex := offset + count - i - 1;
      PartlyReversedStep(s, offset, count, i);
      var left := bytes[leftIndex];
      bytes[leftIndex] := bytes[rightIndex];
      bytes[rightIndex] := left;
      i := i + 1;
    }
    PartlyReversedDone(s, offset, count);
    return Ok(());
  }
}

/** Common/Extensions.cs, class MathExtensions: Max and Min through IComparable.CompareTo. */
module MathExtensions {

  function Max<T>(value1: T, value2: T, compareTo: (T, T) -> int): (r: T)
    ensures compareTo(value1, value2) > 0 ==> r == value1
    ensures compareTo(value1, value2) <= 0 ==> r == value2
  {
    if compareTo(value1, value2) > 0 then value1 else value2
  }

  function Min<T>(value1: T, value2: T, compareTo: (T, T) -> int): (r: T)
    ensures compareTo(value1, value2) < 0 ==> r == value1
    ensures compareTo(value1, value2) >= 0 ==> r == value2
  {
    if compareTo(value1, value2) < 0 then value1 else value2
  }

  /** The laws of IComparable.CompareTo that make Max and Min meaningful: every value
      compares equal to itself, and swapping the operands flips the sign. */
  ghost predicate IsComparison<T(!new)>(compareTo: (T, T) -> int)
  {
    (forall x :: compareTo(x, x) == 0) &&
    (forall x, y :: compareTo(x, y) > 0 <==> compareTo(y, x) < 0)
  }

  lemma MaxIsUpperBound<T(!new)>(value1: T, value2: T, compareTo: (T, T) -> int)
    requires IsComparison(compareTo)
    ensures compareTo(Max(value1, value2, compareTo), value1) >= 0
    ensures compareTo(Max(value1, value2, compareTo), value2) >= 0
  {
  }

  lemma MinIsLowerBound<T(!new)>(value1: T, value2: T, compareTo: (T, T) -> int)
    requires IsComparison(compareTo)
    ensures compareTo(Min(value1, value2, compareTo), value1) <= 0
    ensures compareTo(Min(value1, value2, compareTo), value2) <= 0
  {
  }
}

/** Common/Extensions.cs, class Helpers: Swap and WhileCatch. */
module Helpers {

  /** Swap(ref lhs, ref rhs): the new values of the two reference parameters. */
  method Swap<T>(lhs: T, rhs: T) returns (newLhs: T, newRhs: T)
    ensures newLhs == rhs && newRhs == lhs
  {
    newLhs, newRhs := rhs, lhs;
  }

  /** What the i-th invocation of the action does: return normally, throw the caught
      exception type T, or throw some other exception. */
  datatype Attempt = Succeeds | ThrowsCaught | ThrowsOther

  /** How WhileCatch ends: it returns, rethrows T on the limit-th failure, lets another
      exception of the action propagate, or lets an exception of ifCatch propagate. */
  datatype Ending = Returned | Rethrown | Propagated | HandlerThrew

  /** calls: invocations of the action; catchCalls: invocations of ifCatch. */
  datatype Run = Run(calls: nat, catchCalls: nat, ending: Ending)

  function WhileCatchFrom(attempt: nat -> Attempt, handlerReturns: nat -> bool, limit: int, i: nat): Run
    requires 1 <= i
    decreases limit - i
  {
    if i > limit then Run(0, 0, Returned)
    else match attempt(i)
      case Succeeds => Run(i, i - 1, Returned)
      case ThrowsOther => Run(i, i - 1, Propagated)
      case ThrowsCaught =>
        if i == limit then Run(i, i - 1, Rethrown)
        else if !handlerReturns(i) then Run(i, i, HandlerThrew)
        else WhileCatchFrom(attempt, handlerReturns, limit, i + 1)
  }

  /** The run of WhileCatch(action, ifCatch, limit) when the i-th invocation of the
      action behaves as attempt(i) and the i-th invocation of ifCatch returns normally
      exactly when handlerReturns(i). */
  function WhileCatchRun(attempt: nat -> Attempt, handlerReturns: nat -> bool, limit: int): Run
  {
    WhileCatchFrom(attempt, handlerReturns, limit, 1)
  }

  lemma {:induction false} WhileCatchFromOutcome(attempt: nat -> Attempt, handlerReturns: nat -> bool, limit: int, i: nat)
    requires 1 <= i <= limit
    ensures var run := WhileCatchFrom(attempt, handlerReturns, limit, i);
      i <= run.calls <= limit &&
      run.catchCalls == (if run.ending == HandlerThrew then run.calls else run.calls - 1) &&
      (forall j :: i <= j < run.calls ==> attempt(j) == ThrowsCaught && handlerReturns(j)) &&
      (run.ending == Returned <==> attempt(run.calls) == Succeeds) &&
      (run.ending == Propagated <==> attempt(run.calls) == ThrowsOther) &&
      (run.ending == Rethrown <==> attempt(run.calls) == ThrowsCaught && run.calls == limit) &&
      (run.ending == HandlerThrew <==>
         attempt(run.calls) == ThrowsCaught && run.calls < limit && !handlerReturns(run.calls))
    decreases limit - i
  {
    if attempt(i) == ThrowsCaught && i < limit && handlerReturns(i) {
      WhileCatchFromOutcome(attempt, handlerReturns, limit, i + 1);
    }
  }

  /** The action runs at most limit times; every invocation but the last threw T and was
      followed by an ifCatch that returned; the last one decides the ending: a T failure is
      rethrown only on the limit-th try, and before that ifCatch runs once more and may
      throw itself. A limit below 1 runs nothing. */
  lemma WhileCatchOutcome(attempt: nat -> Attempt, handlerReturns: nat -> bool, limit: int)
    ensures limit < 1 ==> WhileCatchRun(attempt, handlerReturns, limit) == Run(0, 0, Returned)
    ensures 1 <= limit ==>
      var run := WhileCatchRun(attempt, handlerReturns, limit);
      1 <= run.calls <= limit &&
      run.catchCalls == (if run.ending == HandlerThrew then run.calls else run.calls - 1) &&
      (forall j :: 1 <= j < run.calls ==> attempt(j) == ThrowsCaught && handlerReturns(j)) &&
      (run.ending == Returned <==> attempt(run.calls) == Succeeds) &&
      (run.ending == Propagated <==> attempt(run.calls) == ThrowsOther) &&
      (run.ending == Rethrown <==> attempt(run.calls) == ThrowsCaught && run.calls == limit) &&
      (run.ending == HandlerThrew <==>
         attempt(run.calls) == ThrowsCaught && run.calls < limit && !handlerReturns(run.calls))
  {
    if 1 <= limit {
      WhileCatchFromOutcome(attempt, handlerReturns, limit, 1);
    }
  }

  /** An action that fails with T on its first three invocations succeeds on the fourth
      try within a limit of 5, and is rethrown with a limit of 3; an ifCatch that throws on
      its second invocation ends the loop there. */
  lemma WhileCatchExample()
    ensures WhileCatchRun(i => if i < 4 then ThrowsCaught else Succeeds, _ => true, 5) == Run(4, 3, Returned)
    ensures WhileCatchRun(i => if i < 4 then ThrowsCaught else Succeeds, _ => true, 3) == Run(3, 2, Rethrown)
    ensures WhileCatchRun(i => if i < 4 then ThrowsCaught else Succeeds, i => i != 2, 5) == Run(2, 2, HandlerThrew)
  {
    var attempt: nat -> Attempt := i => if i < 4 then ThrowsCaught else Succeeds;
    var always: nat -> bool := _ => true;
    assert WhileCatchFrom(attempt, always, 5, 1) == WhileCatchFrom(attempt, always, 5, 4);
    assert WhileCatchFrom(attempt, always, 3, 1) == WhileCatchFrom(attempt, always, 3, 3);
    var second: nat -> bool := i => i != 2;
    assert WhileCatchFrom(attempt, second, 5, 1) == WhileCatchFrom(attempt, second, 5, 2);
  }

  /** WhileCatch: the counted loop over attempts 1 .. limit. */
  method WhileCatch(attempt: nat -> Attempt, handlerReturns: nat -> bool, limit: int) returns (run: Run)
    ensures run == WhileCatchRun(attempt, handlerReturns, limit)
  {
    var i := 1;
    var catchCalls := 0;
    while i <= limit
      invariant 1 <= i && (i == 1 || i <= limit)
      invariant catchCalls == i - 1
      invariant WhileCatchFrom(attempt, handlerReturns, limit, i) == WhileCatchRun(attempt, handlerReturns, limit)
      decreases limit - i
    {
      match attempt(i)
      case Succeeds =>
        return Run(i, catchCalls, Returned);
      case ThrowsOther =>
        return Run(i, catchCalls, Propagated);
      case ThrowsCaught =>
        if i == limit {
          return Run(i, catchCalls, Rethrown);
        }
        catchCalls := catchCalls + 1;
        if !handlerReturns(i) {
          return Run(i, catchCalls, HandlerThrew);
        }
        i := i + 1;
    }
    return Run(0, 0, Returned);
  }
}
