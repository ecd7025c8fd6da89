/** DateTimeHelper: the smaller and larger of two DateTimes, and scaling of a TimeSpan by an
    integer. A DateTime is its tick count (100 ns units since 0001-01-01) and a TimeSpan its
    signed 64-bit tick count. */
module DateTimeUtils {
  import opened Wrappers
  import opened Integers
  import opened Constants

  /** The tick count of a DateTime: DateTime.MinValue.Ticks to DateTime.MaxValue.Ticks. */
  type DateTimeTicks = t: int | 0 <= t <= MaxDateTimeTicks

  /** Min: val1 when it is strictly earlier, val2 otherwise. */
  function Min(val1: DateTimeTicks, val2: DateTimeTicks): (r: DateTimeTicks)
    ensures r <= val1 && r <= val2
    ensures r == val1 || r == val2
  {
    if val1 < val2 then val1 else val2
  }

  /** Max: val1 when it is strictly later, val2 otherwise. */
  function Max(val1: DateTimeTicks, val2: DateTimeTicks): (r: DateTimeTicks)
    ensures r >= val1 && r >= val2
    ensures r == val1 || r == val2
  {
    if val1 > val2 then val1 else val2
  }

  /** Multiply: span.Ticks * multiplier in unchecked 64-bit arithmetic. */
  function Multiply(span: Int64, multiplier: Int32): (r: Int64)
    ensures -0x8000_0000_0000_0000 <= span * multiplier < 0x8000_0000_0000_0000 ==> r == span * multiplier
    ensures (r - span * multiplier) % 0x1_0000_0000_0000_0000 == 0
  {
    Wrap64(span * multiplier)
  }

  /** Divide: span.Ticks / divisor, truncated toward zero. A zero divisor raises
      DivideByZeroException, and long.MinValue / -1 raises OverflowException. */
  function Divide(span: Int64, divisor: Int32): (r: Result<Int64>)
    ensures r.Err? <==> divisor == 0 || (span == -0x8000_0000_0000_0000 && divisor == -1)
    ensures divisor == 0 ==> r == Err(DivideByZero)
    ensures r.Ok? && 0 <= span ==> 0 <= span - divisor * r.value < Abs(divisor)
    ensures r.Ok? && span < 0 ==> -Abs(divisor) < span - divisor * r.value <= 0
  {
    if divisor == 0 then Err(DivideByZero)
    else if span == -0x8000_0000_0000_0000 && divisor == -1 then Err(Overflow)
    else
      var q := TruncDiv(span, divisor);
      assert -0x8000_0000_0000_0000 <= q < 0x8000_0000_0000_0000 by { TruncDivInRange(span, divisor); }
      Ok(q)
  }

  lemma TruncDivInRange(span: Int64, divisor: Int32)
    requires divisor != 0 && !(span == -0x8000_0000_0000_0000 && divisor == -1)
    ensures -0x8000_0000_0000_0000 <= TruncDiv(span, divisor) < 0x8000_0000_0000_0000
  {
    TruncDivMagnitude(span, divisor);
    var q0 := Abs(span) / Abs(divisor);
    if Abs(divisor) >= 2 {
      assert q0 <= Abs(span) / 2 by { DivByLarger(Abs(span), 2, Abs(divisor)); }
    } else {
      assert q0 == Abs(span);
    }
  }

  lemma DivByLarger(a: nat, d1: nat, d2: nat)
    requires 0 < d1 <= d2
    ensures a / d2 <= a / d1
  {
    var q := a / d2;
    assert d2 * q <= a;
    MulMonotoneInt(q, d1, d2);
    assert d1 * q <= a;
    if q > a / d1 {
      MulMonotoneInt(d1, a / d1 + 1, q);
      assert false;
    }
  }

  /** Dividing a product by its multiplier gives back the span, when the product did not
      overflow. */
  lemma DivideUndoesMultiply(span: Int64, m: Int32)
    requires m != 0
    requires -0x8000_0000_0000_0000 <= span * m < 0x8000_0000_0000_0000
    ensures Divide(Multiply(span, m), m) == Ok(span)
  {
    TruncDivOfMultiple(span, m);
    assert m * span == span * m;
  }

  /** Min and Max pick the two ends of the pair. */
  lemma MinMaxPartition(val1: DateTimeTicks, val2: DateTimeTicks)
    ensures {Min(val1, val2), Max(val1, val2)} == {val1, val2}
    ensures Min(val1, val2) == val1 <==> val1 <= val2
  {
  }

  /** The cases DateTimeHelperTest checks. */
  lemma DateTimeHelperExamples()
    ensures Max(100, 101) == 101 && Max(101, 100) == 101
    ensures Min(204, 205) == 204 && Min(205, 204) == 204
    ensures Multiply(403, 201) == 81003
    ensures Divide(100, 20) == Ok(5)
  {
    assert TruncDiv(100, 20) == 5 by { TruncDivOfMultiple(5, 20); }
  }
}
