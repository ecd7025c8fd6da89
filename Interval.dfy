/** Interval: a period of time such as one hour or ten minutes, used to round a DateTime
    down to the start of its period (Truncate), to test whether it lies on a boundary
    (IsAtTop), to round it up to the next multiple of the span (TopOfCurrentOrNext) and to
    compare two times by period (AreWithinSameInterval). A DateTime is its tick count; the
    day of the month it lies on is computed with the proleptic Gregorian calendar, as
    DateTime.Day does. */
module Interval {
  import opened Wrappers
  import opened Integers
  import opened Constants
  import opened BitArithmetic
  import opened DateTimeUtils

  /** The components of a TimeSpan (TimeSpan.Seconds, .Minutes, .Hours, .Days): signed,
      computed with truncating division and remainder. */
  function SpanSeconds(span: Int64): int { TruncRem(TruncDiv(span, TicksPerSecond), 60) }
  function SpanMinutes(span: Int64): int { TruncRem(TruncDiv(span, TicksPerMinute), 60) }
  function SpanHours(span: Int64): int { TruncRem(TruncDiv(span, TicksPerHour), 24) }
  function SpanDays(span: Int64): int { TruncDiv(span, TicksPerDay) }

  /** The number of non-zero components, counted as the constructor counts them. */
  function NonZeroComponents(span: Int64): (n: nat)
    ensures n <= 4
  {
    (if SpanSeconds(span) != 0 then 1 else 0) + (if SpanMinutes(span) != 0 then 1 else 0) +
    (if SpanHours(span) != 0 then 1 else 0) + (if SpanDays(span) != 0 then 1 else 0)
  }

  datatype Interval = Interval(span: Int64)

  /** An Interval the constructor accepts (its span is never zero: see NewIntervalAccepts). */
  type ValidInterval = iv: Interval | iv.span != 0 && NonZeroComponents(iv.span) == 1 witness OneSecond()

  /** One second, an interval the constructor accepts. */
  function OneSecond(): (iv: Interval)
    ensures iv.span != 0 && NonZeroComponents(iv.span) == 1
  {
    ComponentCount(TicksPerSecond, 1, 0, 0, 0);
    Interval(TicksPerSecond)
  }

  /** new Interval(span): accepted iff exactly one of the Seconds, Minutes, Hours and Days
      components is non-zero; otherwise ArgumentException. */
  function NewInterval(span: Int64): (r: Result<ValidInterval>)
    ensures r.Ok? ==> r.value.span == span
    ensures r.Err? ==> r.error == Argument
  {
    var hasTotal := NonZeroComponents(span);
    if hasTotal != 1 then Err(Argument)
    else
      assert span != 0 by { ZeroSpanRefused(span); }
      Ok(Interval(span))
  }

  /** The accepted spans are exactly those with a single non-zero component, and every one
      of them has a non-zero tick count. */
  lemma NewIntervalAccepts(span: Int64)
    ensures NewInterval(span).Ok? <==> NonZeroComponents(span) == 1
    ensures NewInterval(span).Ok? ==> span != 0
  {
    ZeroSpanRefused(span);
  }

  /** The zero span has no non-zero component. */
  lemma ZeroSpanRefused(span: Int64)
    ensures NonZeroComponents(span) == 1 ==> span != 0
  {
    if span == 0 {
      assert TruncDiv(0, TicksPerSecond) == 0 && TruncDiv(0, TicksPerMinute) == 0;
      assert TruncDiv(0, TicksPerHour) == 0 && TruncDiv(0, TicksPerDay) == 0;
      assert NonZeroComponents(0) == 0;
    }
  }

  /** The predefined intervals are accepted, and a span of one hour and one second is
      refused (IntervalTest). */
  lemma PredefinedIntervals()
    ensures NewInterval(TicksPerSecond).Ok? && NewInterval(TicksPerMinute).Ok?
    ensures NewInterval(10 * TicksPerMinute).Ok? && NewInterval(TicksPerHour).Ok?
    ensures NewInterval(TicksPerDay).Ok?
    ensures NewInterval(TicksPerHour + TicksPerSecond) == Err(Argument)
  {
    ComponentCount(TicksPerSecond, 1, 0, 0, 0);
    ComponentCount(TicksPerMinute, 0, 1, 0, 0);
    ComponentCount(10 * TicksPerMinute, 0, 10, 0, 0);
    ComponentCount(TicksPerHour, 0, 0, 1, 0);
    ComponentCount(TicksPerDay, 0, 0, 0, 1);
    ComponentCount(TicksPerHour + TicksPerSecond, 1, 0, 1, 0);
  }

  lemma ComponentCount(span: Int64, sec: nat, min: nat, hour: nat, day: nat)
    requires sec < 60 && min < 60 && hour < 24
    requires span == day * TicksPerDay + hour * TicksPerHour + min * TicksPerMinute + sec * TicksPerSecond
    ensures NonZeroComponents(span) ==
      (if sec != 0 then 1 else 0) + (if min != 0 then 1 else 0) + (if hour != 0 then 1 else 0) + (if day != 0 then 1 else 0)
  {
    ComponentsOf(span, sec, min, hour, day);
  }

  /** The components of a non-negative span built from whole days, hours, minutes and
      seconds within their ranges. */
  lemma ComponentsOf(span: Int64, sec: nat, min: nat, hour: nat, day: nat)
    requires sec < 60 && min < 60 && hour < 24
    requires span == day * TicksPerDay + hour * TicksPerHour + min * TicksPerMinute + sec * TicksPerSecond
    ensures SpanSeconds(span) == sec && SpanMinutes(span) == min
    ensures SpanHours(span) == hour && SpanDays(span) == day
  {
    PositiveSpanComponents(span);
    var hours := day * 24 + hour;
    var minutes := hours * 60 + min;
    var seconds := minutes * 60 + sec;
    SecondsOf(day, hour, min, sec);
    DivModUniqueInt(span, 10_000_000, seconds, 0);
    CoarserUnit(span, TicksPerSecond, 60, minutes, sec);
    CoarserUnit(span, TicksPerMinute, 60, hours, min);
    CoarserUnit(span, TicksPerHour, 24, day, hour);
  }

  /** Whole days, hours, minutes and seconds in ticks are that many seconds in ticks. */
  lemma SecondsOf(day: nat, hour: nat, min: nat, sec: nat)
    ensures day * TicksPerDay + hour * TicksPerHour + min * TicksPerMinute + sec * TicksPerSecond ==
      10_000_000 * (((day * 24 + hour) * 60 + min) * 60 + sec)
  {
    assert TicksPerMinute == 600_000_000 && TicksPerHour == 36_000_000_000 && TicksPerDay == 864_000_000_000;
  }

  /** A count of units that is q whole groups of m plus r is q groups of m units. */
  lemma CoarserUnit(span: nat, unit: nat, m: nat, q: int, r: int)
    requires unit > 0 && m > 0 && 0 <= r < m && span / unit == m * q + r
    ensures span / (unit * m) == q && (span / unit) % m == r
  {
    ModSplit(span, unit, m);
    DivModUniqueInt(span / unit, m, q, r);
  }

  /** On a non-negative span the components are plain quotients and remainders. */
  lemma PositiveSpanComponents(span: Int64)
    requires 0 <= span
    ensures SpanSeconds(span) == (span / TicksPerSecond) % 60
    ensures SpanMinutes(span) == (span / TicksPerMinute) % 60
    ensures SpanHours(span) == (span / TicksPerHour) % 24
    ensures SpanDays(span) == span / TicksPerDay
  {
    TruncDivNonNegative(span, TicksPerSecond);
    TruncDivNonNegative(span, TicksPerMinute);
    TruncDivNonNegative(span, TicksPerHour);
    TruncDivNonNegative(span, TicksPerDay);
    RemainderOfNonNegative(span / TicksPerSecond, 60);
    RemainderOfNonNegative(span / TicksPerMinute, 60);
    RemainderOfNonNegative(span / TicksPerHour, 24);
  }

  // ----- DateTime components -----

  function Second(t: DateTimeTicks): nat { (t / TicksPerSecond) % 60 }
  function Minute(t: DateTimeTicks): nat { (t / TicksPerMinute) % 60 }
  function Hour(t: DateTimeTicks): nat { (t / TicksPerHour) % 24 }
  /** Midnight at the start of t's day (DateTime.Date). */
  function DayStart(t: DateTimeTicks): nat { t - t % TicksPerDay }

  const DaysToMonth365: seq<nat> := [0, 31, 59, 90, 120, 151, 181, 212, 243, 273, 304, 334, 365]
  const DaysToMonth366: seq<nat> := [0, 31, 60, 91, 121, 152, 182, 213, 244, 274, 305, 335, 366]

  /** The zero-based day of the year of day number n (days since 0001-01-01), and whether
      that year is a leap year: whole 400-, 100-, 4- and 1-year cycles are removed, the last
      year of a cycle absorbing the extra day. */
  function DayOfYear(n: nat): (r: (nat, bool))
    ensures r.0 <= n
    ensures r.0 < (if r.1 then 366 else 365)
  {
    DayOfCycle(n % 146097)
  }

  /** Within a 400-year cycle: whole centuries, the fourth one absorbing the cycle's last
      day. */
  function DayOfCycle(n0: nat): (r: (nat, bool))
    requires n0 < 146097
    ensures r.0 <= n0
    ensures r.0 < (if r.1 then 366 else 365)
  {
    var y100 := if n0 / 36524 == 4 then 3 else n0 / 36524;
    DayOfCentury(n0 - y100 * 36524, y100)
  }

  /** Within a century: whole 4-year cycles. */
  function DayOfCentury(n1: nat, y100: nat): (r: (nat, bool))
    requires n1 <= 36524 && (y100 != 3 ==> n1 < 36524)
    ensures r.0 <= n1
    ensures r.0 < (if r.1 then 366 else 365)
  {
    var y4 := n1 / 1461;
    DayOfQuad(n1 - y4 * 1461, y4, y100)
  }

  /** Within a 4-year cycle: whole years, the fourth one absorbing the leap day. */
  function DayOfQuad(n2: nat, y4: nat, y100: nat): (r: (nat, bool))
    requires n2 < 1461 && (y4 == 24 && y100 != 3 ==> n2 < 1460)
    ensures r.0 <= n2
    ensures r.0 < (if r.1 then 366 else 365)
  {
    var y1 := if n2 / 365 == 4 then 3 else n2 / 365;
    (n2 - y1 * 365, y1 == 3 && (y4 != 24 || y100 == 3))
  }

  /** The day of the month of a day of the year, found by scanning the cumulative month
      lengths from month m. */
  function DayInMonth(dayOfYear: nat, daysToMonth: seq<nat>, m: nat): (d: nat)
    requires |daysToMonth| == 13 && 1 <= m <= 12
    requires daysToMonth[m - 1] <= dayOfYear < daysToMonth[12]
    ensures 1 <= d <= dayOfYear + 1
    decreases 12 - m
  {
    if dayOfYear < daysToMonth[m] then dayOfYear - daysToMonth[m - 1] + 1
    else DayInMonth(dayOfYear, daysToMonth, m + 1)
  }

  /** The day of the month of day number n. */
  function DayOfMonthOfDay(n: nat): (d: nat)
    ensures 1 <= d && d - 1 <= n
  {
    var (dayOfYear, leap) := DayOfYear(n);
    DayInMonth(dayOfYear, if leap then DaysToMonth366 else DaysToMonth365, 1)
  }

  /** DateTime.Day. */
  function DayOfMonth(t: DateTimeTicks): (d: nat)
    ensures 1 <= d && d - 1 <= t / TicksPerDay
  {
    DayOfMonthOfDay(t / TicksPerDay)
  }

  // ----- the Interval operations -----

  /** Truncate: round the span's non-zero component of the time down to a multiple of it
      and zero every finer field; the first non-zero of Seconds, Minutes and Hours decides,
      and Days otherwise. */
  function Truncate(iv: ValidInterval, t: DateTimeTicks): (r: Result<DateTimeTicks>)
    ensures r.Ok? ==> r.value <= t
  {
    var span := iv.span;
    if SpanSeconds(span) != 0 then Ok(TruncateSeconds(t, SpanSeconds(span)))
    else if SpanMinutes(span) != 0 then Ok(TruncateMinutes(t, SpanMinutes(span)))
    else if SpanHours(span) != 0 then Ok(TruncateHours(t, SpanHours(span)))
    else TruncateDays(t, SpanDays(span))
  }

  /** The source's c / k * k on a non-negative date component c. */
  function RoundTo(c: nat, k: int): (r: nat)
    requires k != 0
    ensures r <= c
    ensures r == (c / Abs(k)) * Abs(k)
  {
    RoundDown(c, k);
    TruncDiv(c, k) * k
  }

  /** new DateTime(Year, Month, Day, Hour, Minute, Second / k * k). */
  function TruncateSeconds(t: DateTimeTicks, k: int): (r: DateTimeTicks)
    requires k != 0
    ensures r <= t
  {
    var newSecond := RoundTo(Second(t), k);
    FieldsBelow(t, 0, 0, newSecond);
    DayStart(t) + Hour(t) * TicksPerHour + Minute(t) * TicksPerMinute + newSecond * TicksPerSecond
  }

  /** new DateTime(Year, Month, Day, Hour, Minute / k * k, 0). */
  function TruncateMinutes(t: DateTimeTicks, k: int): (r: DateTimeTicks)
    requires k != 0
    ensures r <= t
  {
    var newMinute := RoundTo(Minute(t), k);
    FieldsBelow(t, 0, Minute(t) - newMinute, Second(t));
    DayStart(t) + Hour(t) * TicksPerHour + newMinute * TicksPerMinute
  }

  /** new DateTime(Year, Month, Day, Hour / k * k, 0, 0). */
  function TruncateHours(t: DateTimeTicks, k: int): (r: DateTimeTicks)
    requires k != 0
    ensures r <= t
  {
    var newHour := RoundTo(Hour(t), k);
    FieldsBelow(t, Hour(t) - newHour, Minute(t), Second(t));
    DayStart(t) + newHour * TicksPerHour
  }

  /** new DateTime(Year, Month, Day / k * k): a day of the month that rounds to 0 cannot
      be constructed (ArgumentOutOfRangeException). */
  function TruncateDays(t: DateTimeTicks, k: int): (r: Result<DateTimeTicks>)
    requires k != 0
    ensures r.Ok? ==> r.value <= t
    ensures r.Err? <==> DayOfMonth(t) < Abs(k)
  {
    var day := DayOfMonth(t);
    var newDay := RoundTo(day, k);
    RoundsToZero(day, k);
    if newDay < 1 then Err(ArgumentOutOfRange)
    else
      DayStartBound(t, day - newDay);
      Ok(DayStart(t) - (day - newDay) * TicksPerDay)
  }

  /** A time of day built from fields no larger than t's lies between t's day start and
      t: dropping dh hours, dm minutes and the seconds above s from t. */
  lemma FieldsBelow(t: DateTimeTicks, dh: nat, dm: nat, s: nat)
    requires dh <= Hour(t) && dm <= Minute(t) && s <= Second(t)
    ensures 0 <= DayStart(t) + (Hour(t) - dh) * TicksPerHour + (Minute(t) - dm) * TicksPerMinute + s * TicksPerSecond <= t
    ensures 0 <= DayStart(t) + (Hour(t) - dh) * TicksPerHour + (Minute(t) - dm) * TicksPerMinute <= t
    ensures 0 <= DayStart(t) + (Hour(t) - dh) * TicksPerHour <= t
  {
    TimeParts(t);
    MulMonotoneInt(TicksPerSecond, s, Second(t));
    MulMonotoneInt(TicksPerMinute, Minute(t) - dm, Minute(t));
    MulMonotoneInt(TicksPerHour, Hour(t) - dh, Hour(t));
    LinearBound(DayStart(t), (Hour(t) - dh) * TicksPerHour, Hour(t) * TicksPerHour,
      (Minute(t) - dm) * TicksPerMinute, Minute(t) * TicksPerMinute,
      s * TicksPerSecond, Second(t) * TicksPerSecond, t % TicksPerSecond, t);
  }

  /** A time is its day start plus its hours, minutes, seconds and the ticks below a second. */
  lemma TimeParts(t: DateTimeTicks)
    ensures DayStart(t) + Hour(t) * TicksPerHour + Minute(t) * TicksPerMinute + Second(t) * TicksPerSecond + t % TicksPerSecond == t
  {
    DecomposeTime(t);
    ModSplit(t, TicksPerSecond, 60);
  }

  lemma LinearBound(d: int, a: int, a1: int, b: int, b1: int, c: int, c1: int, rest: int, t: int)
    requires 0 <= d && 0 <= a <= a1 && 0 <= b <= b1 && 0 <= c <= c1 && 0 <= rest
    requires d + a1 + b1 + c1 + rest == t
    ensures 0 <= d + a + b + c <= t && d + a + b <= t && d + a <= t
  {
  }

  /** A component rounds down to 0 exactly when it is below |k|. */
  lemma RoundsToZero(c: nat, k: int)
    requires k != 0
    ensures RoundTo(c, k) == 0 <==> c < Abs(k)
  {
    var a: nat := Abs(k);
    if c >= a {
      DivModUniqueInt(c, a, c / a, c % a);
      MulMonotoneInt(a, 1, c / a);
      assert RoundTo(c, k) == a * (c / a);
    }
  }

  /** IsAtTop: the time is its own truncation. */
  function IsAtTop(iv: ValidInterval, t: DateTimeTicks): Result<bool>
  {
    var top :- Truncate(iv, t);
    Ok(top == t)
  }

  /** AreWithinSameInterval: the two times truncate to the same time. */
  function AreWithinSameInterval(iv: ValidInterval, left: DateTimeTicks, right: DateTimeTicks): Result<bool>
  {
    var l :- Truncate(iv, left);
    var r :- Truncate(iv, right);
    Ok(l == r)
  }

  /** TopOfCurrentOrNext: the time itself when its ticks are a multiple of the span's,
      otherwise the time rounded down to a multiple and advanced by the span; a result
      outside the DateTime range raises ArgumentOutOfRangeException. C#'s % takes the sign
      of the non-negative tick count, so a negative span steps back past the multiple below.
      The sum is computed in 64 bits, but a sum beyond long.MaxValue wraps to a negative
      tick count, which is out of range just the same. */
  function TopOfCurrentOrNext(iv: ValidInterval, t: DateTimeTicks): (r: Result<DateTimeTicks>)
    ensures r.Ok? ==> r.value % Abs(iv.span) == 0
    ensures r.Ok? && 0 < iv.span ==> t <= r.value < t + iv.span
    ensures r.Ok? && iv.span < 0 ==> t + 2 * iv.span < r.value <= t
    ensures r.Ok? <==> t % Abs(iv.span) == 0 || 0 <= t - t % Abs(iv.span) + iv.span <= MaxDateTimeTicks
    ensures r.Err? ==> r.error == ArgumentOutOfRange
  {
    var span := iv.span;
    var mod := TicksRem(t, span);
    if mod == 0 then Ok(t)
    else
      var next := (t - mod) + span;
      NextTop(t, span);
      if 0 <= next <= MaxDateTimeTicks then Ok(next) else Err(ArgumentOutOfRange)
  }

  /** time.Ticks % Span.Ticks: C#'s remainder of a non-negative tick count. */
  function TicksRem(t: DateTimeTicks, span: Int64): (m: nat)
    requires span != 0
    ensures m == t % Abs(span)
  {
    RemainderOfNonNegative(t, span);
    TruncRem(t, span)
  }

  /** Where TopOfCurrentOrNext lands when the time is not on a multiple of the span. */
  lemma NextTop(t: nat, span: int)
    requires span != 0 && t % Abs(span) != 0
    ensures (t - t % Abs(span) + span) % Abs(span) == 0
    ensures 0 < span ==> t < t - t % Abs(span) + span < t + span
    ensures span < 0 ==> t + 2 * span < t - t % Abs(span) + span < t + span
  {
    MultipleShift(t, span);
  }

  // ----- what Truncate computes -----

  /** The field Truncate rounds: the first non-zero of the span's Seconds, Minutes and
      Hours, and Days otherwise. */
  function Factor(iv: ValidInterval): (k: int)
    ensures k != 0
  {
    var span := iv.span;
    if SpanSeconds(span) != 0 then SpanSeconds(span)
    else if SpanMinutes(span) != 0 then SpanMinutes(span)
    else if SpanHours(span) != 0 then SpanHours(span)
    else SpanDays(span)
  }

  /** The tick length of one unit of that field. */
  function Unit(iv: ValidInterval): (u: nat)
    ensures u > 0
  {
    var span := iv.span;
    if SpanSeconds(span) != 0 then TicksPerSecond
    else if SpanMinutes(span) != 0 then TicksPerMinute
    else if SpanHours(span) != 0 then TicksPerHour
    else TicksPerDay
  }

  /** The value of that field in t: its second, minute, hour or day of the month. */
  function Field(iv: ValidInterval, t: DateTimeTicks): nat
  {
    var span := iv.span;
    if SpanSeconds(span) != 0 then Second(t)
    else if SpanMinutes(span) != 0 then Minute(t)
    else if SpanHours(span) != 0 then Hour(t)
    else DayOfMonth(t)
  }

  /** Truncate lands on a multiple of the field's unit at most |Factor| units before the
      time, and leaves the time alone exactly when it is on such a multiple and its field is a
      multiple of |Factor|. Only the day case can fail, when the day of the month is
      smaller than |Factor|. */
  lemma TruncateRoundsDown(iv: ValidInterval, t: DateTimeTicks)
    ensures Truncate(iv, t).Err? <==> Unit(iv) == TicksPerDay && DayOfMonth(t) < Abs(Factor(iv))
    ensures Truncate(iv, t).Ok? ==> Truncate(iv, t).value % Unit(iv) == 0
    ensures Truncate(iv, t).Ok? ==> 0 <= t - Truncate(iv, t).value < Abs(Factor(iv)) * Unit(iv)
    ensures Truncate(iv, t).Ok? ==>
      (Truncate(iv, t).value == t <==> t % Unit(iv) == 0 && Field(iv, t) % Abs(Factor(iv)) == 0)
  {
    var span := iv.span;
    var k := Factor(iv);
    if SpanSeconds(span) != 0 {
      TruncateSecondsGap(t, k);
    } else if SpanMinutes(span) != 0 {
      TruncateMinutesGap(t, k);
    } else if SpanHours(span) != 0 {
      TruncateHoursGap(t, k);
    } else {
      TruncateDaysGap(t, k);
    }
  }

  /** Truncating a truncated time changes nothing; for the second, minute and hour
      fields truncation never fails. */
  lemma TruncateIdempotent(iv: ValidInterval, t: DateTimeTicks)
    ensures Unit(iv) != TicksPerDay ==> Truncate(iv, t).Ok?
    ensures Truncate(iv, t).Ok? ==> Truncate(iv, Truncate(iv, t).value) == Truncate(iv, t)
  {
    var span := iv.span;
    var k := Factor(iv);
    if SpanSeconds(span) != 0 {
      var r := TruncateSeconds(t, k);
      TruncateSecondsFields(t, k);
      RoundedIsMultiple(Second(t), k);
      TruncateSecondsGap(r, k);
    } else if SpanMinutes(span) != 0 {
      var r := TruncateMinutes(t, k);
      TruncateMinutesFields(t, k);
      RoundedIsMultiple(Minute(t), k);
      TruncateMinutesGap(r, k);
    } else if SpanHours(span) != 0 {
      var r := TruncateHours(t, k);
      TruncateHoursFields(t, k);
      RoundedIsMultiple(Hour(t), k);
      TruncateHoursGap(r, k);
    } else if TruncateDays(t, k).Ok? {
      TruncateDaysTwice(t, k);
    }
  }

  /** The day case of TruncateIdempotent: the truncated day of the month is already a
      multiple of |k|, and the time is already midnight. */
  lemma TruncateDaysTwice(t: DateTimeTicks, k: int)
    requires k != 0 && TruncateDays(t, k).Ok?
    ensures TruncateDays(TruncateDays(t, k).value, k) == TruncateDays(t, k)
  {
    var r := TruncateDays(t, k).value;
    var day := RoundTo(DayOfMonth(t), k);
    TruncateDaysFields(t, k);
    TruncateDaysGap(t, k);
    RoundedIsMultiple(DayOfMonth(t), k);
    assert Abs(k) <= day by {
      if day < Abs(k) {
        DivModUniqueInt(day, Abs(k), 0, day);
      }
    }
    TruncateDaysGap(r, k);
  }

  /** Truncating to a number of days gives midnight of the day of the same month whose
      number is the day of the month rounded down to a multiple of |k|: that many days
      back from t's own day, and the days in between count down one by one. */
  lemma TruncateDaysFields(t: DateTimeTicks, k: int)
    requires k != 0 && TruncateDays(t, k).Ok?
    ensures TruncateDays(t, k).value % TicksPerDay == 0
    ensures DayOfMonth(TruncateDays(t, k).value) == RoundTo(DayOfMonth(t), k)
    ensures TruncateDays(t, k).value / TicksPerDay == t / TicksPerDay - (DayOfMonth(t) - RoundTo(DayOfMonth(t), k))
  {
    var day := DayOfMonth(t);
    var x := day - RoundTo(day, k);
    MidnightsBack(t, x);
    assert TruncateDays(t, k).value == DayStart(t) - x * TicksPerDay;
  }

  /** Midnight x days before t's own day, while x is less than t's day of the month, is a
      whole number of days whose day of the month is x less than t's. */
  lemma MidnightsBack(t: DateTimeTicks, x: nat)
    requires x < DayOfMonth(t)
    ensures 0 <= DayStart(t) - x * TicksPerDay <= MaxDateTimeTicks
    ensures (DayStart(t) - x * TicksPerDay) % TicksPerDay == 0
    ensures (DayStart(t) - x * TicksPerDay) / TicksPerDay == t / TicksPerDay - x
    ensures DayOfMonth(DayStart(t) - x * TicksPerDay) == DayOfMonth(t) - x
  {
    DaysBack(t, x);
    MidnightArithmetic(t, x);
    SameDay(DayStart(t) - x * TicksPerDay, t - x * TicksPerDay);
  }

  /** The day numbers of midnight x days before t's day and of t itself moved x days back. */
  lemma MidnightArithmetic(t: DateTimeTicks, x: nat)
    requires x <= t / TicksPerDay
    ensures x * TicksPerDay <= DayStart(t) <= t
    ensures (DayStart(t) - x * TicksPerDay) % TicksPerDay == 0
    ensures (DayStart(t) - x * TicksPerDay) / TicksPerDay == t / TicksPerDay - x
    ensures (t - x * TicksPerDay) / TicksPerDay == t / TicksPerDay - x
  {
    var q := t / TicksPerDay - x;
    DayStartIsWholeDays(t);
    assert t - x * TicksPerDay == q * TicksPerDay + t % TicksPerDay;
    DayNumber(q, 0);
    DayNumber(q, t % TicksPerDay);
  }

  /** Two times of the same day number have the same day of the month. */
  lemma SameDay(a: DateTimeTicks, b: DateTimeTicks)
    requires a / TicksPerDay == b / TicksPerDay
    ensures DayOfMonth(a) == DayOfMonth(b)
  {
  }

  lemma DayNumber(q: int, rest: int)
    requires 0 <= rest < TicksPerDay
    ensures (q * TicksPerDay + rest) / TicksPerDay == q && (q * TicksPerDay + rest) % TicksPerDay == rest
  {
    DivModUniqueInt(q * TicksPerDay + rest, TicksPerDay, q, rest);
  }

  /** Going back j days from t, while j is less than t's day of the month, counts the
      day of the month down by j. */
  lemma DaysBack(t: DateTimeTicks, j: nat)
    requires j < DayOfMonth(t)
    ensures j * TicksPerDay <= t && DayOfMonth(t - j * TicksPerDay) == DayOfMonth(t) - j
  {
    DayNumbersBack(t / TicksPerDay, j);
    MidnightArithmetic(t, j);
  }

  /** Going back j days from day number n, while j is less than its day of the month,
      counts the day of the month down by j. */
  lemma {:induction false} DayNumbersBack(n: nat, j: nat)
    requires j < DayOfMonthOfDay(n)
    ensures j <= n && DayOfMonthOfDay(n - j) == DayOfMonthOfDay(n) - j
    decreases j
  {
    if j > 0 {
      DayNumbersBack(n, j - 1);
      DayNumberBefore(n - (j - 1));
    }
  }

  /** The day before a day that is not the first of its month is the previous day of the
      same month. */
  lemma DayBefore(t: DateTimeTicks)
    requires DayOfMonth(t) >= 2
    ensures t >= TicksPerDay && DayOfMonth(t - TicksPerDay) == DayOfMonth(t) - 1
  {
    DayNumberBefore(t / TicksPerDay);
    DayEarlier(t);
  }

  /** A time on day number n >= 1, one day earlier, is on day number n - 1. */
  lemma DayEarlier(t: DateTimeTicks)
    requires t / TicksPerDay >= 1
    ensures t >= TicksPerDay && (t - TicksPerDay) / TicksPerDay == t / TicksPerDay - 1
  {
    DayStartIsWholeDays(t);
    DivModUniqueInt(t - TicksPerDay, TicksPerDay, t / TicksPerDay - 1, t % TicksPerDay);
  }

  /** The day number before one that is not the first of its month is the previous day of
      the same month. */
  lemma DayNumberBefore(n: nat)
    requires DayOfMonthOfDay(n) >= 2
    ensures n >= 1 && DayOfMonthOfDay(n - 1) == DayOfMonthOfDay(n) - 1
  {
    var dayOfYear, leap := DayOfYear(n).0, DayOfYear(n).1;
    var table := if leap then DaysToMonth366 else DaysToMonth365;
    assert MonthTable(table);
    DayInMonthBack(dayOfYear, table, 1);
    DayOfYearBack(n);
  }

  /** Cumulative month lengths: strictly increasing from 0. */
  predicate MonthTable(table: seq<nat>)
  {
    |table| == 13 && table[0] == 0 && forall i :: 0 <= i < 12 ==> table[i] < table[i + 1]
  }

  lemma {:induction false} DayInMonthBack(dayOfYear: nat, table: seq<nat>, m: nat)
    requires MonthTable(table) && 1 <= m <= 12
    requires table[m - 1] <= dayOfYear < table[12]
    requires DayInMonth(dayOfYear, table, m) >= 2
    ensures table[m - 1] <= dayOfYear - 1
    ensures DayInMonth(dayOfYear - 1, table, m) == DayInMonth(dayOfYear, table, m) - 1
    decreases 12 - m
  {
    if dayOfYear >= table[m] {
      DayInMonthBack(dayOfYear, table, m + 1);
    }
  }

  /** The day before a day of the year other than the first is in the same year. */
  lemma DayOfYearBack(n: nat)
    requires DayOfYear(n).0 >= 1
    ensures n >= 1 && DayOfYear(n - 1) == (DayOfYear(n).0 - 1, DayOfYear(n).1)
  {
    var n0 := n % 146097;
    DayOfCycleBack(n0);
    DivModUniqueInt(n - 1, 146097, n / 146097, n0 - 1);
  }

  lemma DayOfCycleBack(n0: nat)
    requires n0 < 146097 && DayOfCycle(n0).0 >= 1
    ensures n0 >= 1 && DayOfCycle(n0 - 1) == (DayOfCycle(n0).0 - 1, DayOfCycle(n0).1)
  {
    var y100 := if n0 / 36524 == 4 then 3 else n0 / 36524;
    DayOfCenturyBack(n0 - y100 * 36524, y100);
    WholeUnitsBeforeCapped(n0, 36524, y100);
  }

  lemma DayOfCenturyBack(n1: nat, y100: nat)
    requires n1 <= 36524 && (y100 != 3 ==> n1 < 36524) && DayOfCentury(n1, y100).0 >= 1
    ensures n1 >= 1 && DayOfCentury(n1 - 1, y100) == (DayOfCentury(n1, y100).0 - 1, DayOfCentury(n1, y100).1)
  {
    var y4 := n1 / 1461;
    DayOfQuadBack(n1 - y4 * 1461, y4, y100);
    WholeUnitsBefore(n1, 1461, y4);
  }

  lemma DayOfQuadBack(n2: nat, y4: nat, y100: nat)
    requires n2 < 1461 && (y4 == 24 && y100 != 3 ==> n2 < 1460) && DayOfQuad(n2, y4, y100).0 >= 1
    ensures n2 >= 1 && DayOfQuad(n2 - 1, y4, y100) == (DayOfQuad(n2, y4, y100).0 - 1, DayOfQuad(n2, y4, y100).1)
  {
    var y1 := if n2 / 365 == 4 then 3 else n2 / 365;
    WholeUnitsBeforeCapped(n2, 365, y1);
  }

  /** One less than x still holds q whole units of d when x goes past them. */
  lemma WholeUnitsBefore(x: nat, d: nat, q: nat)
    requires d > 0 && x / d == q && x - q * d >= 1
    ensures (x - 1) / d == q
  {
    DivModUniqueInt(x - 1, d, q, x - 1 - q * d);
  }

  /** The same, where a count of 4 units is taken as 3 (the last year of a cycle). */
  lemma WholeUnitsBeforeCapped(x: nat, d: nat, q: nat)
    requires d > 0 && x <= 4 * d && q == (if x / d == 4 then 3 else x / d) && x - q * d >= 1
    ensures (if (x - 1) / d == 4 then 3 else (x - 1) / d) == q
  {
    if x / d == 4 {
      DivModUniqueInt(x - 1, d, 3, d - 1);
    } else {
      WholeUnitsBefore(x, d, q);
    }
  }

  lemma RoundedIsMultiple(c: nat, k: int)
    requires k != 0
    ensures RoundTo(c, k) % Abs(k) == 0
  {
    var a: nat := Abs(k);
    DivModUniqueInt((c / a) * a, a, c / a, 0);
  }

  /** IsAtTop: true exactly when the time is on a multiple of the field's unit and its
      field is a multiple of |Factor|; it fails only where Truncate does. */
  lemma IsAtTopIffAligned(iv: ValidInterval, t: DateTimeTicks)
    ensures IsAtTop(iv, t).Err? <==> Truncate(iv, t).Err?
    ensures IsAtTop(iv, t).Ok? ==>
      (IsAtTop(iv, t).value <==> t % Unit(iv) == 0 && Field(iv, t) % Abs(Factor(iv)) == 0)
  {
    TruncateRoundsDown(iv, t);
  }

  /** Two times in the same interval are less than |Factor| units apart; the relation is
      symmetric, and holds between a time and itself. */
  lemma SameIntervalIsClose(iv: ValidInterval, left: DateTimeTicks, right: DateTimeTicks)
    ensures AreWithinSameInterval(iv, left, right) == AreWithinSameInterval(iv, right, left)
    ensures Truncate(iv, left).Ok? ==> AreWithinSameInterval(iv, left, left) == Ok(true)
    ensures AreWithinSameInterval(iv, left, right) == Ok(true) ==>
      -Abs(Factor(iv)) * Unit(iv) < left - right < Abs(Factor(iv)) * Unit(iv)
  {
    TruncateRoundsDown(iv, left);
    TruncateRoundsDown(iv, right);
    TruncateErrors(iv, left);
    TruncateErrors(iv, right);
  }

  /** Truncate fails only with ArgumentOutOfRangeException. */
  lemma TruncateErrors(iv: ValidInterval, t: DateTimeTicks)
    ensures Truncate(iv, t).Err? ==> Truncate(iv, t).error == ArgumentOutOfRange
  {
  }

  /** A time is in the same interval as its truncation (second, minute and hour fields). */
  lemma SameIntervalAsTruncation(iv: ValidInterval, t: DateTimeTicks)
    requires Unit(iv) != TicksPerDay
    ensures Truncate(iv, t).Ok?
    ensures AreWithinSameInterval(iv, t, Truncate(iv, t).value) == Ok(true)
    ensures IsAtTop(iv, Truncate(iv, t).value) == Ok(true)
  {
    TruncateIdempotent(iv, t);
  }

  /** TopOfCurrentOrNext leaves exactly the multiples of the span alone, so applying it
      twice is applying it once. */
  lemma TopOfCurrentOrNextIdempotent(iv: ValidInterval, t: DateTimeTicks)
    ensures TopOfCurrentOrNext(iv, t) == Ok(t) <==> t % Abs(iv.span) == 0
    ensures TopOfCurrentOrNext(iv, t).Ok? ==>
      TopOfCurrentOrNext(iv, TopOfCurrentOrNext(iv, t).value) == TopOfCurrentOrNext(iv, t)
  {
    if TopOfCurrentOrNext(iv, t).Ok? {
      var r := TopOfCurrentOrNext(iv, t).value;
      assert TicksRem(r, iv.span) == 0;
    }
    if t % Abs(iv.span) != 0 {
      NextTop(t, iv.span);
    }
  }

  lemma TruncateSecondsGap(t: DateTimeTicks, k: int)
    requires k != 0
    ensures TruncateSeconds(t, k) % TicksPerSecond == 0
    ensures 0 <= t - TruncateSeconds(t, k) < Abs(k) * TicksPerSecond
    ensures TruncateSeconds(t, k) == t <==> t % TicksPerSecond == 0 && Second(t) % Abs(k) == 0
  {
    var r := TruncateSeconds(t, k);
    var c := Second(t);
    TruncateSecondsFields(t, k);
    TimeParts(t);
    assert t - r == (c - RoundTo(c, k)) * TicksPerSecond + t % TicksPerSecond;
    RoundingGap(c, k, TicksPerSecond, t % TicksPerSecond);
  }

  lemma TruncateMinutesGap(t: DateTimeTicks, k: int)
    requires k != 0
    ensures TruncateMinutes(t, k) % TicksPerMinute == 0
    ensures 0 <= t - TruncateMinutes(t, k) < Abs(k) * TicksPerMinute
    ensures TruncateMinutes(t, k) == t <==> t % TicksPerMinute == 0 && Minute(t) % Abs(k) == 0
  {
    var r := TruncateMinutes(t, k);
    var c := Minute(t);
    TruncateMinutesFields(t, k);
    DecomposeTime(t);
    MulSub(c, RoundTo(c, k), TicksPerMinute);
    assert t - r == (c - RoundTo(c, k)) * TicksPerMinute + t % TicksPerMinute;
    RoundingGap(c, k, TicksPerMinute, t % TicksPerMinute);
  }

  lemma TruncateHoursGap(t: DateTimeTicks, k: int)
    requires k != 0
    ensures TruncateHours(t, k) % TicksPerHour == 0
    ensures 0 <= t - TruncateHours(t, k) < Abs(k) * TicksPerHour
    ensures TruncateHours(t, k) == t <==> t % TicksPerHour == 0 && Hour(t) % Abs(k) == 0
  {
    var r := TruncateHours(t, k);
    var c := Hour(t);
    TruncateHoursFields(t, k);
    DecomposeTime(t);
    MulSub(c, RoundTo(c, k), TicksPerHour);
    assert t - r == (c - RoundTo(c, k)) * TicksPerHour + t % TicksPerHour;
    RoundingGap(c, k, TicksPerHour, t % TicksPerHour);
  }

  lemma TruncateDaysGap(t: DateTimeTicks, k: int)
    requires k != 0
    ensures TruncateDays(t, k).Ok? ==> TruncateDays(t, k).value % TicksPerDay == 0
    ensures TruncateDays(t, k).Ok? ==> 0 <= t - TruncateDays(t, k).value < Abs(k) * TicksPerDay
    ensures TruncateDays(t, k).Ok? ==>
      (TruncateDays(t, k).value == t <==> t % TicksPerDay == 0 && DayOfMonth(t) % Abs(k) == 0)
  {
    if TruncateDays(t, k).Ok? {
      var r := TruncateDays(t, k).value;
      var c := DayOfMonth(t);
      var x := c - RoundTo(c, k);
      DayStartIsWholeDays(t);
      assert r == DayStart(t) - x * TicksPerDay;
      assert t - r == x * TicksPerDay + t % TicksPerDay;
      RoundingGap(c, k, TicksPerDay, t % TicksPerDay);
      DayMultiple(t / TicksPerDay, x);
    }
  }

  /** Stepping back whole days from a day start stays on a day start. */
  lemma MulSub(a: int, b: int, u: int)
    ensures (a - b) * u == a * u - b * u
  {
  }

  lemma DayMultiple(d: nat, x: nat)
    requires x <= d
    ensures (d * TicksPerDay - x * TicksPerDay) % TicksPerDay == 0
  {
    assert d * TicksPerDay - x * TicksPerDay == TicksPerDay * (d - x);
    DivModUniqueInt(TicksPerDay * (d - x), TicksPerDay, d - x, 0);
  }

  /** The distance from a time to its truncation: the rounded-off part of the field, in
      units, plus the finer ticks. */
  lemma RoundingGap(c: nat, k: int, unit: nat, rest: nat)
    requires k != 0 && 0 < unit && rest < unit
    ensures 0 <= (c - RoundTo(c, k)) * unit + rest < Abs(k) * unit
    ensures (c - RoundTo(c, k)) * unit + rest == 0 <==> rest == 0 && c % Abs(k) == 0
  {
    var a: nat := Abs(k);
    var x := c - RoundTo(c, k);
    assert x == c % a;
    ProductBelow(x, a, unit);
  }

  /** x * u is a multiple of u below a * u when 0 <= x < a, and zero only for x = 0. */
  lemma ProductBelow(x: int, a: int, u: int)
    requires 0 <= x < a && u > 0
    ensures 0 <= x * u && x * u + u <= a * u
    ensures x * u == 0 <==> x == 0
  {
    assert a * u - x * u == (a - x) * u;
    MulMonotoneInt(u, 1, a - x);
    if x != 0 {
      MulMonotoneInt(u, 1, x);
    }
  }

  lemma TruncateSecondsFields(t: DateTimeTicks, k: int)
    requires k != 0
    ensures DayStart(TruncateSeconds(t, k)) == DayStart(t)
    ensures Hour(TruncateSeconds(t, k)) == Hour(t) && Minute(TruncateSeconds(t, k)) == Minute(t)
    ensures Second(TruncateSeconds(t, k)) == RoundTo(Second(t), k)
    ensures TruncateSeconds(t, k) % TicksPerSecond == 0
  {
    DayStartIsWholeDays(t);
    TimeOf(TruncateSeconds(t, k), t / TicksPerDay, Hour(t), Minute(t), RoundTo(Second(t), k), 0);
  }

  lemma TruncateMinutesFields(t: DateTimeTicks, k: int)
    requires k != 0
    ensures DayStart(TruncateMinutes(t, k)) == DayStart(t)
    ensures Hour(TruncateMinutes(t, k)) == Hour(t) && Minute(TruncateMinutes(t, k)) == RoundTo(Minute(t), k)
    ensures Second(TruncateMinutes(t, k)) == 0
    ensures TruncateMinutes(t, k) % TicksPerMinute == 0
  {
    DayStartIsWholeDays(t);
    var r := TruncateMinutes(t, k);
    TimeOf(r, t / TicksPerDay, Hour(t), RoundTo(Minute(t), k), 0, 0);
    ModSplit(r, TicksPerSecond, 60);
  }

  lemma TruncateHoursFields(t: DateTimeTicks, k: int)
    requires k != 0
    ensures DayStart(TruncateHours(t, k)) == DayStart(t)
    ensures Hour(TruncateHours(t, k)) == RoundTo(Hour(t), k)
    ensures Minute(TruncateHours(t, k)) == 0 && Second(TruncateHours(t, k)) == 0
    ensures TruncateHours(t, k) % TicksPerHour == 0
  {
    DayStartIsWholeDays(t);
    var r := TruncateHours(t, k);
    TimeOf(r, t / TicksPerDay, RoundTo(Hour(t), k), 0, 0, 0);
    ModSplit(r, TicksPerMinute, 60);
    ModSplit(r, TicksPerSecond, 60);
  }

  lemma DayStartIsWholeDays(t: DateTimeTicks)
    ensures DayStart(t) == (t / TicksPerDay) * TicksPerDay
  {
  }

  /** The fields of a time assembled from a day number, an hour, a minute, a second and
      the ticks below a second. */
  lemma TimeOf(t: DateTimeTicks, d: nat, h: nat, m: nat, sec: nat, sub: nat)
    requires h < 24 && m < 60 && sec < 60 && sub < TicksPerSecond
    requires t == d * TicksPerDay + h * TicksPerHour + m * TicksPerMinute + sec * TicksPerSecond + sub
    ensures Hour(t) == h && Minute(t) == m && Second(t) == sec
    ensures DayStart(t) == d * TicksPerDay && t % TicksPerSecond == sub
  {
    var hours := d * 24 + h;
    var minutes := hours * 60 + m;
    var seconds := minutes * 60 + sec;
    assert t == 10_000_000 * seconds + sub by {
      assert TicksPerMinute == 600_000_000 && TicksPerHour == 36_000_000_000 && TicksPerDay == 864_000_000_000;
    }
    DivModUniqueInt(t, 10_000_000, seconds, sub);
    CoarserUnit(t, TicksPerSecond, 60, minutes, sec);
    CoarserUnit(t, TicksPerMinute, 60, hours, m);
    CoarserUnit(t, TicksPerHour, 24, d, h);
    DivModUniqueInt(t, TicksPerDay, d, h * TicksPerHour + m * TicksPerMinute + sec * TicksPerSecond + sub);
  }

  // ----- arithmetic helpers -----

  /** On a non-negative component c, the source's c / k * k rounds down to a multiple of
      |k|. */
  lemma RoundDown(c: nat, k: int)
    requires k != 0
    ensures TruncDiv(c, k) * k == (c / Abs(k)) * Abs(k)
    ensures 0 <= TruncDiv(c, k) * k <= c
  {
    TruncDivMagnitude(c, k);
    var q := TruncDiv(c, k);
    assert 0 <= c - k * q < Abs(k);
    if k < 0 {
      assert q <= 0;
      assert q * k == (-q) * (-k);
    } else {
      assert q >= 0;
    }
  }

  /** t % (u * m) splits into its u-unit component and the finer remainder. */
  lemma ModSplit(t: nat, u: nat, m: nat)
    requires u > 0 && m > 0
    ensures t % (u * m) == ((t / u) % m) * u + t % u
    ensures t / (u * m) == (t / u) / m
  {
    var q := t / u;
    assert t == u * q + t % u;
    assert q == m * (q / m) + q % m;
    assert t == (u * m) * (q / m) + (u * (q % m) + t % u) by {
      assert u * q == u * (m * (q / m)) + u * (q % m);
    }
    assert u * (q % m) + t % u < u * m by {
      MulMonotoneInt(u, q % m, m - 1);
      assert u * (m - 1) == u * m - u;
    }
    DivModUniqueInt(t, u * m, q / m, u * (q % m) + t % u);
  }

  /** A time is its day start plus its hour, minute and finer parts. */
  lemma DecomposeTime(t: DateTimeTicks)
    ensures DayStart(t) + Hour(t) * TicksPerHour == t - t % TicksPerHour
    ensures DayStart(t) + Hour(t) * TicksPerHour + Minute(t) * TicksPerMinute == t - t % TicksPerMinute
    ensures t - t % TicksPerMinute <= t
  {
    ModSplit(t, TicksPerHour, 24);
    ModSplit(t, TicksPerMinute, 60);
  }

  lemma DayStartBound(t: DateTimeTicks, days: nat)
    requires days <= t / TicksPerDay
    ensures days * TicksPerDay <= DayStart(t) <= t
  {
    assert DayStart(t) == (t / TicksPerDay) * TicksPerDay;
    MulMonotoneInt(TicksPerDay, days, t / TicksPerDay);
  }

  lemma TruncDivNonNegative(a: nat, d: nat)
    requires d > 0
    ensures TruncDiv(a, d) == a / d
  {
  }

  /** On a non-negative dividend, C#'s % is the Euclidean remainder by |span|. */
  lemma RemainderOfNonNegative(t: nat, span: int)
    requires span != 0
    ensures TruncRem(t, span) == t % Abs(span)
  {
    var a: nat := Abs(span);
    var k: int := t / a;
    assert t == a * k + t % a;
    if span > 0 {
      assert TruncDiv(t, span) == k;
    } else {
      var q: int := -k;
      assert TruncDiv(t, span) == q;
      assert span * q == a * k by {
        assert span + a == 0;
      }
    }
  }

  /** Rounding down to a multiple of |span| and stepping by span stays on a multiple. */
  lemma MultipleShift(t: nat, span: int)
    requires span != 0
    ensures (t - t % Abs(span) + span) % Abs(span) == 0
  {
    var a: nat := Abs(span);
    var k := t / a;
    assert t - t % a == a * k;
    var sign := if span > 0 then 1 else -1;
    assert span == a * sign;
    MultipleSum(a, k, sign);
  }

  lemma MultipleSum(a: nat, k: int, j: int)
    requires a > 0
    ensures (a * k + a * j) % a == 0
  {
    assert a * k + a * j == a * (k + j);
    DivModUniqueInt(a * (k + j), a, k + j, 0);
  }
}
