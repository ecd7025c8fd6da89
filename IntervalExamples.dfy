/** The cases of IntervalTest, on times of 2011-01-01 (day 734137 since 0001-01-01) and
    2012-01-01 (day 734502). */
module IntervalExamples {
  import opened Wrappers
  import opened Integers
  import opened Constants
  import opened DateTimeUtils
  import opened Interval

  const Jan1st2011: nat := 734137 * TicksPerDay
  const Jan1st2012: nat := 734502 * TicksPerDay

  lemma HourOf(d: nat, h: nat, m: nat, sec: nat)
    requires d <= 734502 && h < 24 && m < 60 && sec < 60
    ensures var t := d * TicksPerDay + h * TicksPerHour + m * TicksPerMinute + sec * TicksPerSecond;
      t <= MaxDateTimeTicks && Hour(t) == h && Minute(t) == m && Second(t) == sec &&
      DayStart(t) == d * TicksPerDay && t % TicksPerSecond == 0
  {
    var t := d * TicksPerDay + h * TicksPerHour + m * TicksPerMinute + sec * TicksPerSecond;
    TimeOf(t, d, h, m, sec, 0);
  }

  /** The second interval keeps every field of a time down to its whole second. */
  lemma TruncateBySecond(second: ValidInterval, t: DateTimeTicks)
    requires second.span == TicksPerSecond
    ensures Truncate(second, t) == Ok(DayStart(t) + Hour(t) * TicksPerHour + Minute(t) * TicksPerMinute + Second(t) * TicksPerSecond)
  {
    ComponentsOf(TicksPerSecond, 1, 0, 0, 0);
    assert RoundTo(Second(t), 1) == Second(t);
  }

  /** The minute interval keeps every field of a time down to its whole minute. */
  lemma TruncateByMinute(minute: ValidInterval, t: DateTimeTicks)
    requires minute.span == TicksPerMinute
    ensures Truncate(minute, t) == Ok(DayStart(t) + Hour(t) * TicksPerHour + Minute(t) * TicksPerMinute)
  {
    ComponentsOf(TicksPerMinute, 0, 1, 0, 0);
    assert RoundTo(Minute(t), 1) == Minute(t);
  }

  /** The hour interval keeps every field of a time down to its whole hour. */
  lemma TruncateByHour(hour: ValidInterval, t: DateTimeTicks)
    requires hour.span == TicksPerHour
    ensures Truncate(hour, t) == Ok(DayStart(t) + Hour(t) * TicksPerHour)
  {
    ComponentsOf(TicksPerHour, 0, 0, 1, 0);
    assert RoundTo(Hour(t), 1) == Hour(t);
  }

  /** On the first day of a month the day interval truncates a time to midnight. */
  lemma TruncateByDayOnFirst(day: ValidInterval, t: DateTimeTicks)
    requires day.span == TicksPerDay && DayOfMonth(t) == 1
    ensures Truncate(day, t) == Ok(DayStart(t))
  {
    ComponentsOf(TicksPerDay, 0, 0, 0, 1);
    assert RoundTo(1, 1) == 1;
  }

  /** IntervalTest.TruncateTest and IsAtTopTest for the hour interval: 05:30 truncates to
      05:00, which is at the top of the hour. */
  lemma HourTruncateCases(hour: ValidInterval)
    requires hour.span == TicksPerHour
    ensures Truncate(hour, Jan1st2011 + 5 * TicksPerHour + 30 * TicksPerMinute) == Ok(Jan1st2011 + 5 * TicksPerHour)
    ensures IsAtTop(hour, Jan1st2011 + 5 * TicksPerHour + 30 * TicksPerMinute) == Ok(false)
    ensures IsAtTop(hour, Jan1st2011 + 5 * TicksPerHour) == Ok(true)
  {
    HourOf(734137, 5, 30, 0);
    HourOf(734137, 5, 0, 0);
    TruncateByHour(hour, Jan1st2011 + 5 * TicksPerHour + 30 * TicksPerMinute);
    TruncateByHour(hour, Jan1st2011 + 5 * TicksPerHour);
  }

  /** 2011-01-01 is the first day of its month. */
  lemma FirstOfJanuary2011(t: DateTimeTicks)
    requires Jan1st2011 <= t < Jan1st2011 + TicksPerDay
    ensures DayOfMonth(t) == 1
  {
    assert t / TicksPerDay == 734137;
    assert DayOfYear(734137) == DayOfCycle(3652);
    assert DayOfCycle(3652) == DayOfCentury(3652, 0);
    assert DayOfCentury(3652, 0) == DayOfQuad(730, 2, 0);
    assert DayOfQuad(730, 2, 0) == (0, false);
  }

  /** IntervalTest.TruncateTest and IsAtTopTest for the day interval: noon truncates to
      midnight, which is at the top of the day. */
  lemma DayTruncateCases(day: ValidInterval)
    requires day.span == TicksPerDay
    ensures Truncate(day, Jan1st2011 + 12 * TicksPerHour) == Ok(Jan1st2011)
    ensures IsAtTop(day, Jan1st2011) == Ok(true)
  {
    HourOf(734137, 12, 0, 0);
    HourOf(734137, 0, 0, 0);
    FirstOfJanuary2011(Jan1st2011 + 12 * TicksPerHour);
    FirstOfJanuary2011(Jan1st2011);
    TruncateByDayOnFirst(day, Jan1st2011 + 12 * TicksPerHour);
    TruncateByDayOnFirst(day, Jan1st2011);
  }

  /** IntervalTest.TruncateTest and IsAtTopTest for the minute and second intervals. */
  lemma MinuteSecondTruncateCases(minute: ValidInterval, second: ValidInterval)
    requires minute.span == TicksPerMinute && second.span == TicksPerSecond
    ensures Truncate(minute, Jan1st2011 + 5 * TicksPerHour + 15 * TicksPerMinute + 45 * TicksPerSecond)
      == Ok(Jan1st2011 + 5 * TicksPerHour + 15 * TicksPerMinute)
    ensures IsAtTop(second, Jan1st2011 + 5 * TicksPerHour + 15 * TicksPerMinute + 5 * TicksPerSecond + 1)
      == Ok(false)
    ensures Truncate(second, Jan1st2011 + 5 * TicksPerHour + 15 * TicksPerMinute + 5 * TicksPerSecond + 1)
      == Ok(Jan1st2011 + 5 * TicksPerHour + 15 * TicksPerMinute + 5 * TicksPerSecond)
  {
    HourOf(734137, 5, 15, 45);
    TruncateByMinute(minute, Jan1st2011 + 5 * TicksPerHour + 15 * TicksPerMinute + 45 * TicksPerSecond);
    TimeOf(Jan1st2011 + 5 * TicksPerHour + 15 * TicksPerMinute + 5 * TicksPerSecond + 1, 734137, 5, 15, 5, 1);
    TruncateBySecond(second, Jan1st2011 + 5 * TicksPerHour + 15 * TicksPerMinute + 5 * TicksPerSecond + 1);
  }

  /** IntervalTest.TopOfCurrentOrNextTest: with a five-second interval, 05:00:56 moves to
      05:01:00, which stays where it is. */
  lemma TopOfCurrentOrNextCases()
    ensures NewInterval(5 * TicksPerSecond).Ok?
    ensures TopOfCurrentOrNext(NewInterval(5 * TicksPerSecond).value, Jan1st2012 + 5 * TicksPerHour + 56 * TicksPerSecond)
      == Ok(Jan1st2012 + 5 * TicksPerHour + TicksPerMinute)
    ensures TopOfCurrentOrNext(NewInterval(5 * TicksPerSecond).value, Jan1st2012 + 5 * TicksPerHour + TicksPerMinute)
      == Ok(Jan1st2012 + 5 * TicksPerHour + TicksPerMinute)
  {
    ComponentCount(5 * TicksPerSecond, 5, 0, 0, 0);
    var iv := NewInterval(5 * TicksPerSecond).value;
    FiveSecondSteps(iv);
  }

  lemma FiveSecondSteps(iv: ValidInterval)
    requires iv.span == 5 * TicksPerSecond
    ensures TopOfCurrentOrNext(iv, Jan1st2012 + 5 * TicksPerHour + 56 * TicksPerSecond)
      == Ok(Jan1st2012 + 5 * TicksPerHour + TicksPerMinute)
    ensures TopOfCurrentOrNext(iv, Jan1st2012 + 5 * TicksPerHour + TicksPerMinute)
      == Ok(Jan1st2012 + 5 * TicksPerHour + TicksPerMinute)
  {
    var t := Jan1st2012 + 5 * TicksPerHour + 56 * TicksPerSecond;
    assert Abs(iv.span) == 5 * TicksPerSecond;
    FiveSecondRemainders();
  }

  lemma FiveSecondRemainders()
    ensures (Jan1st2012 + 5 * TicksPerHour + 56 * TicksPerSecond) % (5 * TicksPerSecond) == TicksPerSecond
    ensures (Jan1st2012 + 5 * TicksPerHour + TicksPerMinute) % (5 * TicksPerSecond) == 0
  {
    var t := Jan1st2012 + 5 * TicksPerHour + 56 * TicksPerSecond;
    DivModUniqueInt(t, 5 * TicksPerSecond, 734502 * 17280 + 3611, TicksPerSecond);
    DivModUniqueInt(t + 4 * TicksPerSecond, 5 * TicksPerSecond, 734502 * 17280 + 3612, 0);
  }

  /** AreWithinSameInterval compares the two truncations. */
  lemma SameIntervalOf(iv: ValidInterval, left: DateTimeTicks, right: DateTimeTicks, l: DateTimeTicks, r: DateTimeTicks)
    requires Truncate(iv, left) == Ok(l) && Truncate(iv, right) == Ok(r)
    ensures AreWithinSameInterval(iv, left, right) == Ok(l == r)
  {
  }

  /** IntervalTest.AreWithinSameIntervalTest, against 2011-01-01 01:00: 01:00:59 shares the
      minute but not the second. */
  lemma SameMinuteCases(minute: ValidInterval, second: ValidInterval)
    requires minute.span == TicksPerMinute && second.span == TicksPerSecond
    ensures AreWithinSameInterval(minute, Jan1st2011 + TicksPerHour, Jan1st2011 + TicksPerHour + 59 * TicksPerSecond)
      == Ok(true)
    ensures AreWithinSameInterval(second, Jan1st2011 + TicksPerHour, Jan1st2011 + TicksPerHour + 59 * TicksPerSecond)
      == Ok(false)
  {
    var one := Jan1st2011 + TicksPerHour;
    var late := one + 59 * TicksPerSecond;
    assert Truncate(minute, one) == Ok(one) && Truncate(second, one) == Ok(one) by {
      HourOf(734137, 1, 0, 0);
      TruncateByMinute(minute, one);
      TruncateBySecond(second, one);
    }
    assert Truncate(minute, late) == Ok(one) && Truncate(second, late) == Ok(late) by {
      HourOf(734137, 1, 0, 59);
      TruncateByMinute(minute, late);
      TruncateBySecond(second, late);
    }
    SameIntervalOf(minute, one, late, one, one);
    SameIntervalOf(second, one, late, one, late);
  }

  /** IntervalTest.AreWithinSameIntervalTest, against 2011-01-01 01:00: 02:00 shares the day
      but not the hour. */
  lemma SameDayCases(hour: ValidInterval, day: ValidInterval)
    requires hour.span == TicksPerHour && day.span == TicksPerDay
    ensures AreWithinSameInterval(hour, Jan1st2011 + TicksPerHour, Jan1st2011 + 2 * TicksPerHour) == Ok(false)
    ensures AreWithinSameInterval(day, Jan1st2011 + TicksPerHour, Jan1st2011 + 2 * TicksPerHour) == Ok(true)
  {
    var one := Jan1st2011 + TicksPerHour;
    var two := Jan1st2011 + 2 * TicksPerHour;
    assert Truncate(hour, one) == Ok(one) && Truncate(day, one) == Ok(Jan1st2011) by {
      HourOf(734137, 1, 0, 0);
      TruncateByHour(hour, one);
      FirstOfJanuary2011(one);
      TruncateByDayOnFirst(day, one);
    }
    assert Truncate(hour, two) == Ok(two) && Truncate(day, two) == Ok(Jan1st2011) by {
      HourOf(734137, 2, 0, 0);
      TruncateByHour(hour, two);
      FirstOfJanuary2011(two);
      TruncateByDayOnFirst(day, two);
    }
    SameIntervalOf(hour, one, two, one, two);
    SameIntervalOf(day, one, two, Jan1st2011, Jan1st2011);
  }
}
