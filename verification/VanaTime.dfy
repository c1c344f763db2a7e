/** The calendar of Vana'diel: getters over a time point counted in milliseconds since the epoch. */
module VanaTime {
  import opened Remainders
  import opened Wrappers

  const SECOND: nat := 1000
  const MINUTE: nat := 60_000
  const HOUR: nat := 3_600_000
  const DAY: nat := 86_400_000
  const WEEK: nat := 691_200_000
  const MONTH: nat := 2_592_000_000
  const YEAR: nat := 31_104_000_000

  // ---- durations ----

  /** Whole units that have passed. */
  function Floor(t: nat, unit: nat): nat
    requires unit > 0
  {
    t / unit
  }

  /** Whole units that have begun; a unit boundary begins nothing. */
  function Ceil(t: nat, unit: nat): nat
    requires unit > 0
  {
    if t % unit == 0 then t / unit else t / unit + 1
  }

  /** The remainder of one duration by another, in the unit of the first; dividing by nothing is undefined. */
  function Rem(count: nat, larger: nat, ratio: nat): Option<nat>
  {
    if larger * ratio == 0 then None else Some(count % (larger * ratio))
  }

  function GetSecond(t: nat): Option<nat> { Rem(Floor(t, SECOND), Floor(t, MINUTE), 60) }
  function GetMinute(t: nat): Option<nat> { Rem(Floor(t, MINUTE), Floor(t, HOUR), 60) }
  function GetHour(t: nat): Option<nat> { Rem(Floor(t, HOUR), Floor(t, DAY), 24) }
  function GetMonthday(t: nat): Option<nat> { Rem(Ceil(t, DAY), Floor(t, MONTH), 30) }
  function GetMonth(t: nat): Option<nat> { Rem(Ceil(t, MONTH), Floor(t, YEAR), 12) }
  function GetYear(t: nat): nat { Floor(t, YEAR) }
  function GetWeekday(t: nat): Option<nat> { Rem(Floor(t, DAY), Floor(t, WEEK), 8) }
  function GetYearday(t: nat): Option<nat> { Rem(Floor(t, DAY), Floor(t, YEAR), 360) }

  // ---- the calendar itself ----

  /** A date and time of day; the day of the month and the month count from one. */
  datatype Moment = Moment(year: nat, month: nat, monthday: nat, hour: nat, minute: nat, second: nat, rest: nat)

  predicate IsMoment(m: Moment) {
    1 <= m.month <= 12 && 1 <= m.monthday <= 30 && m.hour < 24 && m.minute < 60 && m.second < 60 && m.rest < 1000
  }

  /** Days before the day of a moment. */
  function DaysBefore(m: Moment): int { m.year * 360 + (m.month - 1) * 30 + (m.monthday - 1) }

  /** The time point of a moment. */
  function Instant(m: Moment): int
  {
    (((DaysBefore(m) * 24 + m.hour) * 60 + m.minute) * 60 + m.second) * 1000 + m.rest
  }

  /** The moment of a time point. */
  function MomentOf(t: nat): (m: Moment)
  {
    var day := t / DAY;
    Moment(day / 360, day % 360 / 30 + 1, day % 30 + 1, t / HOUR % 24, t / MINUTE % 60, t / SECOND % 60, t % SECOND)
  }

  lemma MomentOfIsMoment(t: nat)
    ensures IsMoment(MomentOf(t)) && Instant(MomentOf(t)) == t
  {
    var s, m, h, d := t / SECOND, t / MINUTE, t / HOUR, t / DAY;
    assert m == s / 60 && h == m / 60 && d == h / 24;
    assert d % 360 % 30 == d % 30;
  }

  lemma UnitsNest(t: nat)
    ensures t / MINUTE == t / SECOND / 60 && t / HOUR == t / MINUTE / 60 && t / DAY == t / HOUR / 24
    ensures t / WEEK == t / DAY / 8 && t / MONTH == t / DAY / 30 && t / YEAR == t / MONTH / 12
  {
  }

  /** No two moments share a time point, so the digits of a time point are its only reading. */
  lemma OneReading(m: Moment, t: nat)
    requires IsMoment(m) && Instant(m) == t
    ensures m == MomentOf(t)
  {
    UnitsNest(t);
    var hours := DaysBefore(m) * 24 + m.hour;
    var minutes := hours * 60 + m.minute;
    var seconds := minutes * 60 + m.second;
    DigitBelow(seconds, 1000, m.rest, t);
    DigitBelow(minutes, 60, m.second, seconds);
    DigitBelow(hours, 60, m.minute, minutes);
    DigitBelow(DaysBefore(m), 24, m.hour, hours);
    DigitBelow(m.year, 360, (m.month - 1) * 30 + (m.monthday - 1), DaysBefore(m));
    DigitBelow(m.month - 1, 30, m.monthday - 1, (m.month - 1) * 30 + (m.monthday - 1));
    DigitBelow(m.year * 12 + (m.month - 1), 30, m.monthday - 1, DaysBefore(m));
  }

  lemma DigitBelow(larger: nat, ratio: nat, digit: nat, count: nat)
    requires digit < ratio && count == larger * ratio + digit
    ensures count / ratio == larger && count % ratio == digit
  {
    RemainderIs(count, ratio, larger, digit);
    QuotientAtMost(ratio, larger, digit, count / ratio, count % ratio);
    QuotientAtMost(ratio, count / ratio, count % ratio, larger, digit);
  }

  // ---- when each getter gives its digit ----

  /** A remainder by a multiple of the ratio keeps the digit, unless the count is twice the divisor. */
  lemma DigitIs(larger: nat, ratio: nat, digit: nat)
    requires ratio > 0 && digit <= ratio
    ensures Rem(larger * ratio + digit, larger, ratio) ==
            if larger == 0 then None
            else if larger == 1 && digit == ratio then Some(0)
            else Some(digit)
  {
    if larger >= 1 {
      MulMono(ratio, 1, larger);
      if larger == 1 && digit == ratio {
        RemainderIs(ratio + ratio, ratio, 2, 0);
      } else {
        if larger > 1 {
          MulMono(ratio, 2, larger);
        }
        RemainderIs(larger * ratio + digit, larger * ratio, 1, digit);
      }
    }
  }

  lemma SecondExact(t: nat)
    ensures GetSecond(t) == Some(MomentOf(t).second) <==> t >= MINUTE
  {
    DigitIs(t / MINUTE, 60, t / SECOND % 60);
    assert t / MINUTE == t / SECOND / 60;
  }

  lemma MinuteExact(t: nat)
    ensures GetMinute(t) == Some(MomentOf(t).minute) <==> t >= HOUR
  {
    DigitIs(t / HOUR, 60, t / MINUTE % 60);
    assert t / HOUR == t / MINUTE / 60;
  }

  lemma HourExact(t: nat)
    ensures GetHour(t) == Some(MomentOf(t).hour) <==> t >= DAY
  {
    DigitIs(t / DAY, 24, t / HOUR % 24);
    assert t / DAY == t / HOUR / 24;
  }

  lemma WeekdayExact(t: nat)
    ensures GetWeekday(t) == Some(t / DAY % 8) <==> t >= WEEK
  {
    DigitIs(t / WEEK, 8, t / DAY % 8);
    assert t / WEEK == t / DAY / 8;
  }

  lemma YeardayExact(t: nat)
    ensures GetYearday(t) == Some(t / DAY % 360) <==> t >= YEAR
  {
    DigitIs(t / YEAR, 360, t / DAY % 360);
    assert t / YEAR == t / DAY / 360;
  }

  /** The day of the month is right except on a midnight, in the first month, and on the 30th of the second. */
  lemma MonthdayExact(t: nat)
    ensures GetMonthday(t) == Some(MomentOf(t).monthday)
            <==> t % DAY != 0 && t >= MONTH && !(t < 2 * MONTH && t % MONTH > 29 * DAY)
    ensures t >= 2 * MONTH ==>
              GetMonthday(t) == Some(MomentOf(t).monthday - if t % DAY == 0 then 1 else 0)
  {
    var days, months := t / DAY, t / MONTH;
    assert months == days / 30;
    assert t % MONTH == days % 30 * DAY + t % DAY;
    var begun := if t % DAY == 0 then 0 else 1;
    assert Ceil(t, DAY) == months * 30 + (days % 30 + begun);
    DigitIs(months, 30, days % 30 + begun);
  }

  /** Months that have begun: one more than have passed, but for the midnight between two. */
  lemma MonthsBegun(t: nat)
    ensures Ceil(t, MONTH) == t / YEAR * 12 + (t / MONTH % 12 + if t % MONTH == 0 then 0 else 1)
    ensures t % YEAR > 11 * MONTH <==> t / MONTH % 12 == 11 && t % MONTH != 0
  {
    UnitsNest(t);
    assert t % YEAR == t / MONTH % 12 * MONTH + t % MONTH;
  }

  /** The month is right except at the midnight that begins it, in the first year, and in December of the second. */
  lemma MonthExact(t: nat)
    ensures GetMonth(t) == Some(MomentOf(t).month)
            <==> t % MONTH != 0 && t >= YEAR && !(t < 2 * YEAR && t % YEAR > 11 * MONTH)
    ensures t >= 2 * YEAR ==>
              GetMonth(t) == Some(MomentOf(t).month - if t % MONTH == 0 then 1 else 0)
  {
    UnitsNest(t);
    MonthsBegun(t);
    MonthDigit(t);
    DigitIs(t / YEAR, 12, t / MONTH % 12 + if t % MONTH == 0 then 0 else 1);
  }

  lemma MonthDigit(t: nat)
    ensures MomentOf(t).month == t / MONTH % 12 + 1
  {
    UnitsNest(t);
    DayDigits(t / DAY);
  }

  lemma DayDigits(day: nat)
    ensures day % 360 / 30 == day / 30 % 12
  {
    var year, month, monthday := day / 30 / 12, day / 30 % 12, day % 30;
    assert day == 360 * year + (month * 30 + monthday);
    DigitBelow(year, 360, month * 30 + monthday, day);
    DigitBelow(month, 30, monthday, month * 30 + monthday);
  }

  // ---- the getters together ----

  /** What the getters say of a time point, when none of them divides by zero. */
  function Reading(t: nat): Option<Moment>
  {
    match (GetMonth(t), GetMonthday(t), GetHour(t), GetMinute(t), GetSecond(t))
    case (Some(month), Some(monthday), Some(hour), Some(minute), Some(second)) =>
      Some(Moment(GetYear(t), month, monthday, hour, minute, second, t % SECOND))
    case _ => None
  }

  lemma ReadingOf(t: nat, month: nat, monthday: nat, hour: nat, minute: nat, second: nat)
    requires GetMonth(t) == Some(month) && GetMonthday(t) == Some(monthday)
    requires GetHour(t) == Some(hour) && GetMinute(t) == Some(minute) && GetSecond(t) == Some(second)
    ensures Reading(t) == Some(Moment(GetYear(t), month, monthday, hour, minute, second, t % SECOND))
  {
  }

  lemma YearDigit(t: nat)
    ensures GetYear(t) == MomentOf(t).year
  {
    UnitsNest(t);
  }

  /** From the third year on: the moment, one day low on a midnight and one month low where that begins a month. */
  lemma ReadingIs(t: nat)
    requires t >= 2 * YEAR
    ensures Reading(t) == Some(MomentOf(t).(month := MomentOf(t).month - if t % MONTH == 0 then 1 else 0,
                                            monthday := MomentOf(t).monthday - if t % DAY == 0 then 1 else 0))
  {
    var m := MomentOf(t);
    var month := m.month - if t % MONTH == 0 then 1 else 0;
    var monthday := m.monthday - if t % DAY == 0 then 1 else 0;
    assert GetSecond(t) == Some(m.second) by { SecondExact(t); }
    assert GetMinute(t) == Some(m.minute) by { MinuteExact(t); }
    assert GetHour(t) == Some(m.hour) by { HourExact(t); }
    assert GetMonthday(t) == Some(monthday) by { MonthdayExact(t); }
    assert GetMonth(t) == Some(month) by { MonthExact(t); }
    YearDigit(t);
    ReadingOf(t, month, monthday, m.hour, m.minute, m.second);
  }

  /** From the third year on, the getters read every time point off midnight, and only those, as its moment. */
  lemma ReadsMoment(t: nat)
    requires t >= 2 * YEAR
    ensures Reading(t) == Some(MomentOf(t)) <==> t % DAY != 0
    ensures t % DAY != 0 ==> IsMoment(Reading(t).value) && Instant(Reading(t).value) == t
  {
    ReadingIs(t);
    MonthStartsAtMidnight(t);
    MomentOfIsMoment(t);
  }

  lemma MonthStartsAtMidnight(t: nat)
    ensures t % MONTH == 0 ==> t % DAY == 0
  {
    assert t % MONTH == t / DAY % 30 * DAY + t % DAY;
  }

  /** The day of the week and of the year are those of the date read. */
  lemma DaysAgree(t: nat)
    requires t >= 2 * YEAR && t % DAY != 0
    ensures GetWeekday(t) == Some(DaysBefore(Reading(t).value) % 8)
    ensures GetYearday(t) == Some(DaysBefore(Reading(t).value) % 360)
  {
    ReadsMoment(t);
    WeekdayExact(t);
    YeardayExact(t);
    assert t / DAY == DaysBefore(MomentOf(t));
  }
}
