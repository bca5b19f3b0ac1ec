/** Converting between seconds since 1970 and calendar fields, as gmtime and mktime of the C runtime do. */
module Calendar {
  import opened Arith

  const DAY: nat := 86400

  /** The fields of struct tm; year counts from 1900, mon from 0. */
  datatype Tm = Tm(sec: int, min: int, hour: int, mday: int, mon: int, year: int, wday: int, yday: int)

  predicate Leap(year: int) { (year % 4 == 0 && year % 100 != 0) || year % 400 == 0 }

  function YearLength(year: int): nat { if Leap(year) then 366 else 365 }

  const MONTHS: seq<nat> := [31, 28, 31, 30, 31, 30, 31, 31, 30, 31, 30, 31]

  function MonthLength(year: int, month: nat): (n: nat)
    requires month < 12
    ensures 28 <= n <= 31
  {
    if month == 1 && Leap(year) then 29 else MONTHS[month]
  }

  /** Days from the start of 1970 to the start of a year. */
  function DaysBeforeYear(year: int): (n: nat)
    ensures 1970 <= year ==> 365 * (year - 1970) <= n
    decreases year - 1970
  {
    if year <= 1970 then 0 else DaysBeforeYear(year - 1) + YearLength(year - 1)
  }

  /** Days from the start of a year to the start of a month. */
  function DaysBeforeMonth(year: int, month: nat): nat
    requires month <= 12
  {
    if month == 0 then 0 else DaysBeforeMonth(year, month - 1) + MonthLength(year, month - 1)
  }

  lemma MonthsFillYear(year: int)
    ensures DaysBeforeMonth(year, 12) == YearLength(year)
  {
    hide DaysBeforeMonth;
    SecondHalf(year);
  }

  /** The month table in closed form. */
  lemma MonthsClosed(year: int, month: nat)
    requires month <= 12
    ensures DaysBeforeMonth(year, month) == (367 * (month + 1) - 362) / 12 - (if month < 2 then 0 else if Leap(year) then 1 else 2)
  {
    hide DaysBeforeMonth;
    FirstHalf(year);
    SecondHalf(year);
  }

  lemma FirstHalf(year: int)
    ensures var l := if Leap(year) then 1 else 0;
            && DaysBeforeMonth(year, 0) == 0 && DaysBeforeMonth(year, 1) == 31 && DaysBeforeMonth(year, 2) == 59 + l
            && DaysBeforeMonth(year, 3) == 90 + l && DaysBeforeMonth(year, 4) == 120 + l && DaysBeforeMonth(year, 5) == 151 + l
            && DaysBeforeMonth(year, 6) == 181 + l
  {
    hide Leap;
    assert DaysBeforeMonth(year, 1) == 31;
    assert DaysBeforeMonth(year, 3) == DaysBeforeMonth(year, 2) + 31;
    assert DaysBeforeMonth(year, 5) == DaysBeforeMonth(year, 4) + 31;
  }

  lemma SecondHalf(year: int)
    ensures var l := if Leap(year) then 1 else 0;
            && DaysBeforeMonth(year, 7) == 212 + l && DaysBeforeMonth(year, 8) == 243 + l && DaysBeforeMonth(year, 9) == 273 + l
            && DaysBeforeMonth(year, 10) == 304 + l && DaysBeforeMonth(year, 11) == 334 + l && DaysBeforeMonth(year, 12) == 365 + l
  {
    hide Leap;
    FirstHalf(year);
    assert DaysBeforeMonth(year, 8) == DaysBeforeMonth(year, 7) + 31;
    assert DaysBeforeMonth(year, 10) == DaysBeforeMonth(year, 9) + 31;
    assert DaysBeforeMonth(year, 12) == DaysBeforeMonth(year, 11) + 31;
  }

  /** The Gregorian count of days before a year in closed form: a leap day every 4 years, but not every 100, but every 400. */
  lemma {:induction false} YearsClosed(year: int)
    requires 1970 <= year
    ensures DaysBeforeYear(year) == 365 * (year - 1970) + ((year - 1) / 4 - 492) - ((year - 1) / 100 - 19) + ((year - 1) / 400 - 4)
    decreases year
  {
    if year > 1970 {
      YearsClosed(year - 1);
      LeapDays(year - 1);
    }
  }

  /** One more year counts one more leap day exactly if it is a leap year. */
  lemma LeapDays(y: int)
    requires 1970 <= y
    ensures (y / 4 - y / 100 + y / 400) - ((y - 1) / 4 - (y - 1) / 100 + (y - 1) / 400) == if Leap(y) then 1 else 0
  {
    Quotients(y, 4);
    Quotients(y, 100);
    Quotients(y, 400);
    assert y % 400 == 0 ==> y % 100 == 0;
    assert y % 100 == 0 ==> y % 4 == 0;
  }

  lemma Quotients(y: int, d: int)
    requires d > 0
    ensures y / d - (y - 1) / d == if y % d == 0 then 1 else 0
  {
    var q, r := y / d, y % d;
    assert y == q * d + r;
    if r == 0 {
      assert (q - 1) * d == q * d - d;
      DivUnique(y - 1, d, q - 1, d - 1);
    } else {
      DivUnique(y - 1, d, q, r - 1);
    }
  }

  /** Whole days since 1970, rounded down. */
  function Day(t: int): int { t / DAY }

  /** The values of time whose calendar fields fit an int. */
  ghost predicate Representable(t: int)
  {
    -0x8000_0000 <= Day(t) < DaysBeforeYear(0x8000_0000)
  }

  /** What it means for calendar fields to denote a time.  A time before 1970 is left in January 1970 with a
      day of month that is zero or negative. */
  ghost predicate Denotes(tm: Tm, t: int)
  {
    var year := tm.year + 1900;
    && 0 <= tm.sec < 60 && 0 <= tm.min < 60 && 0 <= tm.hour < 24 && 0 <= tm.mon < 12 && 1970 <= year
    && tm.yday == DaysBeforeMonth(year, tm.mon) + tm.mday - 1
    && (DaysBeforeYear(year) + tm.yday) * DAY + tm.hour * 3600 + tm.min * 60 + tm.sec == t
    && tm.wday == (Day(t) + 4) % 7
    && tm.mday <= MonthLength(year, tm.mon)
    && (if t >= 0 then 1 <= tm.mday else year == 1970 && tm.mon == 0 && tm.mday <= 0)
  }

  /** The day of the week is the one the Gregorian calendar gives the date: the first day of year 1 was a Monday. */
  lemma WeekdayClosed(tm: Tm, t: int)
    requires Denotes(tm, t)
    ensures var y, m := tm.year + 1899, tm.mon;
            var passed := 365 * y + y / 4 - y / 100 + y / 400 + (367 * (m + 1) - 362) / 12 - (if m < 2 then 0 else if Leap(y + 1) then 1 else 2);
            tm.wday == (passed + tm.mday) % 7
  {
    hide DaysBeforeMonth, DaysBeforeYear, MonthLength, Leap;
    var year := tm.year + 1900;
    YearsClosed(year);
    MonthsClosed(year, tm.mon);
    DayOf(t, DaysBeforeYear(year) + tm.yday, tm.hour * 3600 + tm.min * 60 + tm.sec);
    Weeks(Day(t) + 4, 102737);
  }

  lemma DayOf(t: int, d: int, rest: int)
    requires d * DAY + rest == t && 0 <= rest < DAY
    ensures Day(t) == d
  {
    DivUnique(t, DAY, d, rest);
  }

  lemma Weeks(d: int, n: int)
    ensures (d + 7 * n) % 7 == d % 7
  {
  }

  // ---------------------------------------------------------------- the two conversions

  /** The days and the second of the day, from C's truncating operators and the correction for a negative rest. */
  method SplitDay(seconds: int) returns (days: int, rest: int)
    ensures days == Day(seconds) && 0 <= rest < DAY && days * DAY + rest == seconds
  {
    days, rest := CDiv(seconds, DAY), CMod(seconds, DAY);
    CDivMod(seconds, DAY);
    if rest < 0 {
      rest := rest + DAY;
      days := days - 1;
    }
    DivUnique(seconds, DAY, days, rest);
  }

  method WeekDay(days: int) returns (wday: int)
    ensures wday == (days + 4) % 7
  {
    wday := CMod(days + 4, 7);
    CDivMod(days + 4, 7);
    if wday < 0 {
      wday := wday + 7;
      DivUnique(days + 4, 7, CDiv(days + 4, 7) - 1, wday);
    } else {
      DivUnique(days + 4, 7, CDiv(days + 4, 7), wday);
    }
  }

  method FindYear(days: int) returns (year: nat, rest: int)
    ensures 1970 <= year && DaysBeforeYear(year) + rest == days
    ensures if days >= 0 then 0 <= rest < YearLength(year) else year == 1970 && rest < 0
  {
    year, rest := 1970, days;
    while rest >= 365
      invariant 1970 <= year && DaysBeforeYear(year) + rest == days
      invariant if days >= 0 then 0 <= rest else year == 1970 && rest < 0
    {
      var length := 365;
      if Leap(year) { length := 366; }
      if rest < length { break; }
      rest := rest - length;
      year := year + 1;
    }
  }

  method FindMonth(year: nat, yday: int) returns (mon: nat, mday: int)
    requires yday < YearLength(year)
    ensures mon < 12 && yday == DaysBeforeMonth(year, mon) + mday - 1 && mday <= MonthLength(year, mon)
    ensures if yday >= 0 then 1 <= mday else mon == 0 && mday <= 0
  {
    var days := yday;
    for month := 0 to 12
      invariant days == yday - DaysBeforeMonth(year, month)
      invariant if yday >= 0 then 0 <= days else month == 0
    {
      var length := MONTHS[month];
      if month == 1 && Leap(year) { length := 29; }
      if days < length { return month, days + 1; }
      days := days - length;
    }
    MonthsFillYear(year);
    assert false;
  }

  /** crt_time_to_tm */
  method TimeToTm(seconds: int) returns (tm: Tm)
    requires Representable(seconds)
    ensures Denotes(tm, seconds) && FitsInt(tm)
  {
    hide DaysBeforeYear, DaysBeforeMonth, MonthLength, Day, Representable, FitsInt;
    var days, rest := SplitDay(seconds);
    var wday := WeekDay(days);
    var year, yday := FindYear(days);
    var mon, mday := FindMonth(year, yday);
    tm := Tm(rest % 3600 % 60, rest % 3600 / 60, rest / 3600, mday, mon, year - 1900, wday, yday);
    SplitSign(seconds, days, rest);
    FieldsFit(tm, seconds);
  }

  predicate FitsInt(tm: Tm)
  {
    && -0x8000_0000 <= tm.year < 0x8000_0000 - 1900 && -0x8000_0000 <= tm.yday < 0x8000_0000
    && -0x8000_0000 <= tm.mday < 0x8000_0000
  }

  /** No conversion to int loses anything on a representable time. */
  lemma FieldsFit(tm: Tm, t: int)
    requires Denotes(tm, t) && Representable(t)
    ensures FitsInt(tm)
  {
    hide DaysBeforeYear, DaysBeforeMonth, MonthLength;
    var year, second := tm.year + 1900, tm.hour * 3600 + tm.min * 60 + tm.sec;
    DivUnique(t, DAY, DaysBeforeYear(year) + tm.yday, second);
    YearDayFits(tm, t);
    if year > 0x8000_0000 { YearsApart(0x8000_0000, year); }
    FirstYear();
    NoMonths(year);
  }

  lemma FirstYear()
    ensures DaysBeforeYear(1970) == 0
  {
  }

  lemma SplitSign(seconds: int, days: int, rest: int)
    requires 0 <= rest < DAY && days * DAY + rest == seconds
    ensures days >= 0 <==> seconds >= 0
    ensures rest / 3600 < 24
  {
  }

  /** Days before a month as mktime adds them up: the grouping of its test makes every month of a year
      divisible by 400 count 29 days. */
  function CountedBeforeMonth(year: int, month: nat): nat
    requires month <= 12
  {
    if month == 0 then 0
    else CountedBeforeMonth(year, month - 1) +
         (if ((month - 1 == 1 && (year % 4 == 0 && year % 100 != 0)) || year % 400 == 0) then 29 else MONTHS[month - 1])
  }

  function TimeOf(tm: Tm): int
    requires tm.mon <= 12
  {
    (DaysBeforeYear(tm.year + 1900) + CountedBeforeMonth(tm.year + 1900, if tm.mon < 0 then 0 else tm.mon) + tm.mday - 1) * DAY
    + tm.hour * 3600 + tm.min * 60 + tm.sec
  }

  /** crt_tm_to_time */
  method TmToTime(tm: Tm) returns (t: int)
    requires tm.mon <= 12
    ensures t == TimeOf(tm)
  {
    var days, year := 0, 1970;
    while year < tm.year + 1900
      invariant days == DaysBeforeYear(year) && (year == 1970 || year <= tm.year + 1900)
    {
      days := days + 365;
      if Leap(year) { days := days + 1; }
      year := year + 1;
    }
    ghost var whole := days;
    year := tm.year + 1900;
    var month := 0;
    while month < tm.mon
      invariant 0 <= month && (month == 0 || month <= tm.mon)
      invariant days == whole + CountedBeforeMonth(year, month)
    {
      var length := MONTHS[month];
      if (month == 1 && (year % 4 == 0 && year % 100 != 0)) || year % 400 == 0 { length := 29; }
      days := days + length;
      month := month + 1;
    }
    days := days + tm.mday - 1;
    t := days * DAY + tm.hour * 3600 + tm.min * 60 + tm.sec;
  }

  // ---------------------------------------------------------------- when they are inverse

  lemma {:induction false} CountedRight(year: int, month: nat)
    requires month <= 12 && year % 400 != 0
    ensures CountedBeforeMonth(year, month) == DaysBeforeMonth(year, month)
  {
    if month > 0 { CountedRight(year, month - 1); }
  }

  lemma {:induction false} CountedShort(year: int, month: nat)
    requires 1 <= month <= 12 && year % 400 == 0
    ensures CountedBeforeMonth(year, month) == 29 * month && 29 * month + 2 <= DaysBeforeMonth(year, month)
  {
    if month > 1 { CountedShort(year, month - 1); }
    else { assert DaysBeforeMonth(year, 1) == DaysBeforeMonth(year, 0) + 31 && CountedBeforeMonth(year, 1) == CountedBeforeMonth(year, 0) + 29; }
  }

  /** Whatever denotes a time, mktime recovers it exactly outside years divisible by 400, and there only in
      January; later in such a year it answers at least two days too early. */
  lemma RoundTripIff(tm: Tm, t: int)
    requires Denotes(tm, t)
    ensures TimeOf(tm) == t <==> (tm.year + 1900) % 400 != 0 || tm.mon == 0
    ensures TimeOf(tm) != t ==> TimeOf(tm) <= t - 2 * DAY
  {
    hide DaysBeforeYear, DaysBeforeMonth, CountedBeforeMonth;
    var year := tm.year + 1900;
    if year % 400 != 0 { CountedRight(year, tm.mon); }
    else if tm.mon == 0 { NoMonths(year); }
    else { CountedShort(year, tm.mon); }
  }

  lemma NoMonths(year: int)
    ensures CountedBeforeMonth(year, 0) == DaysBeforeMonth(year, 0) == 0
  {
  }

  /** The two conversions composed. */
  method ThereAndBack(t: int) returns (tm: Tm, back: int)
    requires Representable(t)
    ensures Denotes(tm, t)
    ensures back == t <==> (tm.year + 1900) % 400 != 0 || tm.mon == 0
  {
    hide TimeOf, Representable;
    tm := TimeToTm(t);
    back := TmToTime(tm);
    RoundTripIff(tm, t);
  }

  // ---------------------------------------------------------------- the fields are determined

  lemma {:induction false} YearsApart(a: int, b: int)
    requires 1970 <= a < b
    ensures DaysBeforeYear(a) + YearLength(a) <= DaysBeforeYear(b)
    decreases b
  {
    if a < b - 1 { YearsApart(a, b - 1); }
  }

  lemma {:induction false} MonthsApart(year: int, a: nat, b: nat)
    requires a < b <= 12
    ensures DaysBeforeMonth(year, a) + MonthLength(year, a) <= DaysBeforeMonth(year, b)
    decreases b
  {
    if a < b - 1 { MonthsApart(year, a, b - 1); }
  }

  lemma SameDay(a: Tm, b: Tm, t: int)
    requires Denotes(a, t) && Denotes(b, t)
    ensures a.hour == b.hour && a.min == b.min && a.sec == b.sec && a.wday == b.wday
    ensures DaysBeforeYear(a.year + 1900) + a.yday == DaysBeforeYear(b.year + 1900) + b.yday
  {
    hide DaysBeforeYear, DaysBeforeMonth, MonthLength, Leap;
    DivUnique(t, DAY, DaysBeforeYear(a.year + 1900) + a.yday, a.hour * 3600 + a.min * 60 + a.sec);
    DivUnique(t, DAY, DaysBeforeYear(b.year + 1900) + b.yday, b.hour * 3600 + b.min * 60 + b.sec);
  }

  lemma YearDayFits(tm: Tm, t: int)
    requires Denotes(tm, t)
    ensures 1970 <= tm.year + 1900 && tm.yday < YearLength(tm.year + 1900)
    ensures tm.year + 1900 > 1970 ==> t >= 0
    ensures t >= 0 ==> 0 <= tm.yday
  {
    hide DaysBeforeYear, DaysBeforeMonth, MonthLength, YearLength, Day;
    MonthsApart(tm.year + 1900, tm.mon, 12);
    MonthsFillYear(tm.year + 1900);
  }

  lemma YearOrder(a: Tm, b: Tm, t: int)
    requires Denotes(a, t) && Denotes(b, t)
    ensures !(a.year < b.year)
  {
    hide Denotes, DaysBeforeYear, YearLength;
    SameDay(a, b, t);
    YearDayFits(a, t);
    YearDayFits(b, t);
    if a.year < b.year { YearsApart(a.year + 1900, b.year + 1900); }
  }

  lemma MonthOrder(a: Tm, b: Tm, t: int)
    requires Denotes(a, t) && Denotes(b, t) && a.year == b.year && a.yday == b.yday
    ensures !(a.mon < b.mon)
  {
    hide DaysBeforeYear, DaysBeforeMonth, MonthLength, Day;
    if a.mon < b.mon { MonthsApart(a.year + 1900, a.mon, b.mon); }
  }

  /** A time has one set of calendar fields, so Denotes says everything gmtime computes. */
  lemma DenotesUnique(a: Tm, b: Tm, t: int)
    requires Denotes(a, t) && Denotes(b, t)
    ensures a == b
  {
    hide DaysBeforeYear, DaysBeforeMonth, MonthLength, Day;
    SameDay(a, b, t);
    YearOrder(a, b, t);
    YearOrder(b, a, t);
    MonthOrder(a, b, t);
    MonthOrder(b, a, t);
  }

  /** The last day of February 2000 comes back as the 27th: the failing family is not empty. */
  lemma LeapCenturyLoses()
    ensures var tm := Tm(0, 0, 0, 29, 1, 100, 2, 59); Denotes(tm, 951782400) && TimeOf(tm) == 951782400 - 2 * DAY
  {
    hide DaysBeforeYear;
    YearsClosed(2000);
    assert DaysBeforeMonth(2000, 1) == DaysBeforeMonth(2000, 0) + 31;
    assert CountedBeforeMonth(2000, 1) == CountedBeforeMonth(2000, 0) + 29;
  }
}
