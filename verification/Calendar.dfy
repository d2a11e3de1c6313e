/** Calendar arithmetic of kernel/core/cmos.c, kernel/lib/time.c and fat32_get_datetime: dates
    to seconds since 1970 by loops, and back by nested loops. */
module Calendar {
  import opened Common

  /** year_is_leap. */
  predicate YearIsLeap(year: int) {
    year % 4 == 0 && (year % 100 != 0 || year % 400 == 0)
  }

  function YearDays(year: int): nat {
    if YearIsLeap(year) then 366 else 365
  }

  /** days_in_month; no such month has no days. */
  function DaysInMonth(month: int, year: int): nat {
    match month
    case 12 => 31
    case 11 => 30
    case 10 => 31
    case 9 => 30
    case 8 => 31
    case 7 => 31
    case 6 => 30
    case 5 => 31
    case 4 => 30
    case 3 => 31
    case 2 => if YearIsLeap(year) then 29 else 28
    case 1 => 31
    case _ => 0
  }

  /** The days of the years 1970 to `year`. */
  function DaysThrough(year: int): nat
    decreases year
  {
    if year <= 1969 then 0 else DaysThrough(year - 1) + YearDays(year)
  }

  /** The days of the first `months` months of `year`. */
  function DaysOfMonths(months: nat, year: int): nat {
    if months == 0 then 0 else DaysOfMonths(months - 1, year) + DaysInMonth(months, year)
  }

  lemma MonthStep(months: nat, year: int)
    requires months >= 1
    ensures DaysOfMonths(months, year) == DaysOfMonths(months - 1, year) + DaysInMonth(months, year)
    ensures DaysOfMonths(0, year) == 0
  {
  }

  // ----- the encoding -----

  /** `secs_of_years`. */
  method SecsOfYears(years: nat) returns (secs: nat)
    ensures secs == 86400 * DaysThrough(years)
  {
    var y, days := years, 0;
    while y > 1969
      invariant days + DaysThrough(y) == DaysThrough(years)
    {
      days := days + 365;
      if y % 4 == 0 {
        if y % 100 == 0 {
          if y % 400 == 0 {
            days := days + 1;
          }
        } else {
          days := days + 1;
        }
      }
      y := y - 1;
    }
    return days * 86400;
  }

  /** The 64-bit counter of the loop over months, after `n` rounds. */
  function Counter(n: nat): word {
    (1 + n) % TWO64
  }

  /** The loop ends exactly when `months` is not the largest 64-bit number, which no counter
      exceeds; then it ends after `months` rounds. */
  lemma MonthLoopEnds(months: word)
    ensures (exists n: nat :: Counter(n) > months) <==> months != TWO64 - 1
    ensures months != TWO64 - 1 ==> Counter(months) > months && forall n: nat :: n < months ==> Counter(n) <= months
  {
    if months != TWO64 - 1 {
      assert Counter(months) == months + 1;
    }
  }

  /** `secs_of_month`; `None` is a loop that does not end. */
  method SecsOfMonth(months: word, year: nat) returns (secs: Option<nat>)
    ensures secs.None? <==> forall n: nat :: Counter(n) <= months
    ensures secs.None? <==> months == TWO64 - 1
    ensures secs.Some? ==> secs.value == 86400 * DaysOfMonths(months, year)
  {
    hide DaysOfMonths, Counter;
    MonthLoopEnds(months);
    MonthStep(1, year);
    if months == TWO64 - 1 {
      return None;
    }
    var days := 0;
    var i: word := 1;
    while i <= months
      invariant 1 <= i <= months + 1
      invariant days == DaysOfMonths(i - 1, year)
      decreases months + 1 - i
    {
      MonthStep(i, year);
      match i {
        case 12 | 10 | 8 | 7 | 5 | 3 | 1 => days := days + 31;
        case 11 | 9 | 6 | 4 => days := days + 30;
        case 2 =>
          days := days + 28;
          if year % 4 == 0 && (year % 100 != 0 || year % 400 == 0) {
            days := days + 1;
          }
        case _ =>
      }
      i := (i + 1) % TWO64;
    }
    return Some(days * 86400);
  }

  /** Leap days from year 1 to `year` in the Gregorian calendar. */
  function LeapDays(year: nat): int {
    year / 4 - year / 100 + year / 400
  }

  /** The loop over years in closed form. */
  lemma {:induction false} DaysThroughClosedForm(year: nat)
    requires year >= 1969
    ensures DaysThrough(year) == 365 * (year - 1969) + LeapDays(year) - LeapDays(1969)
  {
    if year > 1969 {
      DaysThroughClosedForm(year - 1);
      LeapDaysStep(year);
    }
  }

  lemma LeapDaysStep(year: nat)
    requires year > 0
    ensures LeapDays(year) == LeapDays(year - 1) + if YearIsLeap(year) then 1 else 0
  {
    FourthYear(year);
    HundredthYear(year);
    FourHundredthYear(year);
    LeapYears(year);
  }

  lemma FourthYear(year: nat)
    requires year > 0
    ensures year / 4 == (year - 1) / 4 + if year % 4 == 0 then 1 else 0
  {
  }

  lemma HundredthYear(year: nat)
    requires year > 0
    ensures year / 100 == (year - 1) / 100 + if year % 100 == 0 then 1 else 0
  {
  }

  lemma FourHundredthYear(year: nat)
    requires year > 0
    ensures year / 400 == (year - 1) / 400 + if year % 400 == 0 then 1 else 0
  {
  }

  lemma LeapYears(year: nat)
    ensures year % 100 == 0 ==> year % 4 == 0
    ensures year % 400 == 0 ==> year % 100 == 0
  {
    if year % 100 == 0 {
      Fours(year / 100);
    }
    if year % 400 == 0 {
      Hundreds(year / 400);
    }
  }

  lemma Fours(k: nat)
    ensures 100 * k % 4 == 0
  {
    Remainder4(25 * k);
    assert 100 * k == 4 * (25 * k);
  }

  lemma Remainder4(k: nat)
    ensures 4 * k % 4 == 0
  {
  }

  lemma Remainder100(k: nat)
    ensures 100 * k % 100 == 0
  {
  }

  lemma Hundreds(k: nat)
    ensures 400 * k % 100 == 0
  {
    Remainder100(4 * k);
    assert 400 * k == 100 * (4 * k);
  }

  /** The years grow strictly, by at least 365 days each. */
  lemma {:induction false} DaysThroughGrows(a: nat, b: nat)
    requires 1969 <= a < b
    ensures DaysThrough(a) + YearDays(a + 1) <= DaysThrough(b)
  {
    if a + 1 < b {
      DaysThroughGrows(a, b - 1);
    }
  }

  /** The loop over months adds up to the loop over years, year by year. */
  lemma MonthsMakeTheYear(year: nat)
    ensures DaysOfMonths(12, year) == YearDays(year)
    ensures year > 1969 ==> DaysThrough(year) == DaysThrough(year - 1) + DaysOfMonths(12, year)
  {
    assert DaysOfMonths(2, year) == DaysOfMonths(0, year) + 31 + DaysInMonth(2, year);
    assert DaysOfMonths(4, year) == DaysOfMonths(2, year) + 61;
    assert DaysOfMonths(6, year) == DaysOfMonths(4, year) + 61;
    assert DaysOfMonths(8, year) == DaysOfMonths(6, year) + 62;
    assert DaysOfMonths(10, year) == DaysOfMonths(8, year) + 61;
    assert DaysOfMonths(12, year) == DaysOfMonths(10, year) + 61;
  }

  /** Days of the year before month `m + 1`, in closed form. */
  function DaysBefore(m: nat, year: int): int {
    (367 * m + 5) / 12 - (if m < 2 then 0 else if YearIsLeap(year) then 1 else 2)
  }

  /** The loop over months in closed form. */
  lemma MonthsClosedForm(m: nat, year: int)
    requires m <= 12
    ensures DaysOfMonths(m, year) == DaysBefore(m, year)
  {
    if m > 0 {
      MonthsClosedForm(m - 1, year);
      MonthStep(m, year);
    }
  }

  lemma {:induction false} MonthsGrow(a: nat, b: nat, year: int)
    requires a <= b
    ensures DaysOfMonths(a, year) <= DaysOfMonths(b, year)
  {
    if a < b {
      MonthsGrow(a, b - 1, year);
    }
  }

  // ----- dates -----

  datatype DateTime = DateTime(year: int, month: int, day: int, hour: int, min: int, sec: int)

  predicate IsDate(d: DateTime) {
    && d.year >= 1970 && 1 <= d.month <= 12 && 1 <= d.day <= DaysInMonth(d.month, d.year)
    && 0 <= d.hour < 24 && 0 <= d.min < 60 && 0 <= d.sec < 60
  }

  /** Days since 1 January 1970, and seconds since midnight. */
  function DayNumber(d: DateTime): int
    requires d.month >= 1
  {
    DaysThrough(d.year - 1) + DaysOfMonths(d.month - 1, d.year) + (d.day - 1)
  }

  function SecondOfDay(d: DateTime): int {
    d.hour * 3600 + d.min * 60 + d.sec
  }

  /** The seconds since 1970 that cmos_current_time and fat32_get_datetime compute. */
  function Encoded(d: DateTime): int
    requires d.month >= 1
  {
    DayNumber(d) * 86400 + SecondOfDay(d)
  }

  /** The expression in cmos_current_time.  With month 0 the argument of the loop over months is
      2^64 - 1, and the loop does not end. */
  method Encode(d: DateTime) returns (t: Option<int>)
    requires d.year >= 1 && 0 <= d.month < TWO64
    ensures t.None? <==> d.month == 0
    ensures t.Some? ==> t.value == Encoded(d)
  {
    var y := SecsOfYears(d.year - 1);
    var m := SecsOfMonth((d.month - 1) % TWO64, d.year);
    if m.None? {
      return None;
    }
    return Some(y + m.value + (d.day - 1) * 86400 + d.hour * 3600 + d.min * 60 + d.sec);
  }

  /** Days since 1 January 1970 by the Gregorian calendar, in closed form. */
  function GregorianDay(d: DateTime): int
    requires d.year >= 1970 && d.month >= 1
  {
    365 * (d.year - 1970) + LeapDays(d.year - 1) - 477 + DaysBefore(d.month - 1, d.year) + (d.day - 1)
  }

  /** The day number that the loops compute. */
  lemma DayNumberClosedForm(d: DateTime)
    requires d.year >= 1970 && 1 <= d.month <= 12
    ensures DayNumber(d) == GregorianDay(d)
  {
    hide DaysThrough, DaysOfMonths, DaysBefore;
    DaysThroughClosedForm(d.year - 1);
    MonthsClosedForm(d.month - 1, d.year);
    assert LeapDays(1969) == 477;
  }

  /** Where a date lies in its year and its month. */
  lemma DateInYear(d: DateTime)
    requires IsDate(d)
    ensures DaysThrough(d.year - 1) <= DayNumber(d) < DaysThrough(d.year)
    ensures 0 <= SecondOfDay(d) < 86400
    ensures DaysOfMonths(d.month - 1, d.year) <= DayNumber(d) - DaysThrough(d.year - 1) < DaysOfMonths(d.month, d.year)
  {
    MonthsGrow(d.month, 12, d.year);
    MonthsMakeTheYear(d.year);
  }

  /** A later date has a larger day number. */
  lemma DayNumberOrder(d: DateTime, e: DateTime)
    requires IsDate(d) && IsDate(e)
    requires d.year < e.year || (d.year == e.year && (d.month < e.month || (d.month == e.month && d.day < e.day)))
    ensures DayNumber(d) < DayNumber(e)
  {
    hide DayNumber, DaysThrough, DaysOfMonths, DaysInMonth, YearDays, IsDate;
    DateBounds(d);
    DateInYear(d);
    DateInYear(e);
    if d.year < e.year {
      YearsBefore(d.year, e.year);
    } else if d.month < e.month {
      MonthsGrow(d.month, e.month - 1, d.year);
    } else {
      SameMonthOrder(d, e);
    }
  }

  lemma YearsBefore(a: int, b: int)
    requires 1970 <= a < b
    ensures DaysThrough(a) <= DaysThrough(b - 1)
  {
    hide DaysThrough, YearDays;
    if a < b - 1 {
      DaysThroughGrows(a, b - 1);
    }
  }

  lemma DateBounds(d: DateTime)
    requires IsDate(d)
    ensures d.year >= 1970 && 1 <= d.month <= 12
  {
  }

  lemma SameMonthOrder(d: DateTime, e: DateTime)
    requires IsDate(d) && IsDate(e) && d.year == e.year && d.month == e.month && d.day < e.day
    ensures DayNumber(d) < DayNumber(e)
  {
    hide DaysThrough, DaysOfMonths, DaysInMonth;
  }

  /** No two dates share an encoding. */
  lemma EncodedInjective(d: DateTime, e: DateTime)
    requires IsDate(d) && IsDate(e) && Encoded(d) == Encoded(e)
    ensures d == e
  {
    DateInYear(d);
    DateInYear(e);
    assert DayNumber(d) == DayNumber(e);
    if d.year != e.year || d.month != e.month || d.day != e.day {
      if d.year < e.year || (d.year == e.year && (d.month < e.month || (d.month == e.month && d.day < e.day))) {
        DayNumberOrder(d, e);
      } else {
        DayNumberOrder(e, d);
      }
    }
  }

  // ----- the decoding -----

  /** The first second the loops of localtime do not reach: 1 January 2100. */
  const END: nat := 4_102_444_800

  lemma EndOf2099()
    ensures END == 86400 * DaysThrough(2099)
  {
    hide DaysThrough;
    DaysThroughClosedForm(2099);
    assert LeapDays(2099) == 509 && LeapDays(1969) == 477;
  }

  /** `tm_t`. */
  class Tm {
    var sec: int
    var min: int
    var hour: int
    var mday: int
    var mon: int
    var year: int
    var wday: int
    var yday: int
    var isdst: int

    /** The date the fields stand for. */
    function Date(): DateTime
      reads this
    {
      DateTime(year + 1900, mon + 1, mday, hour, min, sec)
    }

    /** The same in closed form: the fields are the Gregorian date and time of day of `t`. */
    ghost predicate Gregorian(t: nat)
      reads this
    {
      var d := Date();
      && d.year >= 1970 && 1 <= d.month <= 12
      && 1 <= d.day <= DaysBefore(d.month, d.year) - DaysBefore(d.month - 1, d.year)
      && 0 <= d.hour < 24 && 0 <= d.min < 60 && 0 <= d.sec < 60
      && t == GregorianDay(d) * 86400 + d.hour * 3600 + d.min * 60 + d.sec
      && wday == (4 + GregorianDay(d)) % 7 && yday == DaysBefore(d.month - 1, d.year) + d.day - 1
    }

    lemma DecodedDate(t: nat)
      requires Decoded(t)
      ensures IsDate(Date()) && Encoded(Date()) == t
    {
      hide DaysThrough, DaysOfMonths, DayNumber, Encoded;
    }

    lemma DecodedGregorian(t: nat)
      requires Decoded(t)
      ensures Gregorian(t)
    {
      hide DaysThrough, DaysOfMonths, DaysBefore, LeapDays, DaysInMonth;
      var d := Date();
      DateBounds(d);
      DayNumberClosedForm(d);
      MonthsClosedForm(d.month - 1, d.year);
      MonthsClosedForm(d.month, d.year);
      MonthStep(d.month, d.year);
    }

    /** `localtime`: the loop over years, with the loops inside it as methods of their own. */
    method LocalTime(t: nat)
      modifies this
      ensures t < END ==> Decoded(t) && Gregorian(t)
      ensures t >= END ==> unchanged(this)
    {
      hide DaysThrough, YearDays, Decoded, Gregorian;
      EndOf2099();
      YearStep(1970);
      var seconds := 0;
      for y := 1970 to 2100
        invariant seconds == 86400 * DaysThrough(y - 1) <= t
        invariant unchanged(this)
      {
        YearStep(y);
        YearDaysAre(y);
        var secs := (if YearIsLeap(y) then 366 else 365) * 86400;
        if seconds + secs > t {
          YearsBefore(y, 2100);
          year := y - 1900;
          MonthLoop(t, y, seconds);
          DecodedGregorian(t);
          return;
        }
        seconds := seconds + secs;
      }
    }

    /** The fields are the date and time that `t` encodes, with its week day and day of the year. */
    ghost predicate Decoded(t: nat)
      reads this
    {
      && IsDate(Date()) && Encoded(Date()) == t
      && wday == (4 + DayNumber(Date())) % 7
      && yday == DayNumber(Date()) - DaysThrough(Date().year - 1) && isdst == 0
    }

    method MonthLoop(t: nat, y: nat, yearSec: nat)
      requires y >= 1970 && year == y - 1900
      requires yearSec == 86400 * DaysThrough(y - 1) <= t < yearSec + 86400 * YearDays(y)
      modifies this
      ensures Decoded(t)
    {
      hide DaysThrough, YearDays, DaysOfMonths, DaysInMonth, Decoded;
      MonthsMakeTheYear(y);
      MonthStep(1, y);
      var seconds := yearSec;
      for month := 1 to 13
        invariant seconds == yearSec + 86400 * DaysOfMonths(month - 1, y) <= t
        invariant year == y - 1900
      {
        MonthStep(month, y);
        var secs := DaysInMonth(month, y) * 86400;
        if seconds + secs > t {
          mon := month - 1;
          DayLoop(t, y, month, yearSec, seconds);
          return;
        }
        seconds := seconds + secs;
      }
    }

    method DayLoop(t: nat, y: nat, month: nat, yearSec: nat, monthSec: nat)
      requires y >= 1970 && 1 <= month <= 12 && year == y - 1900 && mon == month - 1
      requires yearSec == 86400 * DaysThrough(y - 1)
      requires monthSec == yearSec + 86400 * DaysOfMonths(month - 1, y)
      requires monthSec <= t < monthSec + DaysInMonth(month, y) * 86400
      modifies this
      ensures Decoded(t)
    {
      hide DaysThrough, DaysOfMonths, DaysInMonth, DayNumber, Encoded;
      var seconds := monthSec;
      for day := 1 to DaysInMonth(month, y) + 1
        invariant seconds == monthSec + 86400 * (day - 1) <= t
        invariant year == y - 1900 && mon == month - 1
      {
        var secs := 60 * 60 * 24;
        if seconds + secs > t {
          mday := day;
          HourLoop(t, yearSec, seconds);
          DaySplit(t, y, month, day, yearSec, seconds);
          DateDone(Date(), t, seconds);
          return;
        }
        seconds := seconds + secs;
      }
    }

    method HourLoop(t: nat, yearSec: nat, daySec: nat)
      requires yearSec <= daySec <= t < daySec + 86400
      modifies this`hour, this`min, this`sec, this`wday, this`yday, this`isdst
      ensures 0 <= hour < 24 && 0 <= min < 60 && 0 <= sec < 60 && isdst == 0
      ensures daySec + hour * 3600 + min * 60 + sec == t
      ensures wday == (t / 86400 + 4) % 7 && yday == (t - yearSec) / 86400
    {
      var seconds := daySec;
      for h := 1 to 25
        invariant seconds == daySec + (h - 1) * 3600 <= t
      {
        var secs := 60 * 60;
        if seconds + secs > t {
          var remaining := t - seconds;
          hour := h - 1;
          min := remaining / 60;
          sec := remaining % 60;
          wday := (t / 86400 + 4) % 7;
          yday := (t - yearSec) / 86400;
          isdst := 0;
          return;
        }
        seconds := seconds + secs;
      }
    }
  }

  lemma YearStep(year: nat)
    requires year >= 1970
    ensures DaysThrough(year) == DaysThrough(year - 1) + YearDays(year)
    ensures DaysThrough(1969) == 0
  {
  }

  lemma YearDaysAre(year: nat)
    ensures YearDays(year) == if YearIsLeap(year) then 366 else 365
  {
  }

  lemma DateDone(d: DateTime, t: nat, daySec: nat)
    requires d.month >= 1
    requires daySec == 86400 * DaysThrough(d.year - 1) + 86400 * DaysOfMonths(d.month - 1, d.year) + 86400 * (d.day - 1)
    requires daySec + d.hour * 3600 + d.min * 60 + d.sec == t
    ensures Encoded(d) == t
    ensures DayNumber(d) == DaysThrough(d.year - 1) + DaysOfMonths(d.month - 1, d.year) + (d.day - 1)
  {
    hide DaysThrough, DaysOfMonths;
  }

  /** The divisions by the length of a day, in terms of the date. */
  lemma DaySplit(t: nat, y: nat, month: nat, day: nat, yearSec: nat, daySec: nat)
    requires y >= 1970 && month >= 1 && day >= 1 && yearSec == 86400 * DaysThrough(y - 1)
    requires daySec == yearSec + 86400 * DaysOfMonths(month - 1, y) + 86400 * (day - 1)
    requires daySec <= t < daySec + 86400
    ensures var days := DaysThrough(y - 1) + DaysOfMonths(month - 1, y) + (day - 1);
            t / 86400 == days && (t - yearSec) / 86400 == days - DaysThrough(y - 1)
  {
  }

  // ----- dates of FAT directory entries -----

  function YearField(date: bv16): bv16 { (date & 0xFE00) >> 9 }
  function MonthField(date: bv16): bv16 { (date & 0x01E0) >> 5 }
  function DayField(date: bv16): bv16 { date & 0x001F }
  function HourField(time: bv16): bv16 { (time & 0xF800) >> 11 }
  function MinuteField(time: bv16): bv16 { (time & 0x07E0) >> 5 }
  function HalfSecondField(time: bv16): bv16 { time & 0x001F }

  /** The fields are where the FAT32 specification packs them. */
  lemma FieldsRoundTrip(high: bv16, middle: bv16, low: bv16)
    ensures high < 128 && middle < 16 && low < 32 ==>
            var date := (high << 9) | (middle << 5) | low;
            YearField(date) == high && MonthField(date) == middle && DayField(date) == low
    ensures high < 32 && middle < 64 && low < 32 ==>
            var time := (high << 11) | (middle << 5) | low;
            HourField(time) == high && MinuteField(time) == middle && HalfSecondField(time) == low
  {
  }

  function Unpacked(date: bv16, time: bv16): DateTime {
    DateTime(YearField(date) as int + 1980, MonthField(date) as int, DayField(date) as int,
             HourField(time) as int, MinuteField(time) as int, HalfSecondField(time) as int * 2)
  }

  /** What the packed numbers stand for. */
  lemma UnpackedIs(high: bv16, middle: bv16, low: bv16, hour: bv16, min: bv16, half: bv16)
    requires high < 128 && middle < 16 && low < 32 && hour < 32 && min < 64 && half < 32
    ensures Unpacked((high << 9) | (middle << 5) | low, (hour << 11) | (min << 5) | half)
            == DateTime(1980 + high as int, middle as int, low as int, hour as int, min as int, 2 * half as int)
  {
    hide YearField, MonthField, DayField, HourField, MinuteField, HalfSecondField;
    FieldsRoundTrip(high, middle, low);
    FieldsRoundTrip(hour, min, half);
  }

  /** The fields are those of the packed date and time. */
  ghost predicate Stores(tm: Tm, date: bv16, time: bv16)
    reads tm
  {
    && tm.year + 1900 == 1980 + YearField(date) as int && tm.mon + 1 == MonthField(date) as int
    && tm.mday == DayField(date) as int && tm.hour == HourField(time) as int
    && tm.min == MinuteField(time) as int && tm.sec == 2 * HalfSecondField(time) as int
  }

  lemma StoresIs(tm: Tm, date: bv16, time: bv16)
    requires tm.Date() == Unpacked(date, time)
    ensures Stores(tm, date, time)
  {
    hide YearField, MonthField, DayField, HourField, MinuteField, HalfSecondField;
  }

  lemma BeforeEnd(d: DateTime)
    requires d.month >= 1 && d.year >= 1970 && d.day >= 0 && d.hour >= 0 && d.min >= 0 && d.sec >= 0
    ensures d.year > 1970 ==> Encoded(d) >= 0
    ensures IsDate(d) ==> (Encoded(d) < END <==> d.year <= 2099)
  {
    EndOf2099();
    if d.year > 1970 {
      DaysThroughGrows(1969, d.year - 1);
    }
    if IsDate(d) {
      DateInYear(d);
      hide DayNumber, DaysThrough, DaysOfMonths;
      if d.year < 2099 {
        DaysThroughGrows(d.year, 2099);
      } else if d.year - 1 > 2099 {
        DaysThroughGrows(2099, d.year - 1);
      }
    }
  }

  /** `fat32_get_datetime`.  Not `ends` is the loop over the months of a date with month 0, which
      does not end.  Otherwise the fields come back as they were packed exactly when they form a
      date up to 2099; from 2100 on nothing is stored. */
  method GetDateTime(date: bv16, time: bv16, tm: Tm) returns (ends: bool)
    modifies tm
    ensures ends <==> MonthField(date) != 0
    ensures var d := Unpacked(date, time); ends && IsDate(d) && d.year <= 2099 ==> Stores(tm, date, time)
    ensures !ends ==> unchanged(tm)
    ensures ends ==>
              var d := Unpacked(date, time);
              && d.month >= 1
              && (Encoded(d) < END && tm.Date() == d <==> IsDate(d) && d.year <= 2099)
              && (Encoded(d) < END ==> IsDate(tm.Date()) && Encoded(tm.Date()) == Encoded(d))
              && (Encoded(d) >= END ==> unchanged(tm))
  {
    hide Encoded, YearField, MonthField, DayField, HourField, MinuteField, HalfSecondField, Tm.Gregorian;
    hide IsDate, DayNumber, Stores, Tm.Decoded;
    var d := Unpacked(date, time);
    var t := Encode(d);
    if t.None? {
      return false;
    }
    BeforeEnd(d);
    tm.LocalTime(t.value);
    if t.value < END {
      tm.DecodedDate(t.value);
    }
    if IsDate(d) && t.value < END {
      EncodedInjective(d, tm.Date());
      StoresIs(tm, date, time);
    }
    ends := true;
  }
}
