/**
 Calendar time: the closed-form split of a time into a date, and the loops that count the days back
 (lib/libc_time.c:38-74, 84-102). `time_t` is an unsigned 32-bit count of seconds
 (sysroot/include/sys/types.h:18).
 */
module Calendar {
  import opened Bits
  import opened Maybe

  // ----- C division, which truncates toward zero

  function Quot(a: int, b: int): int
    requires b > 0
  {
    if a >= 0 then a / b else -((-a) / b)
  }

  function Rem(a: int, b: int): int
    requires b > 0
  {
    if a >= 0 then a % b else -((-a) % b)
  }

  // ----- the Gregorian calendar

  predicate IsLeap(year: int) {
    year % 4 == 0 && (year % 100 != 0 || year % 400 == 0)
  }

  function YearLength(year: int): int { if IsLeap(year) then 366 else 365 }

  const MONTH_LENGTHS := [31, 28, 31, 30, 31, 30, 31, 31, 30, 31, 30, 31]

  /** Months count from 0. */
  function MonthLength(year: int, month: int): int
    requires 0 <= month < 12
  {
    MONTH_LENGTHS[month] + (if month == 1 && IsLeap(year) then 1 else 0)
  }

  datatype Date = Date(year: int, month: int, day: int)

  predicate IsDate(d: Date) {
    0 <= d.month < 12 && 1 <= d.day <= MonthLength(d.year, d.month)
  }

  /** The day after. */
  function Tomorrow(d: Date): (r: Date)
    requires IsDate(d)
    ensures IsDate(r)
  {
    if d.day < MonthLength(d.year, d.month) then d.(day := d.day + 1)
    else if d.month < 11 then Date(d.year, d.month + 1, 1)
    else Date(d.year + 1, 0, 1)
  }

  /** Days from 1 January 1970 to 1 January of the year. */
  function YearStart(year: int): int
    decreases if year >= 1970 then year - 1970 else 1970 - year
  {
    if year == 1970 then 0
    else if year > 1970 then YearStart(year - 1) + YearLength(year - 1)
    else YearStart(year + 1) - YearLength(year)
  }

  function MonthStart(year: int, month: int): int
    requires month <= 12
  {
    if month <= 0 then 0 else MonthStart(year, month - 1) + MonthLength(year, month - 1)
  }

  /** Days since 1 January 1970; a month of 12 is the next January, one below 0 counts as January. */
  function DayNumber(d: Date): int
    requires d.month <= 12
  {
    YearStart(d.year) + MonthStart(d.year, d.month) + d.day - 1
  }

  lemma NextMonth(year: int, month: int)
    requires 0 <= month < 12
    ensures MonthStart(year, month + 1) == MonthStart(year, month) + MonthLength(year, month)
  {
  }

  lemma MonthBegins(year: int)
    ensures (forall month :: month <= 0 ==> MonthStart(year, month) == 0) && YearStart(1970) == 0
  {
  }

  lemma NextYear(year: int)
    ensures YearStart(year + 1) == YearStart(year) + YearLength(year)
  {
  }

  function Fourths(year: int): int { (year - 1969) / 4 }

  function Centuries(year: int): int { (year - 1901) / 100 }

  function Eras(year: int): int { (year - 1601) / 400 }

  /** Leap years from 1970 up to the year, or minus those from it up to 1970. */
  function LeapsBefore(year: int): int {
    Fourths(year) - Centuries(year) + Eras(year)
  }

  lemma CountFourth(year: int)
    ensures Fourths(year + 1) == Fourths(year) + (if year % 4 == 0 then 1 else 0)
  {
  }

  lemma CountCentury(year: int)
    ensures Centuries(year + 1) == Centuries(year) + (if year % 100 == 0 then 1 else 0)
    ensures year % 100 == 0 ==> year % 4 == 0
  {
  }

  lemma CountEra(year: int)
    ensures Eras(year + 1) == Eras(year) + (if year % 400 == 0 then 1 else 0)
    ensures year % 400 == 0 ==> year % 100 == 0
  {
  }

  lemma LeapCounted(year: int)
    ensures LeapsBefore(year + 1) == LeapsBefore(year) + (if IsLeap(year) then 1 else 0)
  {
    hide Fourths, Centuries, Eras;
    CountFourth(year);
    CountCentury(year);
    CountEra(year);
  }

  lemma NoLeaps()
    ensures LeapsBefore(1970) == 0
  {
  }

  lemma {:induction false} YearClosed(year: int)
    ensures YearStart(year) == 365 * (year - 1970) + LeapsBefore(year)
    decreases if year >= 1970 then year - 1970 else 1970 - year
  {
    hide LeapsBefore, IsLeap;
    if year > 1970 {
      YearClosed(year - 1);
      LeapCounted(year - 1);
    } else if year < 1970 {
      YearClosed(year + 1);
      LeapCounted(year);
    } else {
      NoLeaps();
    }
  }

  lemma MonthStarts(year: int)
    ensures var leap := if IsLeap(year) then 1 else 0;
            && MonthStart(year, 0) == 0 && MonthStart(year, 1) == 31 && MonthStart(year, 2) == 59 + leap
            && MonthStart(year, 3) == 90 + leap && MonthStart(year, 4) == 120 + leap
            && MonthStart(year, 5) == 151 + leap && MonthStart(year, 6) == 181 + leap
            && MonthStart(year, 7) == 212 + leap && MonthStart(year, 8) == 243 + leap
            && MonthStart(year, 9) == 273 + leap && MonthStart(year, 10) == 304 + leap
            && MonthStart(year, 11) == 334 + leap && MonthStart(year, 12) == YearLength(year)
  {
    hide IsLeap;
    var leap := if IsLeap(year) then 1 else 0;
    assert MonthStart(year, 0) == 0;
    assert MonthStart(year, 1) == 31;
    assert MonthStart(year, 2) == 59 + leap;
    assert MonthStart(year, 3) == 90 + leap;
    assert MonthStart(year, 4) == 120 + leap;
    assert MonthStart(year, 5) == 151 + leap;
    assert MonthStart(year, 6) == 181 + leap;
    assert MonthStart(year, 7) == 212 + leap;
    assert MonthStart(year, 8) == 243 + leap;
    assert MonthStart(year, 9) == 273 + leap;
    assert MonthStart(year, 10) == 304 + leap;
    assert MonthStart(year, 11) == 334 + leap;
  }

  /** The day number counts days: the next date has the next number. */
  lemma DaysAreCounted(d: Date)
    requires IsDate(d)
    ensures DayNumber(Tomorrow(d)) == DayNumber(d) + 1
    ensures DayNumber(Date(1970, 0, 1)) == 0
  {
    MonthStarts(d.year);
    NextYear(d.year);
  }

  // ----- the closed form

  /** A day of a 400-year era that begins on 1 March: centuries, groups of four years, years, days. */
  predicate Parts(doe: int, c: int, q: int, b: int, doy: int) {
    && 0 <= c <= 3 && 0 <= q <= 24 && 0 <= b <= 3 && 0 <= doy <= 365
    && doe == 36524 * c + 1461 * q + 365 * b + doy
    && (doy == 365 ==> b == 3 && (q == 24 ==> c == 3))
  }

  lemma EraParts(doe: int) returns (c: int, q: int, b: int, doy: int)
    requires 0 <= doe < 146097
    ensures Parts(doe, c, q, b, doy)
  {
    c := if doe / 36524 < 3 then doe / 36524 else 3;
    var r := doe - 36524 * c;
    q := r / 1461;
    var t := r - 1461 * q;
    b := if t / 365 < 3 then t / 365 else 3;
    doy := t - 365 * b;
  }

  lemma Quotient(n: int, d: int, k: int)
    requires d > 0 && k * d <= n < k * d + d
    ensures n / d == k
  {
    DivUnique(n, d, k);
  }

  lemma By1460(doe: int, c: int, q: int, b: int, doy: int)
    requires Parts(doe, c, q, b, doy)
    ensures doe / 1460 == 25 * c + q + (if 365 * b + 24 * c + q + doy >= 1460 then 1 else 0)
  {
    var k := 25 * c + q + (if 365 * b + 24 * c + q + doy >= 1460 then 1 else 0);
    Quotient(doe, 1460, k);
  }

  lemma By36524(doe: int, c: int, q: int, b: int, doy: int)
    requires Parts(doe, c, q, b, doy)
    ensures doe / 36524 == c + (if q == 24 && b == 3 && doy == 365 then 1 else 0)
    ensures doe / 146096 == if q == 24 && b == 3 && doy == 365 then 1 else 0
  {
    Quotient(doe, 36524, c + (if q == 24 && b == 3 && doy == 365 then 1 else 0));
    Quotient(doe, 146096, if q == 24 && b == 3 && doy == 365 then 1 else 0);
  }

  lemma YearOfEra(doe: int, c: int, q: int, b: int, doy: int)
    requires Parts(doe, c, q, b, doy)
    ensures (doe - doe / 1460 + doe / 36524 - doe / 146096) / 365 == 100 * c + 4 * q + b
  {
    By1460(doe, c, q, b, doy);
    By36524(doe, c, q, b, doy);
    Quotient(doe - doe / 1460 + doe / 36524 - doe / 146096, 365, 100 * c + 4 * q + b);
  }

  /** Days from 1 January 1970 to 1 March of the year. */
  function MarchStart(year: int): int { YearStart(year) + MonthStart(year, 2) }

  lemma MarchClosed(era: int, c: int, q: int, b: int)
    requires 0 <= c <= 3 && 0 <= q <= 24 && 0 <= b <= 3
    ensures MarchStart(400 * era + 100 * c + 4 * q + b)
         == 146097 * era + 36524 * c + 1461 * q + 365 * b - 719468
  {
    hide YearStart, MonthStart, IsLeap;
    var year := 400 * era + 100 * c + 4 * q + b;
    MonthStarts(year);
    NextYear(year);
    YearClosed(year + 1);
    Quotient(year - 1968, 4, 100 * era + 25 * c + q - 492);
    Quotient(year - 1900, 100, 4 * era + c - 19);
    Quotient(year - 1600, 400, era - 4);
  }

  /** The months of a year that begins in March. */
  lemma MonthOfMarchYear(doy: int)
    requires 0 <= doy <= 365
    ensures var mp := (5 * doy + 2) / 153;
            && 0 <= mp <= 11 && (153 * mp + 2) / 5 <= doy < (153 * mp + 155) / 5
  {
  }

  lemma LeapInEra(era: int, c: int, q: int, b: int)
    requires 0 <= c <= 3 && 0 <= q <= 24 && b == 3 && (q == 24 ==> c == 3)
    ensures IsLeap(400 * era + 100 * c + 4 * q + b + 1)
  {
    var year := 400 * era + 100 * c + 4 * q + b + 1;
    Quotient(year, 4, 100 * era + 25 * c + q + 1);
    if q < 24 {
      Quotient(year, 100, 4 * era + c);
    } else {
      Quotient(year, 400, era + 1);
    }
  }

  /** Day `doy` of the year that begins in March of `year`, as a date. */
  function FromMarch(year: int, doy: int): Date {
    var mp := (5 * doy + 2) / 153;
    var day := doy - (153 * mp + 2) / 5 + 1;
    if mp < 10 then Date(year, mp + 2, day) else Date(year + 1, mp - 10, day)
  }

  lemma MarchDate(year: int, doy: int)
    requires 0 <= doy <= 365 && (doy == 365 ==> IsLeap(year + 1))
    ensures IsDate(FromMarch(year, doy)) && DayNumber(FromMarch(year, doy)) == MarchStart(year) + doy
  {
    hide YearStart, MonthStart, IsLeap;
    MonthOfMarchYear(doy);
    MonthStarts(year);
    MonthStarts(year + 1);
    NextYear(year);
    var mp := (5 * doy + 2) / 153;
    assert mp == 0 || mp == 1 || mp == 2 || mp == 3 || mp == 4 || mp == 5 || mp == 6 || mp == 7 || mp == 8 || mp == 9
           || mp == 10 || mp == 11;
  }

  // ----- the whole closed form, for every day count

  lemma EraIsFloor(z: int)
    ensures var era := Quot(if z >= 0 then z else z - 146096, 146097);
            0 <= z - era * 146097 < 146097
  {
    var era := Quot(if z >= 0 then z else z - 146096, 146097);
    if z < 0 {
      var n := 146096 - z;
      assert era == -(n / 146097);
      Quotient(z, 146097, era);
    }
  }

  /** The chain of formulas that ends in a date. */
  predicate Split(days: int, era: int, doe: int, yoe: int, doy: int) {
    && era == Quot(if days + 719468 >= 0 then days + 719468 else days + 719468 - 146096, 146097)
    && doe == days + 719468 - era * 146097
    && yoe == (doe - doe / 1460 + doe / 36524 - doe / 146096) / 365
    && doy == doe - (365 * yoe + yoe / 4 - yoe / 100)
  }

  lemma YearAndDay(doe: int, yoe: int, doy: int) returns (c: int, q: int, b: int)
    requires 0 <= doe < 146097
    requires yoe == (doe - doe / 1460 + doe / 36524 - doe / 146096) / 365
    requires doy == doe - (365 * yoe + yoe / 4 - yoe / 100)
    ensures yoe == 100 * c + 4 * q + b && Parts(doe, c, q, b, doy)
  {
    var rest;
    c, q, b, rest := EraParts(doe);
    YearOfEra(doe, c, q, b, rest);
    Quotient(yoe, 4, 25 * c + q);
    Quotient(yoe, 100, c);
  }

  lemma DateOfEra(days: int, era: int, doe: int, doy: int, c: int, q: int, b: int)
    requires Parts(doe, c, q, b, doy) && doe == days + 719468 - era * 146097
    ensures 0 <= 100 * c + 4 * q + b < 400 && 0 <= doy <= 365
    ensures var year := 100 * c + 4 * q + b + era * 400;
            && IsDate(FromMarch(year, doy)) && DayNumber(FromMarch(year, doy)) == days && doy == days - MarchStart(year)
  {
    hide YearStart, MonthStart, IsLeap, IsDate, DayNumber, FromMarch, MarchStart;
    MarchClosed(era, c, q, b);
    if doy == 365 {
      LeapInEra(era, c, q, b);
    }
    MarchDate(100 * c + 4 * q + b + era * 400, doy);
  }

  /** For every day count, the formulas give a valid date whose day number is that count. */
  lemma ClosedFormCounts(days: int, era: int, doe: int, yoe: int, doy: int)
    requires Split(days, era, doe, yoe, doy)
    ensures 0 <= doe < 146097 && 0 <= yoe < 400 && 0 <= doy <= 365
    ensures var d := FromMarch(yoe + era * 400, doy);
            IsDate(d) && DayNumber(d) == days && doy == days - MarchStart(yoe + era * 400)
  {
    hide YearStart, MonthStart, IsLeap, IsDate, DayNumber, FromMarch, MarchStart, Parts;
    EraIsFloor(days + 719468);
    var c, q, b := YearAndDay(doe, yoe, doy);
    DateOfEra(days, era, doe, doy, c, q, b);
  }

  // ----- dates and day numbers

  predicate Before(a: Date, b: Date) {
    a.year < b.year || (a.year == b.year && (a.month < b.month || (a.month == b.month && a.day < b.day)))
  }

  lemma {:induction false} YearsGrow(a: int, b: int)
    requires a <= b
    ensures YearStart(a) + 365 * (b - a) <= YearStart(b)
    decreases b - a
  {
    if a < b {
      YearsGrow(a, b - 1);
      NextYear(b - 1);
    }
  }

  lemma {:induction false} MonthsGrow(year: int, a: int, b: int)
    requires 0 <= a <= b <= 12
    ensures MonthStart(year, a) + 28 * (b - a) <= MonthStart(year, b)
    decreases b - a
  {
    if a < b {
      MonthsGrow(year, a, b - 1);
    }
  }

  /** Later dates have larger numbers, so each day number belongs to one date. */
  lemma DatesAreOrdered(a: Date, b: Date)
    requires IsDate(a) && IsDate(b)
    ensures Before(a, b) <==> DayNumber(a) < DayNumber(b)
    ensures DayNumber(a) == DayNumber(b) ==> a == b
  {
    if Before(a, b) {
      LaterIsLarger(a, b);
    } else if Before(b, a) {
      LaterIsLarger(b, a);
    } else {
      assert a == b;
    }
  }

  lemma LaterIsLarger(a: Date, b: Date)
    requires IsDate(a) && IsDate(b) && Before(a, b)
    ensures DayNumber(a) < DayNumber(b)
  {
    if a.year < b.year {
      YearsGrow(a.year + 1, b.year);
      NextYear(a.year);
      MonthsGrow(a.year, a.month + 1, 12);
      MonthsGrow(b.year, 0, b.month);
      MonthStarts(a.year);
    } else if a.month < b.month {
      MonthsGrow(a.year, a.month + 1, b.month);
    }
  }

  /** 0 is Sunday. */
  function Weekday(days: int): int { (days + 4) % 7 }

  lemma WeekdayRotates(days: int)
    ensures Weekday(0) == 4 && Weekday(days + 1) == (Weekday(days) + 1) % 7
  {
  }

  // ----- broken-down time

  predicate OnClock(hour: int, min: int, sec: int) {
    0 <= hour < 24 && 0 <= min < 60 && 0 <= sec < 60
  }

  function Seconds(d: Date, hour: int, min: int, sec: int): int
    requires d.month <= 12
  {
    DayNumber(d) * 86400 + hour * 3600 + min * 60 + sec
  }

  lemma DaysOf(d: Date, hour: int, min: int, sec: int, t: int)
    requires d.month <= 12 && OnClock(hour, min, sec) && Seconds(d, hour, min, sec) == t
    ensures DayNumber(d) == t / 86400
  {
    hide DayNumber;
  }

  /** A month outside the year is carried into the neighbouring years exactly when it is not below 0. */
  lemma MonthsOutside(year: int, month: int, day: int)
    requires month <= 12
    ensures DayNumber(Date(year, month, day)) == DayNumber(Date(year + month / 12, month % 12, day)) <==> 0 <= month
  {
    hide MonthStart, YearStart, IsLeap;
    MonthBegins(year);
    if month == 12 {
      NextYear(year);
      MonthStarts(year);
      MonthBegins(year + 1);
    } else if month < 0 {
      var y, m := year + month / 12, month % 12;
      MonthsGrow(y, m, 12);
      MonthStarts(y);
      NextYear(y);
      YearsGrow(y + 1, year);
    }
  }

  /** A count of seconds is the reading of one date and time of day. */
  lemma OneReading(d: Date, hour: int, min: int, sec: int, d': Date, hour': int, min': int, sec': int)
    requires IsDate(d) && OnClock(hour, min, sec) && IsDate(d') && OnClock(hour', min', sec')
    requires Seconds(d, hour, min, sec) == Seconds(d', hour', min', sec')
    ensures d == d' && hour == hour' && min == min' && sec == sec'
  {
    var day, day' := DayNumber(d), DayNumber(d');
    hide DayNumber, IsDate;
    assert day == day';
    DatesAreOrdered(d, d');
  }

  class Tm {
    var sec: int
    var min: int
    var hour: int
    var mday: int
    var mon: int
    var year: int
    var wday: int
    var yday: int
    var isdst: int

    constructor ()
    {
      sec, min, hour, mday, mon, year, wday, yday, isdst := 0, 0, 0, 0, 0, 0, 0, 0, 0;
    }

    /** Years count from 1900, months from 0. */
    function Day(): Date
      reads this
    {
      Date(year + 1900, mon, mday)
    }

    ghost function Time(): int
      requires mon <= 12
      reads this
    {
      Seconds(Day(), hour, min, sec)
    }

    /** What localtime_r fills in for a time. */
    ghost predicate Reads(t: int)
      reads this
    {
      && IsDate(Day()) && OnClock(hour, min, sec) && Time() == t
      && wday == Weekday(DayNumber(Day())) && isdst == 0
    }
  }

  const EINVAL := 22

  /** The closed form on a day count: the date, and the day of the year that begins on 1 March. */
  method CivilFromDays(days: int) returns (year: int, month: int, day: int, doy: int)
    ensures IsDate(Date(year, month - 1, day)) && DayNumber(Date(year, month - 1, day)) == days
    ensures doy == days - MarchStart(if month <= 2 then year - 1 else year)
  {
    hide *;
    var z := days + 719468;
    var era := Quot(if z >= 0 then z else z - 146096, 146097);
    var doe := z - era * 146097;
    var yoe := (doe - doe / 1460 + doe / 36524 - doe / 146096) / 365;
    year := yoe + era * 400;
    doy := doe - (365 * yoe + yoe / 4 - yoe / 100);
    IsSplit(days, era, doe, yoe, doy);
    ClosedFormCounts(days, era, doe, yoe, doy);
    var mp := (5 * doy + 2) / 153;
    MonthOfMarchYear(doy);
    day := doy - (153 * mp + 2) / 5 + 1;
    MonthNumber(year, doy, mp, day);
    month := Wrap32(mp + (if mp < 10 then 3 else 0xFFFF_FFF7));
    year := year + (if month <= 2 then 1 else 0);
  }

  lemma IsSplit(days: int, era: int, doe: int, yoe: int, doy: int)
    requires era == Quot(if days + 719468 >= 0 then days + 719468 else days + 719468 - 146096, 146097)
    requires doe == days + 719468 - era * 146097
    requires yoe == (doe - doe / 1460 + doe / 36524 - doe / 146096) / 365
    requires doy == doe - (365 * yoe + yoe / 4 - yoe / 100)
    ensures Split(days, era, doe, yoe, doy)
  {
  }

  lemma MonthNumber(year: int, doy: int, mp: int, day: int)
    requires 0 <= mp <= 11 && mp == (5 * doy + 2) / 153 && day == doy - (153 * mp + 2) / 5 + 1
    ensures var month := Wrap32(mp + (if mp < 10 then 3 else 0xFFFF_FFF7));
            && month == (if mp < 10 then mp + 3 else mp - 9)
            && FromMarch(year, doy) == Date(if month <= 2 then year + 1 else year, month - 1, day)
  {
  }

  /** The division of a time into days and the rest of the day, as the C code does it. */
  lemma DayAndRest(t: int)
    ensures var q, r := Quot(t, 86400), Rem(t, 86400);
            var days, rest := if r < 0 then q - 1 else q, if r < 0 then r + 86400 else r;
            rest == t - days * 86400 && 0 <= rest < 86400
  {
  }

  lemma WeekdayFixed(days: int)
    ensures var w := Rem(days + 4, 7); (if w < 0 then w + 7 else w) == Weekday(days)
  {
  }

  lemma ClockParts(t: int, days: int, rem: int)
    requires rem == t - days * 86400 && 0 <= rem < 86400
    ensures var hour, min, sec := Quot(rem, 3600), Quot(Rem(rem, 3600), 60), Rem(rem, 60);
            OnClock(hour, min, sec) && days * 86400 + hour * 3600 + min * 60 + sec == t
  {
  }

  /** The day of the year is counted from 1 March. */
  method LocaltimeR(timep: Option<u32>, result: Tm?) returns (r: Tm?, errno: int)
    modifies result
    ensures timep.None? || result == null ==> r == null && errno == EINVAL
    ensures timep.None? && result != null ==> unchanged(result)
    ensures timep.Some? && result != null ==>
              && r == result && errno == 0 && result.Reads(timep.value)
              && result.yday == DayNumber(result.Day()) - MarchStart(result.year + (if result.mon < 2 then 1899 else 1900))
  {
    hide DayNumber, IsDate, OnClock, Quot, Rem, Weekday, MarchStart, YearStart, MonthStart, MonthLength, IsLeap;
    if timep.None? || result == null {
      return null, EINVAL;
    }
    var seconds: int := timep.value;
    DayAndRest(seconds);
    var days := Quot(seconds, 86400);
    var rem := Rem(seconds, 86400);
    if rem < 0 {
      rem := rem + 86400;
      days := days - 1;
    }
    ClockParts(seconds, days, rem);
    result.hour := Quot(rem, 3600);
    result.min := Quot(Rem(rem, 3600), 60);
    result.sec := Rem(rem, 60);
    var year, month, day, doy := CivilFromDays(days);
    result.mday := day;
    result.mon := month - 1;
    result.year := year - 1900;
    result.yday := doy;
    WeekdayFixed(days);
    var wday := Rem(days + 4, 7);
    result.wday := if wday < 0 then wday + 7 else wday;
    result.isdst := 0;
    return result, 0;
  }

  /** The day loops count years forward from 1970 or back from 1969, then months. */
  method Mktime(tm: Tm?) returns (t: u32, errno: int)
    requires tm != null ==> tm.mon <= 12
    modifies if tm == null then {} else {tm}
    ensures tm == null ==> t == 0xFFFF_FFFF && errno == EINVAL
    ensures tm != null ==> unchanged(tm`sec, tm`min, tm`hour, tm`mday, tm`mon, tm`year, tm`yday, tm`isdst)
    ensures tm != null ==> errno == 0 && t == Wrap32(tm.Time()) && tm.wday == Weekday(DayNumber(tm.Day()))
  {
    hide IsLeap, MonthStart, YearStart, Rem, Weekday, Wrap32, MarchStart;
    if tm == null {
      return 0xFFFF_FFFF, EINVAL;
    }
    var days := 0;
    var year := tm.year + 1900;
    MonthBegins(year);
    var y := 1970;
    while y < year
      modifies {}
      invariant (1970 <= y <= year || (y == 1970 && year < 1970)) && days == YearStart(y)
    {
      NextYear(y);
      days := days + (if IsLeap(y) then 366 else 365);
      y := y + 1;
    }
    y := 1969;
    while y >= year
      modifies {}
      invariant if year < 1970 then year - 1 <= y <= 1969 && days == YearStart(y + 1)
                else y == 1969 && days == YearStart(year)
    {
      NextYear(y);
      days := days - (if IsLeap(y) then 366 else 365);
      y := y - 1;
    }
    var month := 0;
    while month < tm.mon
      modifies {}
      invariant 0 <= month && (month <= tm.mon || month == 0) && days == YearStart(year) + MonthStart(year, month)
    {
      NextMonth(year, month);
      days := days + MONTH_LENGTHS[month] + (if month == 1 && IsLeap(year) then 1 else 0);
      month := month + 1;
    }
    days := days + tm.mday - 1;
    WeekdayFixed(days);
    tm.wday := Rem(days + 4, 7);
    if tm.wday < 0 {
      tm.wday := tm.wday + 7;
    }
    return Wrap32(days * 86400 + tm.hour * 3600 + tm.min * 60 + tm.sec), 0;
  }

  lemma WrapSame(n: int)
    ensures 0 <= n < 0x1_0000_0000 ==> Wrap32(n) == n
  {
  }

  /** mktime undoes localtime_r on every time, and finds the same weekday. */
  method ThereAndBack(t: u32) returns (r: u32, first: int, second: int)
    ensures r == t && first == second == Weekday(t / 86400)
  {
    hide DayNumber, OnClock, YearStart, MonthStart, MonthLength, IsLeap, MarchStart;
    var tm := new Tm();
    var p, e := LocaltimeR(Some(t), tm);
    first := tm.wday;
    DaysOf(tm.Day(), tm.hour, tm.min, tm.sec, t);
    r, e := Mktime(tm);
    second := tm.wday;
  }

  /** localtime_r undoes mktime on every valid date and time of the 32-bit range. */
  method BackAndForth(tm: Tm)
    requires IsDate(tm.Day()) && OnClock(tm.hour, tm.min, tm.sec) && 0 <= tm.Time() < 0x1_0000_0000
    modifies tm
    ensures tm.Day() == old(tm.Day()) && tm.hour == old(tm.hour) && tm.min == old(tm.min) && tm.sec == old(tm.sec)
  {
    hide DayNumber, OnClock, Weekday, MarchStart, YearStart, MonthStart, MonthLength, IsLeap, Wrap32, Seconds;
    var t, e := Mktime(tm);
    WrapSame(tm.Time());
    ghost var d, hour, min, sec := tm.Day(), tm.hour, tm.min, tm.sec;
    var p, e' := LocaltimeR(Some(t), tm);
    OneReading(d, hour, min, sec, tm.Day(), tm.hour, tm.min, tm.sec);
  }

  /** The day of the year that localtime_r stores is never the one counted from 1 January. */
  lemma YdayNeverFromJanuary(d: Date)
    requires IsDate(d)
    ensures DayNumber(d) - MarchStart(d.year - (if d.month < 2 then 1 else 0)) != DayNumber(d) - YearStart(d.year)
  {
    MonthStarts(d.year);
    MonthStarts(d.year - 1);
    NextYear(d.year - 1);
  }
}
