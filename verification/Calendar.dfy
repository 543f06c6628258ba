/**
 * The French holiday calendar of weatherretriever.cpp: Easter by the
 * anonymous Gregorian computus (`calculateEaster`), the eleven public
 * holidays of a year (`getHolidaysForYear`), and the exclusion of Sundays
 * and holidays (`isHoliday`, `isExcludedDate`).
 *
 * Dates follow Qt's `QDate`: the proleptic Gregorian calendar with no year
 * 0 (year -1 is followed by year 1), and a single null date standing for
 * every invalid one. `QDate(y, m, d)` with an invalid triple is the null
 * date; the null date has year 0 and day of week 0, `addDays` keeps it null,
 * and all null dates compare equal.
 */
module Calendar {
  import opened CppArith

  datatype Date = NullDate | Ymd(year: int, month: int, day: int)

  /** `QDate::isLeapYear`: Gregorian, with years before 1 shifted by one (1 BC is leap). */
  predicate IsLeapYear(y: int) {
    var a := if y < 1 then y + 1 else y;
    a % 4 == 0 && (a % 100 != 0 || a % 400 == 0)
  }

  function DaysInMonth(y: int, m: int): (n: int)
    requires 1 <= m <= 12
    ensures 28 <= n <= 31
  {
    if m == 2 then (if IsLeapYear(y) then 29 else 28)
    else if m == 4 || m == 6 || m == 9 || m == 11 then 30
    else 31
  }

  predicate ValidYmd(y: int, m: int, d: int) {
    y != 0 && 1 <= m <= 12 && 1 <= d <= DaysInMonth(y, m)
  }

  /** The values a `QDate` can take: the null date or a valid day. */
  type QDate = d: Date | d.NullDate? || ValidYmd(d.year, d.month, d.day) witness NullDate

  /** `QDate(y, m, d)`: that day if it exists, the null date otherwise. */
  function MakeDate(y: int, m: int, d: int): (r: QDate)
    ensures r.Ymd? <==> ValidYmd(y, m, d)
    ensures r.Ymd? ==> r.year == y && r.month == m && r.day == d
  {
    if ValidYmd(y, m, d) then Ymd(y, m, d) else NullDate
  }

  /** `QDate::year`: 0 for the null date. */
  function YearOf(d: QDate): int {
    if d.Ymd? then d.year else 0
  }

  function YearLength(y: int): int {
    if IsLeapYear(y) then 366 else 365
  }

  /** Days of the year `y` before the first of month `m`. */
  function DaysBeforeMonth(y: int, m: int): int
    requires 1 <= m <= 12
  {
    if m == 1 then 0 else DaysBeforeMonth(y, m - 1) + DaysInMonth(y, m - 1)
  }

  /** Zero-based position of a day within its year. */
  function DayOfYear(d: QDate): int
    requires d.Ymd?
  {
    DaysBeforeMonth(d.year, d.month) + d.day - 1
  }

  /** The year numbering without a gap: 1 BC is 0, 2 BC is -1. */
  function Astronomical(y: int): int {
    if y < 1 then y + 1 else y
  }

  /** Leap years among the astronomical years [0, a), negated for a < 0. */
  function LeapsBefore(a: int): int {
    (a + 3) / 4 - (a + 99) / 100 + (a + 399) / 400
  }

  /** Days from 1 January 1970 to 1 January of astronomical year `a`. */
  function DaysBeforeYear(a: int): int {
    365 * (a - 1970) + LeapsBefore(a) - LeapsBefore(1970)
  }

  /** Days since 1 January 1970 (Qt counts Julian days; the two differ by a constant). */
  function DayNumber(d: QDate): int
    requires d.Ymd?
  {
    DaysBeforeYear(Astronomical(d.year)) + DayOfYear(d)
  }

  /** `QDate::dayOfWeek`: 1 for Monday to 7 for Sunday, 0 for the null date. */
  function DayOfWeek(d: QDate): (w: int)
    ensures 0 <= w <= 7
    ensures w == 0 <==> d.NullDate?
  {
    if d.NullDate? then 0 else (DayNumber(d) + 3) % 7 + 1
  }

  /** The day after a valid day. */
  function NextDay(d: QDate): (r: QDate)
    requires d.Ymd?
    ensures r.Ymd?
  {
    if d.day < DaysInMonth(d.year, d.month) then Ymd(d.year, d.month, d.day + 1)
    else if d.month < 12 then Ymd(d.year, d.month + 1, 1)
    else Ymd(if d.year == -1 then 1 else d.year + 1, 1, 1)
  }

  lemma CeilStep4(a: int)
    ensures (a + 4) / 4 - (a + 3) / 4 == if a % 4 == 0 then 1 else 0
  {
  }

  lemma CeilStep100(a: int)
    ensures (a + 100) / 100 - (a + 99) / 100 == if a % 100 == 0 then 1 else 0
  {
  }

  lemma CeilStep400(a: int)
    ensures (a + 400) / 400 - (a + 399) / 400 == if a % 400 == 0 then 1 else 0
  {
  }

  lemma Divisors(a: int)
    ensures a % 400 == 0 ==> a % 100 == 0
    ensures a % 100 == 0 ==> a % 4 == 0
  {
    if a % 400 == 0 {
      var q := a / 400;
      QuotientOf(a, 100, 4 * q, 0);
    }
    if a % 100 == 0 {
      var q := a / 100;
      QuotientOf(a, 4, 25 * q, 0);
    }
  }

  /** One more astronomical year adds one to the leap count exactly when that year is leap. */
  lemma LeapsStep(a: int)
    ensures LeapsBefore(a + 1) - LeapsBefore(a)
         == if a % 4 == 0 && (a % 100 != 0 || a % 400 == 0) then 1 else 0
  {
    CeilStep4(a);
    CeilStep100(a);
    CeilStep400(a);
    Divisors(a);
  }

  lemma {:induction false} DaysBeforeDecember(y: int)
    ensures DaysBeforeMonth(y, 12) + 31 == YearLength(y)
  {
    var feb := DaysInMonth(y, 2);
    assert DaysBeforeMonth(y, 2) == 31;
    assert DaysBeforeMonth(y, 3) == 31 + feb;
    assert DaysBeforeMonth(y, 4) == 62 + feb;
    assert DaysBeforeMonth(y, 5) == 92 + feb;
    assert DaysBeforeMonth(y, 6) == 123 + feb;
    assert DaysBeforeMonth(y, 7) == 153 + feb;
    assert DaysBeforeMonth(y, 8) == 184 + feb;
    assert DaysBeforeMonth(y, 9) == 215 + feb;
    assert DaysBeforeMonth(y, 10) == 245 + feb;
    assert DaysBeforeMonth(y, 11) == 276 + feb;
    assert DaysBeforeMonth(y, 12) == 306 + feb;
  }

  /** The day after is one day later. */
  lemma NextDayNumber(d: QDate)
    requires d.Ymd?
    ensures DayNumber(NextDay(d)) == DayNumber(d) + 1
  {
    if d.day == DaysInMonth(d.year, d.month) && d.month == 12 {
      DaysBeforeDecember(d.year);
      LeapsStep(Astronomical(d.year));
      assert Astronomical(NextDay(d).year) == Astronomical(d.year) + 1;
    }
  }

  lemma WeekStep(n: int)
    ensures (n + 1 + 3) % 7 + 1 == ((n + 3) % 7 + 1) % 7 + 1
  {
    var w := (n + 3) % 7;
    assert n + 3 == 7 * ((n + 3) / 7) + w;
    if w == 6 {
      assert n + 4 == 7 * ((n + 3) / 7 + 1);
    } else {
      assert n + 4 == 7 * ((n + 3) / 7) + (w + 1);
    }
  }

  /** The day of the week advances by one, Sunday (7) wrapping to Monday (1). */
  lemma NextDayOfWeek(d: QDate)
    requires d.Ymd?
    ensures DayOfWeek(NextDay(d)) == DayOfWeek(d) % 7 + 1
  {
    NextDayNumber(d);
    WeekStep(DayNumber(d));
  }

  /** 1 January 1970 was a Thursday. */
  lemma EpochIsThursday()
    ensures DayOfWeek(Ymd(1970, 1, 1)) == 4
  {
  }

  /** `QDate::addDays` for a non-negative count: null stays null, otherwise `n` days later. */
  function AddDays(d: QDate, n: nat): (r: QDate)
    ensures r.Ymd? <==> d.Ymd?
    ensures d.Ymd? ==> DayNumber(r) == DayNumber(d) + n
    decreases n
  {
    if d.NullDate? || n == 0 then d
    else
      NextDayNumber(d);
      AddDays(NextDay(d), n - 1)
  }

  /** A day of the year after a valid day moves its position by one and keeps the year. */
  lemma NextDayInYear(d: QDate)
    requires d.Ymd? && DayOfYear(d) + 1 < YearLength(d.year)
    ensures NextDay(d).year == d.year && DayOfYear(NextDay(d)) == DayOfYear(d) + 1
  {
    if d.day == DaysInMonth(d.year, d.month) && d.month == 12 {
      DaysBeforeDecember(d.year);
    }
  }

  lemma {:induction false} AddDaysInYear(d: QDate, n: nat)
    requires d.Ymd? && DayOfYear(d) + n < YearLength(d.year)
    ensures AddDays(d, n).Ymd? && AddDays(d, n).year == d.year
    ensures DayOfYear(AddDays(d, n)) == DayOfYear(d) + n
    decreases n
  {
    if n > 0 {
      NextDayInYear(d);
      AddDaysInYear(NextDay(d), n - 1);
    }
  }

  lemma {:induction false} MonthsOrdered(y: int, m1: int, m2: int)
    requires 1 <= m1 < m2 <= 12
    ensures DaysBeforeMonth(y, m1) + DaysInMonth(y, m1) <= DaysBeforeMonth(y, m2)
    decreases m2
  {
    if m1 < m2 - 1 {
      MonthsOrdered(y, m1, m2 - 1);
    }
  }

  /** Within a year, the position of a day follows the calendar order of (month, day). */
  lemma DayOfYearOrder(d1: QDate, d2: QDate)
    requires d1.Ymd? && d2.Ymd? && d1.year == d2.year
    ensures DayOfYear(d1) <= DayOfYear(d2)
        <==> d1.month < d2.month || (d1.month == d2.month && d1.day <= d2.day)
  {
    if d1.month < d2.month {
      MonthsOrdered(d1.year, d1.month, d2.month);
    } else if d2.month < d1.month {
      MonthsOrdered(d1.year, d2.month, d1.month);
    }
  }

  /** (month, day) lies between (m1, d1) and (m2, d2) inclusive, in calendar order. */
  predicate Within(d: QDate, m1: int, d1: int, m2: int, d2: int)
    requires d.Ymd?
  {
    && (m1 < d.month || (m1 == d.month && d1 <= d.day))
    && (d.month < m2 || (d.month == m2 && d.day <= d2))
  }

  /**
   * `calculateEaster`: the anonymous Gregorian algorithm, with C++ integer
   * division. From year 1 on every dividend is non-negative, so h stays in
   * [0, 29] and l in [0, 6], and Easter falls between 22 March and 25 April
   * of that year.
   */
  function CalculateEaster(year: int): (r: QDate)
    ensures year >= 1 ==> r.Ymd? && r.year == year && Within(r, 3, 22, 4, 25)
    ensures year >= 1 ==> DayOfWeek(r) == 7
  {
    var a := Rem(year, 19);
    var b := Quot(year, 100);
    var c := Rem(year, 100);
    var d := Quot(b, 4);
    var e := Rem(b, 4);
    var f := Quot(b + 8, 25);
    var g := Quot(b - f + 1, 3);
    var h := Rem(19 * a + b - d - g + 15, 30);
    var i := Quot(c, 4);
    var k := Rem(c, 4);
    var l := Rem(32 + 2 * e + 2 * i - h - k, 7);
    var m := Quot(a + 11 * h + 22 * l, 451);
    var month := Quot(h + l - 7 * m + 114, 31);
    var day := Rem(h + l - 7 * m + 114, 31) + 1;
    EasterRanges(year, a, b, c, d, e, f, g, h, i, k, l);
    EasterTail(year, a, h, l);
    EasterSunday(year, b, c, d, e, i, k, h, l, m);
    MakeDate(year, month, day)
  }

  /** From year 1 on, every dividend of the computus is non-negative, which bounds a, h and l. */
  lemma EasterRanges(year: int, a: int, b: int, c: int, d: int, e: int, f: int, g: int,
                     h: int, i: int, k: int, l: int)
    requires a == Rem(year, 19) && b == Quot(year, 100) && c == Rem(year, 100)
    requires d == Quot(b, 4) && e == Rem(b, 4) && f == Quot(b + 8, 25) && g == Quot(b - f + 1, 3)
    requires h == Rem(19 * a + b - d - g + 15, 30) && i == Quot(c, 4) && k == Rem(c, 4)
    requires l == Rem(32 + 2 * e + 2 * i - h - k, 7)
    ensures year >= 1 ==> 0 <= a <= 18 && 0 <= h <= 29 && 0 <= l <= 6
  {
    if year >= 1 {
      EpactRange(a, b, d, f, g, h);
      WeekdayRange(e, h, i, k, l, b, c);
    }
  }

  lemma EpactRange(a: int, b: int, d: int, f: int, g: int, h: int)
    requires 0 <= a && 0 <= b
    requires d == Quot(b, 4) && f == Quot(b + 8, 25) && g == Quot(b - f + 1, 3)
    requires h == Rem(19 * a + b - d - g + 15, 30)
    ensures 0 <= h <= 29
  {
    assert 0 <= 4 * d <= b;
    assert 0 <= 25 * f <= b + 8;
    assert 3 * g <= b - f + 1;
  }

  lemma WeekdayRange(e: int, h: int, i: int, k: int, l: int, b: int, c: int)
    requires 0 <= b && 0 <= c && 0 <= h <= 29
    requires e == Rem(b, 4) && i == Quot(c, 4) && k == Rem(c, 4)
    requires l == Rem(32 + 2 * e + 2 * i - h - k, 7)
    ensures 0 <= l <= 6
  {
    assert 0 <= e && 0 <= i && k <= 3;
  }

  /**
   * The last steps of the computus: with a in [0, 18], h in [0, 29] and l in
   * [0, 6], m is 0 or 1 (1 only when l = 6 and h >= 28) and the day lands
   * between 22 March and 25 April.
   */
  lemma EasterTail(year: int, a: int, h: int, l: int)
    requires year >= 1 ==> 0 <= a <= 18 && 0 <= h <= 29 && 0 <= l <= 6
    ensures year >= 1 ==> 0 <= Quot(a + 11 * h + 22 * l, 451) <= 1
    ensures year >= 1 ==> var m := Quot(a + 11 * h + 22 * l, 451);
      var month := Quot(h + l - 7 * m + 114, 31);
      var day := Rem(h + l - 7 * m + 114, 31) + 1;
      var r := MakeDate(year, month, day);
      r.Ymd? && r.year == year && Within(r, 3, 22, 4, 25)
  {
    if year < 1 {
      return;
    }
    var m := Quot(a + 11 * h + 22 * l, 451);
    assert m == 0 || (m == 1 && l == 6 && h >= 28);
    var x := h + l - 7 * m + 114;
    assert 114 <= x <= 148;
    var month := Quot(x, 31);
    assert month == 3 || month == 4;
  }

  /** Leap years among [0, y] for y = 400d + 100e + 4i + k: 24b + i + d + 1, with b = 4d + e. */
  lemma LeapsThrough(y: int, b: int, c: int, d: int, e: int, i: int, k: int)
    requires y == 100 * b + c && 0 <= c < 100
    requires b == 4 * d + e && 0 <= e < 4 && 0 <= d
    requires c == 4 * i + k && 0 <= k < 4
    ensures LeapsBefore(y + 1) == 24 * b + i + d + 1
  {
    QuotientOf(y + 4, 4, 25 * b + i + 1, k);
    QuotientOf(y + 100, 100, b + 1, c);
    QuotientOf(y + 400, 400, d + 1, 100 * e + c);
  }

  lemma QuotientOf(x: int, n: int, q: int, r: int)
    requires n == 4 || n == 100 || n == 400
    requires x == n * q + r && 0 <= r < n
    ensures x / n == q && x % n == r
  {
    if n == 4 {
      assert x == 4 * q + r;
    } else if n == 100 {
      assert x == 100 * q + r;
    } else {
      assert x == 400 * q + r;
    }
  }

  /**
   * The day of the week the computus aims at: with y = 100b + c, b = 4d + e,
   * c = 4i + k and l = (32 + 2e + 2i - h - k) mod 7, the day 21 + h + l - 7m
   * days after 1 March of year y is a Sunday.
   */
  lemma ComputusSunday(y: int, b: int, c: int, d: int, e: int, i: int, k: int,
                       h: int, l: int, lq: int, m: int, r: QDate)
    requires y >= 1 && y == 100 * b + c && 0 <= c < 100
    requires b == 4 * d + e && 0 <= e < 4 && 0 <= d
    requires c == 4 * i + k && 0 <= k < 4
    requires 32 + 2 * e + 2 * i - h - k == 7 * lq + l
    requires r.Ymd? && r.year == y && DayOfYear(r) == DaysBeforeMonth(y, 3) + 21 + h + l - 7 * m
    ensures DayOfWeek(r) == 7
  {
    DayNumberAfterMarch(r, 21 + h + l - 7 * m);
    LeapsThrough(y, b, c, d, e, i, k);
    var q := 20871 * d + 5218 * e + 209 * i + 52 * k - 102774 - lq - m;
    assert DayNumber(r) == 7 * q + 3;
    SundayNumber(r, q);
  }

  /** Day numbers 3 more than a multiple of 7 are Sundays (1 January 1970 being a Thursday). */
  lemma SundayNumber(r: QDate, q: int)
    requires r.Ymd? && DayNumber(r) == 7 * q + 3
    ensures DayOfWeek(r) == 7
  {
    SeventhDay(DayNumber(r), q);
  }

  lemma SeventhDay(n: int, q: int)
    requires n == 7 * q + 3
    ensures (n + 3) % 7 + 1 == 7
  {
    assert n + 3 == 7 * (q + 1) - 1;
  }

  /** The day number of a day `off` days after 1 March of a year from 1 on, through the leap count up to that year. */
  lemma DayNumberAfterMarch(r: QDate, off: int)
    requires r.Ymd? && r.year >= 1 && DayOfYear(r) == DaysBeforeMonth(r.year, 3) + off
    ensures DayNumber(r) == 365 * (r.year - 1970) + LeapsBefore(r.year + 1) - 478 + 59 + off
  {
    MonthStarts(r.year);
    LeapsStep(r.year);
    assert LeapsBefore(1970) == 478;
  }

  /**
   * The end of the computus read as a day of the year: whether it lands in
   * March or in April, the date is 21 + h + l - 7m days after 1 March.
   */
  lemma EasterDayOfYear(year: int, x: int, month: int, day: int)
    requires year >= 1 && x == 31 * month + day - 1 && (month == 3 || month == 4)
    requires MakeDate(year, month, day).Ymd?
    ensures DayOfYear(MakeDate(year, month, day)) == DaysBeforeMonth(year, 3) + x - 93
  {
    assert DaysBeforeMonth(year, 4) == DaysBeforeMonth(year, 3) + 31;
  }

  /** From year 1 on, the computus yields a Sunday. */
  lemma EasterSunday(year: int, b: int, c: int, d: int, e: int, i: int, k: int, h: int, l: int, m: int)
    requires b == Quot(year, 100) && c == Rem(year, 100) && d == Quot(b, 4) && e == Rem(b, 4)
    requires i == Quot(c, 4) && k == Rem(c, 4) && l == Rem(32 + 2 * e + 2 * i - h - k, 7)
    requires year >= 1 ==> 0 <= h <= 29
    requires year >= 1 ==> var r := MakeDate(year, Quot(h + l - 7 * m + 114, 31), Rem(h + l - 7 * m + 114, 31) + 1);
      r.Ymd? && Within(r, 3, 22, 4, 25)
    ensures year >= 1 ==> DayOfWeek(MakeDate(year, Quot(h + l - 7 * m + 114, 31), Rem(h + l - 7 * m + 114, 31) + 1)) == 7
  {
    if year < 1 {
      return;
    }
    var x := h + l - 7 * m + 114;
    var month, day := Quot(x, 31), Rem(x, 31) + 1;
    var r := MakeDate(year, month, day);
    EasterDayOfYear(year, x, month, day);
    ComputusSunday(year, b, c, d, e, i, k, h, l, Quot(32 + 2 * e + 2 * i - h - k, 7), m, r);
  }

  /** The fixed holidays: New Year, 1 May, 8 May, 14 July, 15 August, 1 and 11 November, Christmas. */
  const FixedHolidays: seq<(int, int)> := [(1, 1), (5, 1), (5, 8), (7, 14), (8, 15), (11, 1), (11, 11), (12, 25)]

  /** The holiday list of a year, given that year's Easter Sunday: the fixed ones, then Easter Monday, Ascension, Whit Monday. */
  function HolidaysAround(year: int, easter: QDate): (hs: seq<QDate>)
    ensures |hs| == 11
  {
    [ MakeDate(year, 1, 1), MakeDate(year, 5, 1), MakeDate(year, 5, 8), MakeDate(year, 7, 14),
      MakeDate(year, 8, 15), MakeDate(year, 11, 1), MakeDate(year, 11, 11), MakeDate(year, 12, 25),
      AddDays(easter, 1), AddDays(easter, 39), AddDays(easter, 50) ]
  }

  function Holidays(year: int): (hs: seq<QDate>)
    ensures |hs| == 11
  {
    HolidaysAround(year, CalculateEaster(year))
  }

  /** `getHolidaysForYear`: the list built by successive appends. */
  method GetHolidaysForYear(year: int) returns (holidays: seq<QDate>)
    ensures holidays == Holidays(year)
  {
    holidays := [];
    holidays := holidays + [MakeDate(year, 1, 1)];
    holidays := holidays + [MakeDate(year, 5, 1)];
    holidays := holidays + [MakeDate(year, 5, 8)];
    holidays := holidays + [MakeDate(year, 7, 14)];
    holidays := holidays + [MakeDate(year, 8, 15)];
    holidays := holidays + [MakeDate(year, 11, 1)];
    holidays := holidays + [MakeDate(year, 11, 11)];
    holidays := holidays + [MakeDate(year, 12, 25)];

    var easter := CalculateEaster(year);
    holidays := holidays + [AddDays(easter, 1)];
    holidays := holidays + [AddDays(easter, 39)];
    holidays := holidays + [AddDays(easter, 50)];
    AppendEleven(MakeDate(year, 1, 1), MakeDate(year, 5, 1), MakeDate(year, 5, 8), MakeDate(year, 7, 14),
      MakeDate(year, 8, 15), MakeDate(year, 11, 1), MakeDate(year, 11, 11), MakeDate(year, 12, 25),
      AddDays(easter, 1), AddDays(easter, 39), AddDays(easter, 50));
  }

  /** Eleven successive appends to an empty list build the eleven-element list. */
  lemma AppendEleven<T>(x0: T, x1: T, x2: T, x3: T, x4: T, x5: T, x6: T, x7: T, x8: T, x9: T, x10: T)
    ensures [] + [x0] + [x1] + [x2] + [x3] + [x4] + [x5] + [x6] + [x7] + [x8] + [x9] + [x10]
      == [x0, x1, x2, x3, x4, x5, x6, x7, x8, x9, x10]
  {
  }

  /** In a year other than 0 the first eight entries are that year's fixed holidays. */
  lemma FixedDates(year: int, easter: QDate)
    requires year != 0
    ensures forall k :: 0 <= k < 8 ==>
      HolidaysAround(year, easter)[k] == Ymd(year, FixedHolidays[k].0, FixedHolidays[k].1)
  {
  }

  /**
   * With Easter between 22 March and 25 April, Easter Monday falls between
   * 23 March and 26 April, Ascension between 30 April and 3 June and Whit
   * Monday between 11 May and 14 June, all in Easter's year.
   */
  lemma MovableFeasts(easter: QDate)
    requires easter.Ymd? && Within(easter, 3, 22, 4, 25)
    ensures var d := AddDays(easter, 1); d.Ymd? && d.year == easter.year && Within(d, 3, 23, 4, 26)
    ensures var d := AddDays(easter, 39); d.Ymd? && d.year == easter.year && Within(d, 4, 30, 6, 3)
    ensures var d := AddDays(easter, 50); d.Ymd? && d.year == easter.year && Within(d, 5, 11, 6, 14)
  {
    MonthStarts(easter.year);
    FeastWindow(easter, 1, 3, 23, 4, 26);
    FeastWindow(easter, 39, 4, 30, 6, 3);
    FeastWindow(easter, 50, 5, 11, 6, 14);
  }

  /** Days before March, April, May and June, counting 29 February in a leap year. */
  lemma MonthStarts(y: int)
    ensures var leap := if IsLeapYear(y) then 1 else 0;
      && DaysBeforeMonth(y, 3) == 59 + leap && DaysBeforeMonth(y, 4) == 90 + leap
      && DaysBeforeMonth(y, 5) == 120 + leap && DaysBeforeMonth(y, 6) == 151 + leap
  {
    assert DaysBeforeMonth(y, 2) == 31;
  }

  /**
   * `n` days after an Easter between 22 March and 25 April lies between the
   * days `n` days after those two bounds, in the same year.
   */
  lemma FeastWindow(easter: QDate, n: nat, m1: int, d1: int, m2: int, d2: int)
    requires easter.Ymd? && Within(easter, 3, 22, 4, 25) && n <= 50
    requires 1 <= m1 <= 12 && 1 <= d1 <= DaysInMonth(easter.year, m1)
    requires 1 <= m2 <= 12 && 1 <= d2 <= DaysInMonth(easter.year, m2)
    requires DaysBeforeMonth(easter.year, 3) + 21 + n == DaysBeforeMonth(easter.year, m1) + d1 - 1
    requires DaysBeforeMonth(easter.year, 4) + 24 + n == DaysBeforeMonth(easter.year, m2) + d2 - 1
    ensures AddDays(easter, n).Ymd? && AddDays(easter, n).year == easter.year
    ensures Within(AddDays(easter, n), m1, d1, m2, d2)
  {
    var y := easter.year;
    MonthStarts(y);
    DayOfYearOrder(Ymd(y, 3, 22), easter);
    DayOfYearOrder(easter, Ymd(y, 4, 25));
    AddDaysInYear(easter, n);
    MovedWithin(easter, n, m1, d1, m2, d2);
  }

  /**
   * From year 1 on, the list holds the eight fixed dates of that year, then
   * Easter Monday, Ascension and Whit Monday within their windows, all in
   * the same year.
   */
  lemma HolidaysOfYear(year: int)
    requires year >= 1
    ensures var hs := Holidays(year);
      && (forall k :: 0 <= k < 8 ==> hs[k] == Ymd(year, FixedHolidays[k].0, FixedHolidays[k].1))
      && hs[8].Ymd? && hs[8].year == year && Within(hs[8], 3, 23, 4, 26)
      && hs[9].Ymd? && hs[9].year == year && Within(hs[9], 4, 30, 6, 3)
      && hs[10].Ymd? && hs[10].year == year && Within(hs[10], 5, 11, 6, 14)
  {
    var easter := CalculateEaster(year);
    var hs := HolidaysAround(year, easter);
    assert Holidays(year) == hs;
    FixedDates(year, easter);
    MovableFeasts(easter);
    assert hs[8] == AddDays(easter, 1) && hs[9] == AddDays(easter, 39) && hs[10] == AddDays(easter, 50);
  }

  /** A day whose position in the year lies between those of two dates lies between them. */
  lemma MovedWithin(easter: QDate, n: nat, m1: int, d1: int, m2: int, d2: int)
    requires easter.Ymd? && ValidYmd(easter.year, m1, d1) && ValidYmd(easter.year, m2, d2)
    requires AddDays(easter, n).Ymd? && AddDays(easter, n).year == easter.year
    requires DayOfYear(Ymd(easter.year, m1, d1)) <= DayOfYear(AddDays(easter, n)) <= DayOfYear(Ymd(easter.year, m2, d2))
    ensures Within(AddDays(easter, n), m1, d1, m2, d2)
  {
    DayOfYearOrder(Ymd(easter.year, m1, d1), AddDays(easter, n));
    DayOfYearOrder(AddDays(easter, n), Ymd(easter.year, m2, d2));
  }

  /** `isHoliday`: the date is in the holiday list of its own year. */
  predicate IsHoliday(d: QDate) {
    d in Holidays(YearOf(d))
  }

  /** `isExcludedDate`: a Sunday or a holiday. */
  predicate IsExcludedDate(d: QDate) {
    DayOfWeek(d) == 7 || IsHoliday(d)
  }

  /** One of the three holidays that follow a given Easter Sunday. */
  predicate FollowsEaster(d: QDate, easter: QDate) {
    d == AddDays(easter, 1) || d == AddDays(easter, 39) || d == AddDays(easter, 50)
  }

  /** Year 0 does not exist, so its list starts with the null date. */
  lemma NullAround(easter: QDate)
    ensures NullDate in HolidaysAround(0, easter)
  {
    assert HolidaysAround(0, easter)[0] == NullDate;
  }

  /** A valid day is in its year's list exactly when it is a fixed holiday or follows Easter. */
  lemma MemberAround(d: QDate, easter: QDate)
    requires d.Ymd?
    ensures d in HolidaysAround(d.year, easter) <==> (d.month, d.day) in FixedHolidays || FollowsEaster(d, easter)
  {
    var hs := HolidaysAround(d.year, easter);
    FixedDates(d.year, easter);
    if (d.month, d.day) in FixedHolidays {
      var k :| 0 <= k < 8 && FixedHolidays[k] == (d.month, d.day);
      assert hs[k] == d;
    }
    if d in hs {
      var k :| 0 <= k < 11 && hs[k] == d;
      if k < 8 {
        assert FixedHolidays[k] == (d.month, d.day);
      }
    }
  }

  /**
   * Which dates are excluded: the null date (year 0 has only null dates in
   * its holiday list, and all null dates are equal), every Sunday, and the
   * fixed and movable holidays of a date's own year; nothing else.
   */
  lemma ExcludedDates(d: QDate)
    ensures IsExcludedDate(d) <==>
      || d.NullDate?
      || (d.Ymd? && (DayOfWeek(d) == 7 || (d.month, d.day) in FixedHolidays
                     || FollowsEaster(d, CalculateEaster(d.year))))
  {
    if d.NullDate? {
      NullAround(CalculateEaster(0));
    } else {
      MemberAround(d, CalculateEaster(d.year));
    }
  }

  /** Easter 2024 is Sunday 31 March. */
  lemma Easter2024()
    ensures CalculateEaster(2024) == Ymd(2024, 3, 31) && DayOfWeek(Ymd(2024, 3, 31)) == 7
  {
    assert Rem(2024, 19) == 10 && Quot(2024, 100) == 20 && Rem(2024, 100) == 24;
    assert Quot(20, 4) == 5 && Rem(20, 4) == 0 && Quot(28, 25) == 1 && Quot(20, 3) == 6;
    assert Rem(214, 30) == 4 && Quot(24, 4) == 6 && Rem(24, 4) == 0;
    assert Rem(40, 7) == 5 && Quot(164, 451) == 0;
    assert Quot(123, 31) == 3 && Rem(123, 31) == 30;
    assert MakeDate(2024, 3, 31) == Ymd(2024, 3, 31);
  }

  /** Easter 2025 is Sunday 20 April. */
  lemma Easter2025()
    ensures CalculateEaster(2025) == Ymd(2025, 4, 20) && DayOfWeek(Ymd(2025, 4, 20)) == 7
  {
    assert Rem(2025, 19) == 11 && Quot(2025, 100) == 20 && Rem(2025, 100) == 25;
    assert Quot(20, 4) == 5 && Rem(20, 4) == 0 && Quot(28, 25) == 1 && Quot(20, 3) == 6;
    assert Rem(233, 30) == 23 && Quot(25, 4) == 6 && Rem(25, 4) == 1;
    assert Rem(20, 7) == 6 && Quot(396, 451) == 0;
    assert Quot(143, 31) == 4 && Rem(143, 31) == 19;
    assert MakeDate(2025, 4, 20) == Ymd(2025, 4, 20);
  }
}
