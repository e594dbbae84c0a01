/** Calendar arithmetic: Julian day numbers and Gregorian dates. */
module Calendar {

  type word = x: int | 0 <= x < 0x1_0000_0000

  datatype Date = Date(year: int, month: int, day: int)

  // ---------- The Gregorian calendar ----------

  predicate Leap(y: int) {
    y % 4 == 0 && (y % 100 != 0 || y % 400 == 0)
  }

  function MonthLength(y: int, m: int): int
    requires 1 <= m <= 12
  {
    if m == 2 then (if Leap(y) then 29 else 28)
    else if m == 4 || m == 6 || m == 9 || m == 11 then 30
    else 31
  }

  predicate ValidDate(d: Date) {
    1 <= d.year && 1 <= d.month <= 12 && 1 <= d.day <= MonthLength(d.year, d.month)
  }

  function Successor(d: Date): Date
    requires ValidDate(d)
  {
    if d.day < MonthLength(d.year, d.month) then d.(day := d.day + 1)
    else if d.month < 12 then Date(d.year, d.month + 1, 1)
    else Date(d.year + 1, 1, 1)
  }

  const EPOCH := 1721426  // the day number of 1 January of year 1

  /** The day number of 1 January, counted year by year. */
  function YearStart(y: int): int
    requires 1 <= y
  {
    if y == 1 then EPOCH else YearStart(y - 1) + (if Leap(y - 1) then 366 else 365)
  }

  function DaysBeforeMonth(y: int, m: int): int
    requires 1 <= m <= 12
  {
    if m == 1 then 0 else DaysBeforeMonth(y, m - 1) + MonthLength(y, m - 1)
  }

  /** The reference day count. */
  function DayNumber(d: Date): int
    requires ValidDate(d)
  {
    YearStart(d.year) + DaysBeforeMonth(d.year, d.month) + d.day - 1
  }

  lemma SuccessorIsNextDay(d: Date)
    requires ValidDate(d)
    ensures ValidDate(Successor(d)) && DayNumber(Successor(d)) == DayNumber(d) + 1
  {
    MonthTable(d.year);
  }

  lemma MonthTable(y: int)
    ensures var f := if Leap(y) then 1 else 0;
      && DaysBeforeMonth(y, 1) == 0 && DaysBeforeMonth(y, 2) == 31
      && DaysBeforeMonth(y, 3) == 59 + f && DaysBeforeMonth(y, 4) == 90 + f && DaysBeforeMonth(y, 5) == 120 + f
      && DaysBeforeMonth(y, 6) == 151 + f && DaysBeforeMonth(y, 7) == 181 + f && DaysBeforeMonth(y, 8) == 212 + f
      && DaysBeforeMonth(y, 9) == 243 + f && DaysBeforeMonth(y, 10) == 273 + f && DaysBeforeMonth(y, 11) == 304 + f
      && DaysBeforeMonth(y, 12) == 334 + f
  {
    assert DaysBeforeMonth(y, 1) == 0;
    assert DaysBeforeMonth(y, 2) == 31;
    assert DaysBeforeMonth(y, 3) == 31 + MonthLength(y, 2);
    assert DaysBeforeMonth(y, 5) == DaysBeforeMonth(y, 3) + 61;
    assert DaysBeforeMonth(y, 7) == DaysBeforeMonth(y, 5) + 61;
    assert DaysBeforeMonth(y, 9) == DaysBeforeMonth(y, 7) + 62;
    assert DaysBeforeMonth(y, 11) == DaysBeforeMonth(y, 9) + 61;
  }

  lemma {:induction false} YearStartClosed(y: int)
    requires 1 <= y
    ensures YearStart(y) == EPOCH + 365 * (y - 1) + (y - 1) / 4 - (y - 1) / 100 + (y - 1) / 400
  {
    if y > 1 {
      YearStartClosed(y - 1);
      LeapDay(y - 1);
    }
  }

  lemma LeapDay(y: int)
    ensures y / 4 - y / 100 + y / 400 == (y - 1) / 4 - (y - 1) / 100 + (y - 1) / 400 + (if Leap(y) then 1 else 0)
  {
    StepDiv(y, 4);
    StepDiv(y, 100);
    StepDiv(y, 400);
    Multiples(y);
  }

  lemma Multiples(y: int)
    ensures (y % 400 == 0 ==> y % 100 == 0) && (y % 100 == 0 ==> y % 4 == 0)
  {
    if y % 400 == 0 { NoRest(4 * (y / 400), 100); }
    if y % 100 == 0 { NoRest(25 * (y / 100), 4); }
  }

  lemma NoRest(q: int, k: int)
    requires k == 4 || k == 100
    ensures (k * q) % k == 0
  {
  }

  lemma StepDiv(y: int, k: int)
    requires k == 4 || k == 100 || k == 400
    ensures y / k == (y - 1) / k + (if y % k == 0 then 1 else 0)
  {
  }

  // ---------- The conversion ----------

  /** The month and day of the day `d` days after 1 March, `l` being `d` + 31; a month in the
      following calendar year has `carry` 1. */
  function FromMarch(y: int, l: int): Date {
    var j := 80 * l / 2447;
    var carry := j / 11;
    Date(y + carry, j + 2 - 12 * carry, l - 2447 * j / 80)
  }

  /** julian_day_to_gregorian, as a function of the day number. */
  function ToGregorian(jd: int): Date {
    var l := jd + 68569;
    var n := 4 * l / 146097;
    var l1 := l - (146097 * n + 3) / 4;
    var i := 4000 * (l1 + 1) / 1461001;
    FromMarch(100 * (n - 49) + i, l1 - 1461 * i / 4 + 31)
  }

  /** The day number of 1 March. */
  function MarchStart(y: int): int {
    1721120 + 365 * y + y / 4 - y / 100 + y / 400
  }

  // Each nested division finds the century, the year in it, the month in that.

  lemma CenturyStage(l: int)
    ensures var n := 4 * l / 146097; (146097 * n + 3) / 4 <= l < (146097 * (n + 1) + 3) / 4
  {
  }

  lemma CenturyLength(n: int)
    ensures (146097 * n + 3) / 4 == 36524 * n + (n + 3) / 4
  {
  }

  lemma YearStage(l: int)
    requires 0 <= l <= 36524
    ensures var i := 4000 * (l + 1) / 1461001; 0 <= i <= 99 && 1461 * i / 4 <= l < 1461 * (i + 1) / 4
  {
  }

  lemma YearLength(i: int)
    ensures 1461 * i / 4 == 365 * i + i / 4
  {
  }

  /** The fields of a year counted from March: leap days fall at its end. */
  lemma CenturyAndYear(c: int, i: int)
    requires 0 <= i <= 99
    ensures var y := 100 * c + i; y / 4 == 25 * c + i / 4 && y / 100 == c && y / 400 == c / 4
  {
  }

  lemma LeapAtEnd(y: int)
    ensures MarchStart(y + 1) - MarchStart(y) == if Leap(y + 1) then 366 else 365
  {
    LeapDay(y + 1);
  }

  /** The days of year `i` of century `c` fill exactly that March year. */
  lemma YearInCentury(c: int, i: int, l: int)
    requires 0 <= i <= 99 && 365 * i + i / 4 <= l < 365 * (i + 1) + (i + 1) / 4
    requires l < 36524 + (c + 1) / 4 - c / 4
    ensures var y, d := 100 * c + i, l - (365 * i + i / 4);
      && MarchStart(y) == 1721120 + 36524 * c + c / 4 + 365 * i + i / 4
      && 0 <= d < if Leap(y + 1) then 366 else 365
  {
    var y := 100 * c + i;
    CenturyAndYear(c, i);
    LeapAtEnd(y);
    if i < 99 {
      CenturyAndYear(c, i + 1);
    } else {
      CenturyAndYear(c + 1, 0);
    }
  }

  lemma ToGregorianIs(jd: int, n: int, l: int, i: int)
    requires n == 4 * (jd + 68569) / 146097 && l == jd + 68569 - (146097 * n + 3) / 4 && i == 4000 * (l + 1) / 1461001
    ensures ToGregorian(jd) == FromMarch(100 * (n - 49) + i, l - 1461 * i / 4 + 31)
  {
  }

  lemma CenturyOf(jd: int) returns (c: int, l: int)
    ensures c == 4 * (jd + 68569) / 146097 - 49 && l == jd + 68569 - (146097 * (c + 49) + 3) / 4
    ensures jd == 1721120 + 36524 * c + c / 4 + l && 0 <= l < 36524 + (c + 1) / 4 - c / 4
  {
    var n := 4 * (jd + 68569) / 146097;
    CenturyStage(jd + 68569);
    CenturyLength(n);
    CenturyLength(n + 1);
    c, l := n - 49, jd + 68569 - (146097 * n + 3) / 4;
    assert (n + 3) / 4 == 13 + c / 4 && (n + 4) / 4 == 13 + (c + 1) / 4;
  }

  /** Every day number lies in exactly one March year, and that is the one the code finds. */
  lemma FindsMarchYear(jd: int) returns (y: int, d: int)
    ensures jd == MarchStart(y) + d && 0 <= d < (if Leap(y + 1) then 366 else 365)
    ensures ToGregorian(jd) == FromMarch(y, d + 31)
  {
    var c, l := CenturyOf(jd);
    var i := 4000 * (l + 1) / 1461001;
    ToGregorianIs(jd, c + 49, l, i);
    y, d := YearOf(c, l, i);
  }

  lemma YearOf(c: int, l: int, i: int) returns (y: int, d: int)
    requires 0 <= l < 36524 + (c + 1) / 4 - c / 4 && i == 4000 * (l + 1) / 1461001
    ensures y == 100 * c + i && d == l - 1461 * i / 4 && MarchStart(y) + d == 1721120 + 36524 * c + c / 4 + l
    ensures 0 <= d < if Leap(y + 1) then 366 else 365
  {
    YearStage(l);
    YearLength(i);
    YearLength(i + 1);
    y, d := 100 * c + i, l - (365 * i + i / 4);
    YearInCentury(c, i, l);
  }

  /** The months from March are told apart by one multiplication and division. */
  lemma MonthStage(l: int)
    requires 31 <= l <= 396
    ensures var j := 80 * l / 2447;
      && 1 <= j <= 12 && 2447 * j / 80 < l <= 2447 * (j + 1) / 80
  {
  }

  lemma YearAndMarch(y: int)
    requires 0 <= y
    ensures YearStart(y + 1) == MarchStart(y) + 306
    ensures y >= 1 ==> MarchStart(y) == YearStart(y) + (if Leap(y) then 60 else 59)
  {
    YearStartClosed(y + 1);
    if y >= 1 {
      YearStartClosed(y);
      LeapDay(y);
    }
  }

  /** The thresholds 2447j/80 are the month boundaries, shifted by 30 days. */
  lemma MonthBounds(y: int, j: int)
    requires 1 <= j <= 10
    ensures DaysBeforeMonth(y, j + 2) == 2447 * j / 80 + (if Leap(y) then 30 else 29)
    ensures MonthLength(y, j + 2) == 2447 * (j + 1) / 80 - 2447 * j / 80
  {
    MonthTable(y);
  }

  lemma FromMarchSameYear(y: int, l: int, j: int)
    requires 1 <= y && j == 80 * l / 2447 && 1 <= j <= 10 && 2447 * j / 80 < l <= 2447 * (j + 1) / 80
    ensures var g := FromMarch(y, l); ValidDate(g) && DayNumber(g) == MarchStart(y) + l - 31
  {
    YearAndMarch(y);
    MonthBounds(y, j);
    assert FromMarch(y, l) == Date(y, j + 2, l - 2447 * j / 80);
  }

  lemma FromMarchNextYear(y: int, l: int, j: int)
    requires 0 <= y && j == 80 * l / 2447 && (j == 11 || j == 12) && 2447 * j / 80 < l <= 2447 * (j + 1) / 80
    requires l < (if Leap(y + 1) then 397 else 396)
    ensures var g := FromMarch(y, l); ValidDate(g) && DayNumber(g) == MarchStart(y) + l - 31
  {
    YearAndMarch(y);
    MonthTable(y + 1);
    assert FromMarch(y, l) == Date(y + 1, j - 10, l - 2447 * j / 80);
  }

  /** The d-th day of a March year, as a date. */
  lemma FromMarchCounts(y: int, d: int)
    requires 0 <= y && 0 <= d < (if Leap(y + 1) then 366 else 365) && EPOCH <= MarchStart(y) + d
    ensures var g := FromMarch(y, d + 31); ValidDate(g) && DayNumber(g) == MarchStart(y) + d
  {
    var j := 80 * (d + 31) / 2447;
    MonthStage(d + 31);
    if j <= 10 {
      FromMarchSameYear(y, d + 31, j);
    } else {
      FromMarchNextYear(y, d + 31, j);
    }
  }

  lemma NotBeforeYearOne(y: int, d: int)
    requires EPOCH <= MarchStart(y) + d && d < 366
    ensures 0 <= y
  {
  }

  /** The conversion inverts the reference day count... */
  lemma ToGregorianCounts(jd: int)
    requires EPOCH <= jd
    ensures ValidDate(ToGregorian(jd)) && DayNumber(ToGregorian(jd)) == jd
  {
    var y, d := FindsMarchYear(jd);
    NotBeforeYearOne(y, d);
    FromMarchCounts(y, d);
  }

  lemma DayInYear(d: Date)
    requires ValidDate(d)
    ensures YearStart(d.year) <= DayNumber(d) < YearStart(d.year + 1)
  {
    MonthTable(d.year);
  }

  lemma {:induction false} YearStartGrows(a: int, b: int)
    requires 1 <= a <= b
    ensures YearStart(a) <= YearStart(b)
  {
    if a < b { YearStartGrows(a, b - 1); }
  }

  lemma {:induction false} MonthsGrow(y: int, a: int, b: int)
    requires 1 <= a < b <= 12
    ensures DaysBeforeMonth(y, a) + MonthLength(y, a) <= DaysBeforeMonth(y, b)
  {
    if a < b - 1 { MonthsGrow(y, a, b - 1); }
  }

  /** Different dates have different numbers. */
  lemma DayNumberInjective(d: Date, e: Date)
    requires ValidDate(d) && ValidDate(e) && DayNumber(d) == DayNumber(e)
    ensures d == e
  {
    DayInYear(d);
    DayInYear(e);
    if d.year < e.year {
      YearStartGrows(d.year + 1, e.year);
    } else if e.year < d.year {
      YearStartGrows(e.year + 1, d.year);
    } else if d.month < e.month {
      MonthsGrow(d.year, d.month, e.month);
    } else if e.month < d.month {
      MonthsGrow(d.year, e.month, d.month);
    }
  }

  /** ... and is inverted by it: day numbers from 1721426 on and valid dates correspond one to one. */
  lemma ToGregorianInverts(d: Date)
    requires ValidDate(d)
    ensures EPOCH <= DayNumber(d) && ToGregorian(DayNumber(d)) == d
  {
    DayInYear(d);
    YearStartGrows(1, d.year);
    ToGregorianCounts(DayNumber(d));
    DayNumberInjective(d, ToGregorian(DayNumber(d)));
  }

  lemma NextDate(jd: int, g: Date)
    requires ValidDate(g) && DayNumber(g) == jd
    ensures ToGregorian(jd + 1) == Successor(g)
  {
    SuccessorIsNextDay(g);
    ToGregorianInverts(Successor(g));
  }

  /** The next day number is always the next date. */
  lemma {:induction false} NextDayNumberIsNextDate(jd: int)
    requires EPOCH <= jd
    ensures ValidDate(ToGregorian(jd)) && ToGregorian(jd + 1) == Successor(ToGregorian(jd))
  {
    ToGregorianCounts(jd);
    NextDate(jd, ToGregorian(jd));
  }

  // ---------- Day of the week ----------

  /** day_of_week: 0 is Sunday. */
  function DayOfWeek(d: Date): int {
    var a := (14 - d.month) / 12;
    var y := d.year - a;
    var m := d.month + 12 * a - 2;
    (d.day + y + y / 4 - y / 100 + y / 400 + 31 * m / 12) % 7
  }

  /** The months counted from March have a closed form for the days before them. */
  lemma MarchDays(y: int, month: int, m: int)
    requires 1 <= month <= 12 && m == (if month <= 2 then month + 10 else month - 2)
    ensures DaysBeforeMonth(y, month) == (153 * m - 151) / 5 + if month <= 2 then -306 else if Leap(y) then 60 else 59
  {
    MonthTable(y);
  }

  lemma MonthWeeks(m: int)
    requires 1 <= m <= 12
    ensures (153 * m - 151) / 5 + 2 == 31 * m / 12 + 7 * (4 * (m - 1))
  {
  }

  /** Day numbers differ from the weekday formula's sum by whole weeks. */
  lemma {:induction false} WeekdayOfMarch(d: Date, y: int, m: int) returns (weeks: int)
    requires ValidDate(d)
    requires y == (if d.month <= 2 then d.year - 1 else d.year) && m == (if d.month <= 2 then d.month + 10 else d.month - 2)
    ensures DayNumber(d) == MarchStart(y) + 31 * m / 12 + d.day - 3 + 7 * weeks
  {
    YearAndMarch(y);
    MarchDays(d.year, d.month, m);
    MonthWeeks(m);
    weeks := 4 * (m - 1);
  }

  lemma WholeWeeks(x: int, k: int)
    ensures (x + 7 * k) % 7 == x % 7
  {
  }

  lemma WeekdaySum(d: Date, y: int, m: int)
    requires 1 <= d.month <= 12
    requires y == (if d.month <= 2 then d.year - 1 else d.year) && m == (if d.month <= 2 then d.month + 10 else d.month - 2)
    ensures DayOfWeek(d) == (d.day + y + y / 4 - y / 100 + y / 400 + 31 * m / 12) % 7
  {
    assert (14 - d.month) / 12 == if d.month <= 2 then 1 else 0;
  }

  lemma WeekdayOfDate(d: Date)
    requires ValidDate(d)
    ensures DayOfWeek(d) == (DayNumber(d) + 1) % 7
  {
    var y := if d.month <= 2 then d.year - 1 else d.year;
    var m := if d.month <= 2 then d.month + 10 else d.month - 2;
    var weeks := WeekdayOfMarch(d, y, m);
    WeekdaySum(d, y, m);
    WholeWeeks(d.day + y + y / 4 - y / 100 + y / 400 + 31 * m / 12, 52 * y + 245874 + weeks);
  }

  /** Two independent formulas agree: the weekday of the converted date is that of the day number. */
  lemma WeekdayAgrees(jd: int)
    requires EPOCH <= jd
    ensures DayOfWeek(ToGregorian(jd)) == (jd + 1) % 7
  {
    ToGregorianCounts(jd);
    WeekdayOfDate(ToGregorian(jd));
  }

  // ---------- The conversion on machine words ----------

  const WORD := 0x1_0000_0000
  const QUARTER := 0x4000_0000

  /** The conversion on words: four times the shifted day number wraps every quarter of a word, and
      the quarters that are lost reappear in the day of the month. */
  function WordDate(jd: int): Date {
    var l := (jd + 68569) % WORD;
    var g := ToGregorian(l % QUARTER - 68569);
    Date(g.year % WORD, g.month, QUARTER * (l / QUARTER) + g.day)
  }

  /** What each intermediate value of the conversion can be. */
  lemma StageBounds(l: int, n: int, l1: int, i: int, l2: int)
    requires 0 <= l < QUARTER && n == 4 * l / 146097 && l1 == l - (146097 * n + 3) / 4
    requires i == 4000 * (l1 + 1) / 1461001 && l2 == l1 - 1461 * i / 4 + 31
    ensures 0 <= n < 0x1_0000 && 0 <= l1 <= 36524 && 0 <= i <= 99 && 31 <= l2 <= 396
  {
    CenturyStage(l);
    CenturyLength(n);
    CenturyLength(n + 1);
    YearStage(l1);
    YearLength(i);
    YearLength(i + 1);
  }

  /** julian_day_to_gregorian on 32-bit words, for every day number. */
  method JulianDayToGregorian(jd: word) returns (year: word, month: word, day: word)
    ensures Date(year, month, day) == WordDate(jd)
    ensures Date(year, month, day) == ToGregorian(jd) <==> 1721060 <= jd && 4 * (jd + 68569) < WORD
    ensures EPOCH <= jd && 4 * (jd + 68569) < WORD ==>
      ValidDate(Date(year, month, day)) && DayNumber(Date(year, month, day)) == jd
  {
    var n, l, k, x := CenturyOfDay(jd);
    ghost var c: int, l1 := n, x - (146097 * n + 3) / 4;
    WordStages(x, c, l1, 4000 * (l1 + 1) / 1461001);
    var i;
    i, l := YearOfDay(l, k);
    year, month, day := MonthAndDay(n, i, l, k);
    WordDateIs(jd, x - 68569, k, FromMarch(100 * (c - 49) + i, l - QUARTER * k));
    WordDateMeans(jd, Date(year, month, day));
  }

  /** The stages of the conversion of a day number that fits a quarter word. */
  lemma WordStages(x: int, n: int, l1: int, i: int)
    requires 0 <= x < QUARTER && n == 4 * x / 146097 && l1 == x - (146097 * n + 3) / 4 && i == 4000 * (l1 + 1) / 1461001
    ensures 0 <= n < 0x1_0000 && 0 <= l1 <= 36524 && 0 <= i <= 99 && 31 <= l1 - 1461 * i / 4 + 31 <= 396
    ensures ToGregorian(x - 68569) == FromMarch(100 * (n - 49) + i, l1 - 1461 * i / 4 + 31)
  {
    StageBounds(x, n, l1, i, l1 - 1461 * i / 4 + 31);
    ToGregorianIs(x - 68569, n, l1, i);
  }

  /** Multiples of a quarter word vanish in a product with a multiple of four. */
  lemma QuarterVanishes(c: int, k: int, x: int)
    requires 0 <= k < 4 && 0 <= x && 0 <= 4 * c * x < WORD
    ensures (4 * c * (QUARTER * k + x)) % WORD == 4 * c * x
  {
    assert 4 * c * (QUARTER * k + x) == WORD * (c * k) + 4 * c * x;
    WholeWords(4 * c * x, c * k);
  }

  lemma WholeWords(x: int, q: int)
    requires 0 <= x < WORD
    ensures (WORD * q + x) % WORD == x
  {
  }

  lemma CenturyFits(x: int, n: int)
    requires 0 <= x < QUARTER && n == 4 * x / 146097
    ensures 0 <= 146097 * n + 3 < WORD && 0 <= (146097 * n + 3) / 4 <= x
  {
    CenturyStage(x);
  }

  /** The century; what is left of the day number keeps its `k` quarters. */
  method CenturyOfDay(jd: word) returns (n: word, l: word, ghost k: int, ghost x: int)
    ensures k == (jd + 68569) % WORD / QUARTER && x == (jd + 68569) % WORD % QUARTER
    ensures n == 4 * x / 146097 && l == QUARTER * k + x - (146097 * n + 3) / 4
  {
    l := (jd + 68569) % WORD;
    k, x := l / QUARTER, l % QUARTER;
    QuarterVanishes(1, k, x);
    var t: word := (4 * l) % WORD;
    n := t / 146097;
    CenturyFits(x, n);
    t := 146097 * n + 3;
    l := l - t / 4;
  }

  /** The year in it, and the day in that. */
  method YearOfDay(l1: word, ghost k: int) returns (i: word, l: word)
    requires 0 <= k < 4 && QUARTER * k <= l1 <= QUARTER * k + 36524
    ensures i == 4000 * (l1 - QUARTER * k + 1) / 1461001 <= 99
    ensures l == l1 - 1461 * i / 4 + 31
  {
    QuarterVanishes(1000, k, l1 - QUARTER * k + 1);
    YearStage(l1 - QUARTER * k);
    var t: word := (4000 * (l1 + 1)) % WORD;
    i := t / 1461001;
    t := 1461 * i;
    l := (l1 - t / 4 + 31) % WORD;
  }

  lemma YearAsWord(n: int, i: int)
    requires 0 <= n < 0x1_0000 && 0 <= i <= 101
    ensures (100 * ((n - 49) % WORD) % WORD + i) % WORD == (100 * (n - 49) + i) % WORD
  {
    if n < 49 {
      assert (n - 49) % WORD == WORD + (n - 49);
      WholeWords(100 * (n - 49) + WORD, 99);
    }
  }

  /** The last lines of the conversion. */
  method MonthAndDay(n: word, i: word, l2: word, ghost k: int) returns (year: word, month: word, day: word)
    requires n < 0x1_0000 && i <= 99 && 0 <= k < 4 && QUARTER * k + 31 <= l2 <= QUARTER * k + 396
    ensures var g := FromMarch(100 * (n - 49) + i, l2 - QUARTER * k);
      year == g.year % WORD && month == g.month && day == QUARTER * k + g.day
  {
    MonthStage(l2 - QUARTER * k);
    QuarterVanishes(20, k, l2 - QUARTER * k);
    var l := l2;
    var t: word := (80 * l) % WORD;
    var j: word := t / 2447;
    t := 2447 * j;
    day := l - t / 80;
    l := j / 11;
    t := 12 * l;
    month := j + 2 - t;
    t := (n - 49) % WORD;
    t := (100 * t) % WORD;
    YearAsWord(n, i + l);
    year := (t + i + l) % WORD;
  }

  lemma YearOfMarch(y: int, d: int)
    requires 0 <= d < 366
    ensures FromMarch(y, d + 31).year == if d >= 306 then y + 1 else y
  {
  }

  lemma YearSign(y: int, d: int)
    requires 0 <= d < 366
    ensures (if d >= 306 then y + 1 else y) >= 0 <==> MarchStart(y) + d >= 1721060
  {
    if y <= -2 { assert MarchStart(y) <= 1720389; }
  }

  /** Year 0 begins with day number 1721060. */
  lemma YearZero(jd: int)
    ensures ToGregorian(jd).year >= 0 <==> jd >= 1721060
  {
    var y, d := FindsMarchYear(jd);
    YearOfMarch(y, d);
    YearSign(y, d);
  }

  lemma YearBounds(jd: int)
    requires -68569 <= jd < WORD
    ensures -4900 <= ToGregorian(jd).year < WORD - 4900
  {
    var y, d := FindsMarchYear(jd);
    YearOfMarch(y, d);
  }

  lemma DayBounds(jd: int)
    ensures 1 <= ToGregorian(jd).day <= 31
  {
    var y, d := FindsMarchYear(jd);
    MonthStage(d + 31);
  }

  /** The word conversion from the date it finds for the rest of the day number. */
  lemma WordDateIs(jd: int, r: int, k: int, g: Date)
    requires r == (jd + 68569) % WORD % QUARTER - 68569 && k == (jd + 68569) % WORD / QUARTER && g == ToGregorian(r)
    ensures WordDate(jd) == Date(g.year % WORD, g.month, QUARTER * k + g.day)
  {
  }

  lemma WordYear(y: int)
    requires -4900 <= y < WORD - 4900
    ensures y % WORD == if y >= 0 then y else y + WORD
  {
  }

  predicate Plausible(jd: int, g: Date) {
    1 <= g.day <= 31 && -4900 <= g.year < WORD - 4900 && (g.year >= 0 <==> jd >= 1721060)
  }

  lemma IsPlausible(jd: int, g: Date)
    requires -68569 <= jd < WORD && g == ToGregorian(jd)
    ensures Plausible(jd, g)
  {
    DayBounds(jd);
    YearZero(jd);
    YearBounds(jd);
  }

  lemma DateDiffers(jd: int, r: int, k: int, g: Date, h: Date)
    requires 0 <= jd < WORD && r == (jd + 68569) % WORD % QUARTER - 68569 && k == (jd + 68569) % WORD / QUARTER
    requires Plausible(jd, g) && Plausible(r, h) && (r == jd ==> g == h)
    ensures Date(h.year % WORD, h.month, QUARTER * k + h.day) == g <==> 1721060 <= jd && 4 * (jd + 68569) < WORD
  {
    WordYear(h.year);
    if k > 0 {
      assert QUARTER * k + h.day > g.day;
    } else if jd + 68569 < WORD {
      assert r == jd;
    }
  }

  /** The word conversion is the conversion exactly from year 0 on and while four times the shifted
      day number fits a word. */
  lemma WordDateIff(jd: int)
    requires 0 <= jd < WORD
    ensures WordDate(jd) == ToGregorian(jd) <==> 1721060 <= jd && 4 * (jd + 68569) < WORD
  {
    var r, k := (jd + 68569) % WORD % QUARTER - 68569, (jd + 68569) % WORD / QUARTER;
    var g, h := ToGregorian(jd), ToGregorian(r);
    WordDateIs(jd, r, k, h);
    IsPlausible(jd, g);
    IsPlausible(r, h);
    DateDiffers(jd, r, k, g, h);
  }

  lemma WordDateMeans(jd: int, d: Date)
    requires 0 <= jd < WORD && d == WordDate(jd)
    ensures d == ToGregorian(jd) <==> 1721060 <= jd && 4 * (jd + 68569) < WORD
    ensures EPOCH <= jd && 4 * (jd + 68569) < WORD ==> ValidDate(d) && DayNumber(d) == jd
  {
    WordDateIff(jd);
    if EPOCH <= jd { ToGregorianCounts(jd); }
  }

  /** The first day number whose quadruple no longer fits comes out as day 1073741825. */
  lemma FirstWrappedDay()
    ensures WordDate(QUARTER - 68569).day == 1073741825
  {
    ToGregorianIs(-68569, 0, 0, 0);
    WordDateIs(QUARTER - 68569, -68569, 1, Date(-4900, 3, 1));
  }
}
