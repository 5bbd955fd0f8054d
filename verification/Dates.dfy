/** `ParseISO8601`: a small subset of ISO 8601, and the instants it stands for. */
module Dates {
  import opened Bytes
  import Store

  const DAY_SECONDS := 86400

  datatype Granularity = Year | Month | Week | Day | Hour

  datatype Reason = BadYear | BadMonth | BadWeek | BadDay | BadHour | NoFormat

  datatype Parsed = Time(unix: int, granularity: Granularity) | Bad(reason: Reason)

  // ---------------------------------------------------------------------------------------------
  // The calendar
  // ---------------------------------------------------------------------------------------------

  predicate IsLeap(year: int) {
    if year % 4 != 0 then false
    else if year % 100 != 0 then true
    else year % 400 == 0
  }

  function DaysOfMonth(month: int, year: int): int
    requires 1 <= month <= 12
  {
    if month == 2 then if IsLeap(year) then 29 else 28
    else if month == 4 || month == 6 || month == 9 || month == 11 then 30
    else 31
  }

  /** The lengths of the months, January first. */
  lemma MonthLengths(month: int, year: int)
    requires 1 <= month <= 12
    ensures month != 2 ==> DaysOfMonth(month, year) == [31, 28, 31, 30, 31, 30, 31, 31, 30, 31, 30, 31][month - 1]
    ensures DaysOfMonth(2, year) == 29 <==> year % 4 == 0 && (year % 100 != 0 || year % 400 == 0)
    ensures DaysOfMonth(2, year) == 28 || DaysOfMonth(2, year) == 29
  {
    if year % 400 == 0 { HundredsOf400(year); }
    if year % 100 == 0 { FoursOf100(year); }
  }

  datatype Date = Date(year: int, month: int, day: int)

  predicate ValidDate(d: Date) {
    d.year >= 1 && 1 <= d.month <= 12 && 1 <= d.day <= DaysOfMonth(d.month, d.year)
  }

  /** The reference: the date that follows on the calendar. */
  function NextDay(d: Date): (n: Date)
    requires ValidDate(d)
    ensures ValidDate(n)
  {
    if d.day < DaysOfMonth(d.month, d.year) then d.(day := d.day + 1)
    else if d.month < 12 then Date(d.year, d.month + 1, 1)
    else Date(d.year + 1, 1, 1)
  }

  function DaysBeforeYear(year: int): int {
    365 * (year - 1) + (year - 1) / 4 - (year - 1) / 100 + (year - 1) / 400
  }

  function DaysBeforeMonth(month: int, year: int): int
    requires 1 <= month <= 12
  {
    if month == 1 then 0 else DaysBeforeMonth(month - 1, year) + DaysOfMonth(month - 1, year)
  }

  /** Days since January 1, 1970, as `time.Date` counts them. The day may lie outside its month. */
  function DayNumber(d: Date): int
    requires 1 <= d.month <= 12
  {
    DaysBeforeYear(d.year) + DaysBeforeMonth(d.month, d.year) + d.day - 1 - 719162
  }

  /** `time.Date(year, month, day, hour, min, sec, 0, time.UTC)`, which carries an excess of days or
      hours over, in Unix seconds. */
  function GoDate(d: Date, hour: int, min: int, sec: int): int
    requires 1 <= d.month <= 12
  {
    DayNumber(d) * DAY_SECONDS + hour * 3600 + min * 60 + sec
  }

  function Midnight(d: Date): int
    requires 1 <= d.month <= 12
  {
    GoDate(d, 0, 0, 0)
  }

  lemma YearLength(year: int)
    requires year >= 1
    ensures DaysBeforeYear(year + 1) == DaysBeforeYear(year) + DaysBeforeMonth(12, year) + DaysOfMonth(12, year)
  {
    MonthTable(year);
    LeapDays(year);
  }

  lemma QuotientSteps(year: int)
    ensures year / 4 == (year - 1) / 4 + if year % 4 == 0 then 1 else 0
    ensures year / 100 == (year - 1) / 100 + if year % 100 == 0 then 1 else 0
    ensures year / 400 == (year - 1) / 400 + if year % 400 == 0 then 1 else 0
  {
  }

  lemma HundredsOf400(year: int)
    requires year % 400 == 0
    ensures year % 100 == 0
  {
    var q := year / 400;
    assert year == 100 * (4 * q);
  }

  lemma FoursOf100(year: int)
    requires year % 100 == 0
    ensures year % 4 == 0
  {
    var q := year / 100;
    assert year == 4 * (25 * q);
  }

  lemma LeapDays(year: int)
    ensures year / 4 - year / 100 + year / 400 ==
            (year - 1) / 4 - (year - 1) / 100 + (year - 1) / 400 + if IsLeap(year) then 1 else 0
  {
    QuotientSteps(year);
    if year % 400 == 0 { HundredsOf400(year); }
    if year % 100 == 0 { FoursOf100(year); }
  }

  lemma MonthTable(year: int)
    ensures DaysBeforeMonth(12, year) == 334 + (if IsLeap(year) then 1 else 0)
    ensures forall m | 1 <= m <= 12 :: DaysBeforeMonth(m, year) <= DaysBeforeMonth(12, year)
  {
    assert DaysBeforeMonth(2, year) == 31;
    assert DaysBeforeMonth(3, year) == 59 + (if IsLeap(year) then 1 else 0);
    assert DaysBeforeMonth(5, year) == DaysBeforeMonth(3, year) + 61;
    assert DaysBeforeMonth(7, year) == DaysBeforeMonth(5, year) + 61;
    assert DaysBeforeMonth(9, year) == DaysBeforeMonth(7, year) + 62;
    assert DaysBeforeMonth(11, year) == DaysBeforeMonth(9, year) + 61;
    assert DaysBeforeMonth(12, year) == DaysBeforeMonth(11, year) + 30;
    forall m | 1 <= m <= 12 ensures DaysBeforeMonth(m, year) <= DaysBeforeMonth(12, year) {
      MonthsGrow(m, 12, year);
    }
  }

  lemma {:induction false} MonthsGrow(m: int, n: int, year: int)
    requires 1 <= m <= n <= 12
    ensures m < n ==> DaysBeforeMonth(m, year) + DaysOfMonth(m, year) <= DaysBeforeMonth(n, year)
    decreases n
  {
    if m < n { MonthsGrow(m, n - 1, year); }
  }

  /** The closed day count moves by one with every step of the calendar. */
  lemma DayNumberSteps(d: Date)
    requires ValidDate(d)
    ensures DayNumber(NextDay(d)) == DayNumber(d) + 1
  {
    if d.day == DaysOfMonth(d.month, d.year) && d.month == 12 { YearLength(d.year); }
  }

  /** The n-th day of the calendar after a date. */
  function DayAfter(d: Date, n: nat): (r: Date)
    requires ValidDate(d)
    ensures ValidDate(r)
  {
    if n == 0 then d else NextDay(DayAfter(d, n - 1))
  }

  lemma {:induction false} DayNumberAfter(d: Date, n: nat)
    requires ValidDate(d)
    ensures DayNumber(DayAfter(d, n)) == DayNumber(d) + n
  {
    if n > 0 {
      DayNumberAfter(d, n - 1);
      DayNumberSteps(DayAfter(d, n - 1));
    }
  }

  /** The day count is the number of calendar days since January 1, 1970. */
  lemma DayNumberCounts(n: nat)
    ensures DayNumber(DayAfter(Date(1970, 1, 1), n)) == n
  {
    DayNumberAfter(Date(1970, 1, 1), n);
  }

  predicate Earlier(a: Date, b: Date) {
    a.year < b.year || (a.year == b.year && (a.month < b.month || (a.month == b.month && a.day < b.day)))
  }

  lemma {:induction false} YearsGrow(y: int, z: int)
    requires 1 <= y < z
    ensures DaysBeforeYear(y) + DaysBeforeMonth(12, y) + DaysOfMonth(12, y) <= DaysBeforeYear(z)
    decreases z
  {
    YearLength(z - 1);
    if y < z - 1 {
      YearsGrow(y, z - 1);
      MonthTable(z - 1);
    }
  }

  /** Later dates have larger day numbers. */
  lemma DayNumberMonotone(a: Date, b: Date)
    requires ValidDate(a) && ValidDate(b) && Earlier(a, b)
    ensures DayNumber(a) < DayNumber(b)
  {
    if a.year < b.year {
      YearsGrow(a.year, b.year);
      MonthsGrow(a.month, 12, a.year);
      MonthsGrow(1, b.month, b.year);
    } else if a.month < b.month {
      MonthsGrow(a.month, b.month, a.year);
    }
  }

  lemma DayNumberInjective(a: Date, b: Date)
    requires ValidDate(a) && ValidDate(b)
    ensures DayNumber(a) == DayNumber(b) <==> a == b
  {
    if Earlier(a, b) { DayNumberMonotone(a, b); }
    if Earlier(b, a) { DayNumberMonotone(b, a); }
  }

  // ---------------------------------------------------------------------------------------------
  // The parser
  // ---------------------------------------------------------------------------------------------

  /** A regular expression of this file: 'd' stands for a digit, any other character for itself. */
  predicate Matches(s: string, pattern: string) {
    |s| == |pattern| && forall i | 0 <= i < |s| :: if pattern[i] == 'd' then IsDigit(s[i]) else s[i] == pattern[i]
  }

  const YEAR_RE := "dddd"
  const MONTH_RE := "dddd-dd"
  const WEEK_RE := "dddd-Wdd"
  const DAY_RE := "dddd-dd-dd"
  const HOUR_RE := "dddd-dd-ddTdd"

  function Digit(c: char): int {
    c as int - '0' as int
  }

  function Two(s: string, i: nat): int
    requires i + 2 <= |s|
  {
    10 * Digit(s[i]) + Digit(s[i + 1])
  }

  function Four(s: string): int
    requires |s| >= 4
  {
    100 * Two(s, 0) + Two(s, 2)
  }

  /** The error message speaks of years before 1583; the test refuses 1583 as well. */
  predicate YearOk(year: int) {
    year > 1583
  }

  predicate HourOk(hour: int) {
    -1 < hour < 25
  }

  /** The date that a day or hour form writes. */
  function WrittenDate(s: string): Date
    requires |s| >= 10
  {
    Date(Four(s), Two(s, 5), Two(s, 8))
  }

  function ParseIso8601(s: string): Parsed {
    if Matches(s, YEAR_RE) then
      var year := Four(s);
      if !YearOk(year) then Bad(BadYear)
      else Time(GoDate(Date(year, 12, DaysOfMonth(12, year)), 23, 59, 59), Year)
    else if Matches(s, MONTH_RE) then
      var month, year := Two(s, 5), Four(s);
      if !(1 <= month <= 12) then Bad(BadMonth)
      else if !YearOk(year) then Bad(BadYear)
      else Time(GoDate(Date(year, month, 31), 23, 59, 59), Month)
    else if Matches(s, WEEK_RE) then
      var week, year := Two(s, 6), Four(s);
      if !(1 <= week <= 53) then Bad(BadWeek)
      else if !YearOk(year) then Bad(BadYear)
      else Time(GoDate(Date(year, 1, week * 7), 23, 59, 59), Week)
    else if Matches(s, DAY_RE) then
      var d := WrittenDate(s);
      if !(1 <= d.month <= 12) then Bad(BadMonth)
      else if !YearOk(d.year) then Bad(BadYear)
      else if !(1 <= d.day <= DaysOfMonth(d.month, d.year)) then Bad(BadDay)
      else Time(GoDate(d, 23, 59, 59), Day)
    else if Matches(s, HOUR_RE) then
      var d, hour := WrittenDate(s), Two(s, 11);
      if !(1 <= d.month <= 12) then Bad(BadMonth)
      else if !YearOk(d.year) then Bad(BadYear)
      else if !HourOk(hour) then Bad(BadHour)
      else if !(1 <= d.day <= DaysOfMonth(d.month, d.year)) then Bad(BadDay)
      else Time(GoDate(d, hour, 59, 59), Hour)
    else Bad(NoFormat)
  }

  /** The first instant after the period that an accepted string names. */
  function PeriodEnd(s: string, g: Granularity): int
    requires ParseIso8601(s).Time? && ParseIso8601(s).granularity == g
  {
    match g
    case Year => Midnight(Date(Four(s) + 1, 1, 1))
    case Month => var m := Two(s, 5);
      if m == 12 then Midnight(Date(Four(s) + 1, 1, 1)) else Midnight(Date(Four(s), m + 1, 1))
    case Week => Midnight(DayAfter(Date(Four(s), 1, 1), 7 * Two(s, 6)))
    case Day => Midnight(NextDay(WrittenDate(s)))
    case Hour => if Two(s, 11) < 23 then Midnight(WrittenDate(s)) + (Two(s, 11) + 1) * 3600
      else Midnight(NextDay(WrittenDate(s))) + (Two(s, 11) - 23) * 3600
  }

  /** An accepted string gives the last second of its period, except that a month that is shorter
      than 31 days is overshot by the difference. */
  lemma LastSecond(s: string)
    requires ParseIso8601(s).Time?
    ensures var p := ParseIso8601(s);
            p.unix + 1 == PeriodEnd(s, p.granularity) +
              if p.granularity == Month then (31 - DaysOfMonth(Two(s, 5), Four(s))) * DAY_SECONDS else 0
  {
    var p, year := ParseIso8601(s), Four(s);
    YearLength(year);
    match p.granularity
    case Week => DayNumberAfter(Date(year, 1, 1), 7 * Two(s, 6));
    case Year =>
    case Month =>
    case _ => DayNumberSteps(WrittenDate(s));
  }

  /** Monday is 0; January 1, 1970 was a Thursday. */
  function Weekday(dayNumber: int): int {
    (dayNumber + 3) % 7
  }

  /** The Monday that starts week 1 of ISO 8601, the week with the first Thursday of the year. */
  ghost predicate StartsWeekOne(monday: int, year: int) {
    Weekday(monday) == 0 && 0 <= monday + 3 - DayNumber(Date(year, 1, 1)) < 7
  }

  lemma WeekOneStarts(monday: int, first: int)
    requires Weekday(monday) == 0 && 0 <= monday + 3 - first < 7
    ensures -3 <= monday - first <= 3 && (Weekday(first) == 0 <==> monday == first)
  {
  }

  lemma WeekEnds(s: string)
    requires ParseIso8601(s).Time? && ParseIso8601(s).granularity == Week
    ensures ParseIso8601(s).unix + 1 == (DayNumber(Date(Four(s), 1, 1)) + 7 * Two(s, 6)) * DAY_SECONDS
  {
    LastSecond(s);
    DayNumberAfter(Date(Four(s), 1, 1), 7 * Two(s, 6));
  }

  /** A week form gives the last second of that week of ISO 8601 if and only if January 1 is a Monday;
      otherwise it is off by the days, at most three, between January 1 and the start of week 1. */
  lemma WeekIsIsoIff(s: string, monday: int)
    requires ParseIso8601(s).Time? && ParseIso8601(s).granularity == Week && StartsWeekOne(monday, Four(s))
    ensures var first, end := DayNumber(Date(Four(s), 1, 1)), (monday + 7 * Two(s, 6)) * DAY_SECONDS;
            && -3 <= monday - first <= 3
            && ParseIso8601(s).unix + 1 == end - (monday - first) * DAY_SECONDS
            && (ParseIso8601(s).unix + 1 == end <==> Weekday(first) == 0)
  {
    WeekEnds(s);
    WeekOneStarts(monday, DayNumber(Date(Four(s), 1, 1)));
  }

  // ---------------------------------------------------------------------------------------------
  // Order of strings and of instants
  // ---------------------------------------------------------------------------------------------

  ghost predicate LexLess(a: string, b: string) {
    exists k :: DiffersAt(a, b, k) && a[k] < b[k]
  }

  predicate DiffersAt(a: string, b: string, k: int) {
    0 <= k < |a| && k < |b| && a[k] != b[k] && forall i | 0 <= i < k :: a[i] == b[i]
  }

  function DateKey(s: string): int
    requires |s| >= 10
  {
    10000 * Four(s) + 100 * Two(s, 5) + Two(s, 8)
  }

  /** For strings that start like dates, the text is compared as the number of its digits. */
  lemma DateKeyOrder(a: string, b: string, k: int)
    requires |a| >= 10 && |b| >= 10 && Matches(a[..10], DAY_RE) && Matches(b[..10], DAY_RE)
    requires DiffersAt(a, b, k) && k < 10 && a[k] < b[k]
    ensures DateKey(a) < DateKey(b)
  {
    DateDigits(a);
    DateDigits(b);
    if k < 4 {
      assert Four(a) < Four(b);
    } else if k < 7 {
      assert Four(a) == Four(b) && Two(a, 5) < Two(b, 5);
    } else {
      assert Four(a) == Four(b) && Two(a, 5) == Two(b, 5) && Two(a, 8) < Two(b, 8);
    }
  }

  lemma DateDigits(a: string)
    requires |a| >= 10 && Matches(a[..10], DAY_RE)
    ensures IsDigit(a[0]) && IsDigit(a[1]) && IsDigit(a[2]) && IsDigit(a[3]) && a[4] == '-'
    ensures IsDigit(a[5]) && IsDigit(a[6]) && a[7] == '-' && IsDigit(a[8]) && IsDigit(a[9])
  {
    var d := a[..10];
    assert d[0] == a[0] && d[1] == a[1] && d[2] == a[2] && d[3] == a[3] && d[4] == a[4];
    assert d[5] == a[5] && d[6] == a[6] && d[7] == a[7] && d[8] == a[8] && d[9] == a[9];
  }

  lemma {:induction false} LexTotal(a: string, b: string, i: nat)
    requires |a| == |b| && a != b && i <= |a| && forall j | 0 <= j < i :: a[j] == b[j]
    ensures LexLess(a, b) || LexLess(b, a)
    decreases |a| - i
  {
    if i < |a| && a[i] == b[i] {
      LexTotal(a, b, i + 1);
    } else {
      assert i < |a|;
      assert DiffersAt(a, b, i) && DiffersAt(b, a, i);
    }
  }

  predicate IsForm(s: string, g: Granularity) {
    ParseIso8601(s).Time? && ParseIso8601(s).granularity == g
  }

  lemma DateForm(s: string)
    requires IsForm(s, Day) || IsForm(s, Hour)
    ensures |s| >= 10 && Matches(s[..10], DAY_RE) && ValidDate(WrittenDate(s))
  {
    assert Matches(s, DAY_RE) || Matches(s, HOUR_RE);
    assert forall i | 0 <= i < 10 :: DAY_RE[i] == HOUR_RE[i];
  }

  /** A difference within the date decides the order of the dates. */
  lemma DateTextOrder(a: string, b: string, k: int)
    requires (IsForm(a, Day) || IsForm(a, Hour)) && (IsForm(b, Day) || IsForm(b, Hour))
    requires DiffersAt(a, b, k) && k < 10 && a[k] < b[k]
    ensures |a| >= 10 && |b| >= 10 && DayNumber(WrittenDate(a)) < DayNumber(WrittenDate(b))
  {
    DateForm(a);
    DateForm(b);
    DateKeyOrder(a, b, k);
    assert Earlier(WrittenDate(a), WrittenDate(b));
    DayNumberMonotone(WrittenDate(a), WrittenDate(b));
  }

  lemma DayTextOrder(a: string, b: string)
    requires IsForm(a, Day) && IsForm(b, Day) && LexLess(a, b)
    ensures ParseIso8601(a).unix < ParseIso8601(b).unix
  {
    var k :| DiffersAt(a, b, k) && a[k] < b[k];
    DateTextOrder(a, b, k);
  }

  /** Accepted day forms are ordered as text exactly as they are in time. */
  lemma DayFormsOrdered(a: string, b: string)
    requires IsForm(a, Day) && IsForm(b, Day)
    ensures LexLess(a, b) <==> ParseIso8601(a).unix < ParseIso8601(b).unix
  {
    if LexLess(a, b) {
      DayTextOrder(a, b);
    } else if a != b {
      LexTotal(a, b, 0);
      DayTextOrder(b, a);
    }
  }

  lemma HourForm(s: string)
    requires IsForm(s, Hour)
    ensures |s| == 13 && s[10] == 'T' && IsDigit(s[11]) && IsDigit(s[12]) && 0 <= Two(s, 11) <= 24
    ensures ValidDate(WrittenDate(s)) && ParseIso8601(s).unix == GoDate(WrittenDate(s), Two(s, 11), 59, 59)
  {
    assert Matches(s, HOUR_RE);
  }

  /** Hour forms are ordered as text no differently than in time, and two of them name the same
      instant exactly when one is hour 24 and the other hour 00 of the next day. */
  lemma HourFormsOrdered(a: string, b: string)
    requires IsForm(a, Hour) && IsForm(b, Hour) && LexLess(a, b)
    ensures |a| == 13 && |b| == 13 && ValidDate(WrittenDate(a))
    ensures ParseIso8601(a).unix <= ParseIso8601(b).unix
    ensures ParseIso8601(a).unix == ParseIso8601(b).unix <==>
            Two(a, 11) == 24 && Two(b, 11) == 0 && WrittenDate(b) == NextDay(WrittenDate(a))
  {
    HourForm(a);
    HourForm(b);
    var da, db := WrittenDate(a), WrittenDate(b);
    var k :| DiffersAt(a, b, k) && a[k] < b[k];
    DayNumberSteps(da);
    DayNumberInjective(NextDay(da), db);
    if k < 10 {
      DateTextOrder(a, b, k);
    } else {
      assert da == db && Two(a, 11) < Two(b, 11);
    }
  }

  // ---------------------------------------------------------------------------------------------
  // Which day forms are accepted
  // ---------------------------------------------------------------------------------------------

  function PrintTwo(n: int): string
    requires 0 <= n < 100
  {
    ['0' + (n / 10) as char, '0' + (n % 10) as char]
  }

  function PrintDay(d: Date): string
    requires 0 <= d.year < 10000 && 0 <= d.month < 100 && 0 <= d.day < 100
  {
    PrintTwo(d.year / 100) + PrintTwo(d.year % 100) + "-" + PrintTwo(d.month) + "-" + PrintTwo(d.day)
  }

  /** Years that four digits can write and the parser takes. */
  predicate Accepted(d: Date) {
    ValidDate(d) && 1583 < d.year <= 9999
  }

  /** Two digits that read as `n`. */
  predicate Reads(s: string, n: int) {
    |s| == 2 && IsDigit(s[0]) && IsDigit(s[1]) && Two(s, 0) == n
  }

  lemma PrintTwoReads(s: string, n: int)
    requires 0 <= n < 100
    ensures Reads(s, n) <==> s == PrintTwo(n)
  {
  }

  lemma DayText(a: string, b: string, c: string, e: string, d: Date)
    requires Reads(a, d.year / 100) && Reads(b, d.year % 100) && Reads(c, d.month) && Reads(e, d.day)
    ensures var s := a + b + "-" + c + "-" + e; Matches(s, DAY_RE) && WrittenDate(s) == d
  {
    var s := a + b + "-" + c + "-" + e;
    assert s == [a[0], a[1], b[0], b[1], '-', c[0], c[1], '-', e[0], e[1]];
    assert 100 * (d.year / 100) + d.year % 100 == d.year;
  }

  lemma PrintedDay(d: Date)
    requires 0 <= d.year < 10000 && 0 <= d.month < 100 && 0 <= d.day < 100
    ensures Matches(PrintDay(d), DAY_RE) && WrittenDate(PrintDay(d)) == d
  {
    var a, b, c, e := PrintTwo(d.year / 100), PrintTwo(d.year % 100), PrintTwo(d.month), PrintTwo(d.day);
    PrintTwoReads(a, d.year / 100);
    PrintTwoReads(b, d.year % 100);
    PrintTwoReads(c, d.month);
    PrintTwoReads(e, d.day);
    DayText(a, b, c, e, d);
  }

  lemma WrittenDayPrints(s: string)
    requires Matches(s, DAY_RE)
    ensures var d := WrittenDate(s);
            0 <= d.year < 10000 && 0 <= d.month < 100 && 0 <= d.day < 100 && s == PrintDay(d)
  {
    assert s[..10] == s;
    DateDigits(s);
    var d := WrittenDate(s);
    assert d.year / 100 == Two(s, 0) && d.year % 100 == Two(s, 2);
    PrintTwoReads(s[..2], d.year / 100);
    PrintTwoReads(s[2..4], d.year % 100);
    PrintTwoReads(s[5..7], d.month);
    PrintTwoReads(s[8..], d.day);
    assert s == s[..2] + s[2..4] + "-" + s[5..7] + "-" + s[8..];
  }

  /** Printing a date of the accepted range and parsing it gives the last second of that date. */
  lemma DayRoundTrip(d: Date)
    requires Accepted(d)
    ensures ParseIso8601(PrintDay(d)) == Time(Midnight(NextDay(d)) - 1, Day)
  {
    PrintedDay(d);
    DayNumberSteps(d);
  }

  /** The day forms that are accepted are exactly the printed dates of that range. */
  lemma DayFormsAcceptedIff(s: string)
    ensures IsForm(s, Day) <==> exists d :: Accepted(d) && s == PrintDay(d)
  {
    if IsForm(s, Day) {
      var d := WrittenDate(s);
      WrittenDayPrints(s);
      assert s[..10] == s;
      DateDigits(s);
      assert Accepted(d);
    }
    if exists d :: Accepted(d) && s == PrintDay(d) {
      var d :| Accepted(d) && s == PrintDay(d);
      DayRoundTrip(d);
    }
  }

  // ---------------------------------------------------------------------------------------------
  // The other forms
  // ---------------------------------------------------------------------------------------------

  function PrintYear(year: int): string
    requires 0 <= year < 10000
  {
    PrintTwo(year / 100) + PrintTwo(year % 100)
  }

  /** Four digits in front of anything. */
  lemma YearText(year: int, rest: string)
    requires 0 <= year < 10000
    ensures var s := PrintYear(year) + rest;
            |s| == 4 + |rest| && Four(s) == year && forall i | 0 <= i < 4 :: IsDigit(s[i])
  {
    var a, b := PrintTwo(year / 100), PrintTwo(year % 100);
    PrintTwoReads(a, year / 100);
    PrintTwoReads(b, year % 100);
    var s := PrintYear(year) + rest;
    assert s[0] == a[0] && s[1] == a[1] && s[2] == b[0] && s[3] == b[1];
  }

  lemma YearPrints(s: string)
    requires |s| >= 4 && forall i | 0 <= i < 4 :: IsDigit(s[i])
    ensures 0 <= Four(s) < 10000 && s[..4] == PrintYear(Four(s))
  {
    var year := Four(s);
    assert year / 100 == Two(s, 0) && year % 100 == Two(s, 2);
    PrintTwoReads(s[..2], year / 100);
    PrintTwoReads(s[2..4], year % 100);
    assert s[..4] == s[..2] + s[2..4];
  }

  lemma YearRoundTrip(year: int)
    requires 1584 <= year <= 9999
    ensures ParseIso8601(PrintYear(year)) == Time(Midnight(Date(year + 1, 1, 1)) - 1, Year)
  {
    YearText(year, "");
    assert PrintYear(year) + "" == PrintYear(year);
    YearLength(year);
  }

  /** A year form is accepted exactly if it writes a year from 1584 on. */
  lemma YearFormsAcceptedIff(s: string)
    ensures IsForm(s, Year) <==> exists y :: 1584 <= y <= 9999 && s == PrintYear(y)
  {
    if IsForm(s, Year) {
      YearPrints(s);
      assert s[..4] == s;
    }
    if exists y :: 1584 <= y <= 9999 && s == PrintYear(y) {
      var y :| 1584 <= y <= 9999 && s == PrintYear(y);
      YearRoundTrip(y);
    }
  }

  function PrintMonth(year: int, month: int): string
    requires 0 <= year < 10000 && 0 <= month < 100
  {
    PrintYear(year) + ("-" + PrintTwo(month))
  }

  lemma MonthText(year: int, month: int)
    requires 0 <= year < 10000 && 0 <= month < 100
    ensures var s := PrintMonth(year, month); Matches(s, MONTH_RE) && Four(s) == year && Two(s, 5) == month
  {
    var c, s := PrintTwo(month), PrintMonth(year, month);
    PrintTwoReads(c, month);
    YearText(year, "-" + c);
    assert s[4] == '-' && s[5] == c[0] && s[6] == c[1];
  }

  /** A month always counts 31 days. */
  lemma MonthRoundTrip(year: int, month: int)
    requires 1584 <= year <= 9999 && 1 <= month <= 12
    ensures ParseIso8601(PrintMonth(year, month)) == Time(Midnight(Date(year, month, 1)) + 31 * 86400 - 1, Month)
  {
    MonthText(year, month);
  }

  /** A month form is accepted exactly if it writes a month of such a year. */
  lemma MonthFormsAcceptedIff(s: string)
    ensures IsForm(s, Month) <==> exists y, m :: 1584 <= y <= 9999 && 1 <= m <= 12 && s == PrintMonth(y, m)
  {
    if IsForm(s, Month) { MonthPrints(s); }
    if exists y, m :: 1584 <= y <= 9999 && 1 <= m <= 12 && s == PrintMonth(y, m) {
      var y, m :| 1584 <= y <= 9999 && 1 <= m <= 12 && s == PrintMonth(y, m);
      MonthRoundTrip(y, m);
    }
  }

  lemma MonthPrints(s: string)
    requires Matches(s, MONTH_RE)
    ensures 0 <= Four(s) < 10000 && 0 <= Two(s, 5) < 100 && s == PrintMonth(Four(s), Two(s, 5))
  {
    assert IsDigit(s[5]) && IsDigit(s[6]) && s[4] == '-';
    YearPrints(s);
    PrintTwoReads(s[5..], Two(s, 5));
    assert s == s[..4] + ("-" + s[5..]);
  }

  function PrintWeek(year: int, week: int): string
    requires 0 <= year < 10000 && 0 <= week < 100
  {
    PrintYear(year) + ("-W" + PrintTwo(week))
  }

  lemma WeekText(year: int, week: int)
    requires 0 <= year < 10000 && 0 <= week < 100
    ensures var s := PrintWeek(year, week); Matches(s, WEEK_RE) && Four(s) == year && Two(s, 6) == week
  {
    var c, s := PrintTwo(week), PrintWeek(year, week);
    PrintTwoReads(c, week);
    YearText(year, "-W" + c);
    assert s[4] == '-' && s[5] == 'W' && s[6] == c[0] && s[7] == c[1];
  }

  /** A week is seven days, counted from January 1. */
  lemma WeekRoundTrip(year: int, week: int)
    requires 1584 <= year <= 9999 && 1 <= week <= 53
    ensures ParseIso8601(PrintWeek(year, week)) == Time(Midnight(Date(year, 1, 1)) + 7 * week * 86400 - 1, Week)
  {
    WeekText(year, week);
  }

  /** A week form is accepted exactly for the weeks 1 to 53 of such a year. */
  lemma WeekFormsAcceptedIff(s: string)
    ensures IsForm(s, Week) <==> exists y, w :: 1584 <= y <= 9999 && 1 <= w <= 53 && s == PrintWeek(y, w)
  {
    if IsForm(s, Week) { WeekPrints(s); }
    if exists y, w :: 1584 <= y <= 9999 && 1 <= w <= 53 && s == PrintWeek(y, w) {
      var y, w :| 1584 <= y <= 9999 && 1 <= w <= 53 && s == PrintWeek(y, w);
      WeekRoundTrip(y, w);
    }
  }

  lemma WeekPrints(s: string)
    requires Matches(s, WEEK_RE)
    ensures 0 <= Four(s) < 10000 && 0 <= Two(s, 6) < 100 && s == PrintWeek(Four(s), Two(s, 6))
  {
    assert IsDigit(s[6]) && IsDigit(s[7]) && s[4] == '-' && s[5] == 'W';
    YearPrints(s);
    PrintTwoReads(s[6..], Two(s, 6));
    assert s == s[..4] + ("-W" + s[6..]);
  }

  function PrintHour(d: Date, hour: int): string
    requires 0 <= d.year < 10000 && 0 <= d.month < 100 && 0 <= d.day < 100 && 0 <= hour < 100
  {
    PrintDay(d) + ("T" + PrintTwo(hour))
  }

  lemma HourText(d: Date, hour: int)
    requires 0 <= d.year < 10000 && 0 <= d.month < 100 && 0 <= d.day < 100 && 0 <= hour < 100
    ensures var s := PrintHour(d, hour); Matches(s, HOUR_RE) && WrittenDate(s) == d && Two(s, 11) == hour
  {
    var day, c, s := PrintDay(d), PrintTwo(hour), PrintHour(d, hour);
    PrintedDay(d);
    PrintTwoReads(c, hour);
    assert s[..10] == day && s[10] == 'T' && s[11] == c[0] && s[12] == c[1];
    DateDigits(s);
    SameDate(s, day);
  }

  lemma SameDate(s: string, day: string)
    requires |s| >= 10 && |day| == 10 && s[..10] == day
    ensures WrittenDate(s) == WrittenDate(day)
  {
    assert forall i | 0 <= i < 10 :: s[i] == day[i];
  }

  lemma HourRoundTrip(d: Date, hour: int)
    requires Accepted(d) && 0 <= hour <= 24
    ensures ParseIso8601(PrintHour(d, hour)) == Time(Midnight(d) + (hour + 1) * 3600 - 1, Hour)
  {
    HourText(d, hour);
  }

  /** An hour form is accepted exactly for the hours 0 to 24 of a date of such a year. */
  lemma HourFormsAcceptedIff(s: string)
    ensures IsForm(s, Hour) <==> exists d, h :: Accepted(d) && 0 <= h <= 24 && s == PrintHour(d, h)
  {
    if IsForm(s, Hour) { HourPrints(s); }
    if exists d, h :: Accepted(d) && 0 <= h <= 24 && s == PrintHour(d, h) {
      var d, h :| Accepted(d) && 0 <= h <= 24 && s == PrintHour(d, h);
      HourRoundTrip(d, h);
    }
  }

  lemma HourPrints(s: string)
    requires IsForm(s, Hour)
    ensures var d := WrittenDate(s); Accepted(d) && 0 <= Two(s, 11) <= 24 && s == PrintHour(d, Two(s, 11))
  {
    HourForm(s);
    DateForm(s);
    WrittenDayPrints(s[..10]);
    SameDate(s, s[..10]);
    PrintTwoReads(s[11..], Two(s, 11));
    assert s == s[..10] + ("T" + s[11..]);
  }

  /** The default of `modified_on` is the first second of the year 3000. */
  lemma FarIsYear3000()
    ensures Store.FAR == Midnight(Date(3000, 1, 1))
  {
  }
}
