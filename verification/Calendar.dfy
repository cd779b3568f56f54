// The calendar behind Date.UTC and toISOString: days since 1970-01-01, and dates as text.
module Calendar {
  import opened Text

  datatype Date = Date(year: nat, month: nat, day: nat)

  predicate Leap(y: int) {
    y % 4 == 0 && (y % 100 != 0 || y % 400 == 0)
  }

  function DaysInYear(y: int): int {
    if Leap(y) then 366 else 365
  }

  function DaysInMonth(leap: bool, m: nat): nat {
    if m == 2 then (if leap then 29 else 28)
    else if m == 4 || m == 6 || m == 9 || m == 11 then 30
    else 31
  }

  predicate Valid(d: Date) {
    1 <= d.month <= 12 && 1 <= d.day <= DaysInMonth(Leap(d.year), d.month)
  }

  /** Every fourth year is a leap year, but of the centuries only every fourth. */
  lemma LeapYears(y: int)
    ensures Leap(y) <==> (exists q :: y == 4 * q) && ((exists c :: y == 100 * c) ==> exists e :: y == 400 * e)
  {
    if y % 4 == 0 { assert y == 4 * (y / 4); }
    if y % 100 == 0 { assert y == 100 * (y / 100); }
    if y % 400 == 0 { assert y == 400 * (y / 400); }
  }

  /** January to December in a common year. */
  const LENGTHS: seq<nat> := [31, 28, 31, 30, 31, 30, 31, 31, 30, 31, 30, 31]

  lemma MonthLengths(leap: bool, m: nat)
    requires 1 <= m <= 12
    ensures DaysInMonth(leap, m) == LENGTHS[m - 1] + if leap && m == 2 then 1 else 0
  {
  }

  /** The day after, by the calendar alone. */
  function NextDay(d: Date): Date {
    if d.day < DaysInMonth(Leap(d.year), d.month) then Date(d.year, d.month, d.day + 1)
    else if d.month < 12 then Date(d.year, d.month + 1, 1)
    else Date(d.year + 1, 1, 1)
  }

  predicate Before(a: Date, b: Date) {
    a.year < b.year || (a.year == b.year && (a.month < b.month || (a.month == b.month && a.day < b.day)))
  }

  // ------------------------------------------------------------ day numbers

  /** DayFromYear of ECMA-262, section 21.4.1.3: the day number of January the first. */
  function DayFromYear(y: int): int {
    365 * (y - 1970) + (y - 1969) / 4 - (y - 1901) / 100 + (y - 1601) / 400
  }

  /** The days of a year before its month m. */
  function DaysBefore(leap: bool, m: nat): nat {
    if m <= 1 then 0 else DaysBefore(leap, m - 1) + DaysInMonth(leap, m - 1)
  }

  function DayNumber(d: Date): int {
    DayFromYear(d.year) + DaysBefore(Leap(d.year), d.month) + d.day - 1
  }

  lemma FourthYear(y: int)
    ensures (y - 1968) / 4 == (y - 1969) / 4 + if y % 4 == 0 then 1 else 0
  {
  }

  lemma HundredthYear(y: int)
    ensures (y - 1900) / 100 == (y - 1901) / 100 + if y % 100 == 0 then 1 else 0
  {
  }

  lemma FourHundredthYear(y: int)
    ensures (y - 1600) / 400 == (y - 1601) / 400 + if y % 400 == 0 then 1 else 0
  {
  }

  lemma CenturiesAreFourths(y: int)
    ensures (y % 400 == 0 ==> y % 100 == 0) && (y % 100 == 0 ==> y % 4 == 0)
  {
    if y % 100 == 0 { ManyHundreds(y, y / 100); }
    if y % 400 == 0 { ManyFourHundreds(y, y / 400); }
  }

  lemma ManyHundreds(y: int, q: int)
    requires y == 100 * q
    ensures y % 4 == 0
  {
  }

  lemma ManyFourHundreds(y: int, q: int)
    requires y == 400 * q
    ensures y % 100 == 0
  {
  }

  lemma YearLength(y: int)
    ensures DayFromYear(y + 1) == DayFromYear(y) + DaysInYear(y)
  {
    FourthYear(y);
    HundredthYear(y);
    FourHundredthYear(y);
    CenturiesAreFourths(y);
    NextYear(y, (y - 1968) / 4, (y - 1900) / 100, (y - 1600) / 400);
  }

  lemma NextYear(y: int, a: int, c: int, e: int)
    requires a == (y - 1968) / 4 && c == (y - 1900) / 100 && e == (y - 1600) / 400
    ensures DayFromYear(y + 1) == 365 * (y - 1969) + a - c + e
  {
  }

  lemma {:induction false} YearsGrow(y: nat, z: nat)
    requires y < z
    ensures DayFromYear(y) + DaysInYear(y) <= DayFromYear(z)
    decreases z
  {
    hide DayFromYear;
    YearLength(z - 1);
    if y < z - 1 { YearsGrow(y, z - 1); }
  }

  lemma MonthsFillYear(leap: bool)
    ensures DaysBefore(leap, 13) == if leap then 366 else 365
  {
    hide DaysBefore;
    MonthStep(leap, 1);
    MonthStep(leap, 2);
    MonthStep(leap, 3);
    MonthStep(leap, 4);
    MonthStep(leap, 5);
    MonthStep(leap, 6);
    MonthStep(leap, 7);
    MonthStep(leap, 8);
    MonthStep(leap, 9);
    MonthStep(leap, 10);
    MonthStep(leap, 11);
    MonthStep(leap, 12);
  }

  lemma MonthStep(leap: bool, m: nat)
    requires 1 <= m
    ensures DaysBefore(leap, m + 1) == DaysBefore(leap, m) + DaysInMonth(leap, m) && DaysBefore(leap, 1) == 0
  {
  }

  lemma {:induction false} MonthsGrow(leap: bool, m: nat, n: nat)
    requires 1 <= m < n
    ensures DaysBefore(leap, m) + DaysInMonth(leap, m) <= DaysBefore(leap, n)
  {
    hide DaysInMonth;
    if m < n - 1 { MonthsGrow(leap, m, n - 1); }
  }

  lemma DayInYear(d: Date)
    requires Valid(d)
    ensures 0 <= DayNumber(d) - DayFromYear(d.year) < DaysInYear(d.year)
  {
    hide DayFromYear, DaysInMonth;
    var leap := Leap(d.year);
    MonthsFillYear(leap);
    MonthsGrow(leap, d.month, 13);
  }

  /** Day numbers are in calendar order. */
  lemma DayNumbersInOrder(a: Date, b: Date)
    requires Valid(a) && Valid(b)
    ensures Before(a, b) <==> DayNumber(a) < DayNumber(b)
  {
    if Before(a, b) {
      Later(a, b);
    } else if a != b {
      Later(b, a);
    }
  }

  lemma Later(a: Date, b: Date)
    requires Valid(a) && Valid(b) && Before(a, b)
    ensures DayNumber(a) < DayNumber(b)
  {
    hide DayFromYear, DaysInMonth, DaysBefore;
    if a.year < b.year {
      YearsGrow(a.year, b.year);
      DayInYear(a);
      DayInYear(b);
    } else if a.month < b.month {
      MonthsGrow(Leap(a.year), a.month, b.month);
    }
  }

  /** No two dates share a day number. */
  lemma DayNumberInjective(a: Date, b: Date)
    requires Valid(a) && Valid(b) && DayNumber(a) == DayNumber(b)
    ensures a == b
  {
    DayNumbersInOrder(a, b);
    DayNumbersInOrder(b, a);
  }

  lemma NextDayNumber(d: Date)
    requires Valid(d)
    ensures Valid(NextDay(d)) && DayNumber(NextDay(d)) == DayNumber(d) + 1
  {
    hide DayFromYear;
    MonthsFillYear(Leap(d.year));
    YearLength(d.year);
  }

  // ------------------------------------------------------------ dates from day numbers

  /** YearFromTime: the last year that starts no later than the day. */
  function YearFromDay(n: int, y: nat): (r: nat)
    requires DayFromYear(y) <= n
    ensures DayFromYear(r) <= n < DayFromYear(r + 1)
    decreases n - DayFromYear(y)
  {
    YearLength(y);
    if DayFromYear(y + 1) <= n then YearFromDay(n, y + 1) else y
  }

  function MonthFromDay(leap: bool, k: nat, m: nat): (r: nat)
    requires 1 <= m <= 12 && DaysBefore(leap, m) <= k < DaysBefore(leap, 13)
    ensures 1 <= r <= 12 && DaysBefore(leap, r) <= k < DaysBefore(leap, r + 1)
    decreases 12 - m
  {
    if m < 12 && DaysBefore(leap, m + 1) <= k then MonthFromDay(leap, k, m + 1) else m
  }

  /** The date of a day no earlier than 0000-01-01. */
  function FromDay(n: int): (d: Date)
    requires DayFromYear(0) <= n
    ensures Valid(d) && DayNumber(d) == n
  {
    var y := YearFromDay(n, 0);
    var leap := Leap(y);
    YearLength(y);
    MonthsFillYear(leap);
    var k := n - DayFromYear(y);
    var m := MonthFromDay(leap, k, 1);
    Date(y, m, k - DaysBefore(leap, m) + 1)
  }

  /** Date.UTC reads back: a date is the only one with its day number. */
  lemma DayRoundTrip(d: Date)
    requires Valid(d)
    ensures DayFromYear(0) <= DayNumber(d) && FromDay(DayNumber(d)) == d
  {
    DayInYear(d);
    if d.year > 0 { YearsGrow(0, d.year); }
    hide DayFromYear, FromDay;
    DayNumberInjective(FromDay(DayNumber(d)), d);
  }

  /** shiftDate: add days on the day line. */
  function ShiftDate(d: Date, byDays: int): (r: Date)
    requires DayFromYear(0) <= DayNumber(d) + byDays
    ensures Valid(r) && DayNumber(r) == DayNumber(d) + byDays
  {
    FromDay(DayNumber(d) + byDays)
  }

  /** Shifting back by one day is the calendar's own predecessor. */
  lemma ShiftBackIsPredecessor(d: Date)
    requires Valid(d)
    ensures DayFromYear(0) <= DayNumber(NextDay(d)) - 1 && ShiftDate(NextDay(d), -1) == d
  {
    NextDayNumber(d);
    DayRoundTrip(d);
  }

  /** getUTCDay: Sunday is 0. */
  function Weekday(d: Date): (w: nat)
    ensures w < 7
  {
    (DayNumber(d) + 4) % 7
  }

  /** Day 0 is January the first of 1970, a Thursday. */
  lemma EpochIsThursday()
    ensures Valid(Date(1970, 1, 1)) && DayNumber(Date(1970, 1, 1)) == 0 && Weekday(Date(1970, 1, 1)) == 4
  {
    EpochYear();
    MonthStep(Leap(1970), 1);
    hide DayFromYear, DaysBefore, Leap;
  }

  lemma EpochYear()
    ensures DayFromYear(1970) == 0
  {
  }

  /** From each day to the next the weekday goes on by one, and after Saturday comes Sunday. */
  lemma WeekdayGoesOn(d: Date)
    requires Valid(d)
    ensures Weekday(NextDay(d)) == if Weekday(d) == 6 then 0 else Weekday(d) + 1
  {
    NextDayNumber(d);
    hide DayNumber, NextDay, Valid;
    NextSeventh(DayNumber(d) + 4);
  }

  lemma NextSeventh(n: int)
    ensures (n + 1) % 7 == if n % 7 == 6 then 0 else n % 7 + 1
  {
  }

  // ------------------------------------------------------------ dates as text

  /** The last k digits of a number. */
  function Pad(n: nat, k: nat): (s: string)
    ensures |s| == k
  {
    if k == 0 then "" else Pad(n / 10, k - 1) + [DIGITS[n % 10]]
  }

  predicate FitsIn(n: nat, k: nat) {
    if k == 0 then n == 0 else FitsIn(n / 10, k - 1)
  }

  /** Numerals of one width compare as their numbers do, then as what follows them does. */
  lemma {:induction false} PadOrder(a: nat, b: nat, k: nat, s: string, t: string)
    requires FitsIn(a, k) && FitsIn(b, k)
    ensures AtMost(Pad(a, k) + s, Pad(b, k) + t) <==> a < b || (a == b && AtMost(s, t))
  {
    hide Pad, AtMost, FitsIn;
    if k == 0 {
      PadNone(a, s);
      PadNone(b, t);
    } else {
      var d, e := [DIGITS[a % 10]], [DIGITS[b % 10]];
      PadNext(a, k, s);
      PadNext(b, k, t);
      PadOrder(a / 10, b / 10, k - 1, d + s, e + t);
      FirstDigitOrder(a % 10, b % 10, s, t);
    }
  }

  lemma PadNone(a: nat, s: string)
    requires FitsIn(a, 0)
    ensures a == 0 && Pad(a, 0) + s == s
  {
  }

  lemma PadNext(a: nat, k: nat, s: string)
    requires k > 0 && FitsIn(a, k)
    ensures FitsIn(a / 10, k - 1) && Pad(a, k) + s == Pad(a / 10, k - 1) + ([DIGITS[a % 10]] + s)
  {
  }

  lemma FirstDigitOrder(i: nat, j: nat, s: string, t: string)
    requires i < 10 && j < 10
    ensures AtMost([DIGITS[i]] + s, [DIGITS[j]] + t) <==> i < j || (i == j && AtMost(s, t))
  {
    DigitsAscend(i, j);
    DigitsAscend(j, i);
    assert ([DIGITS[i]] + s)[1..] == s && ([DIGITS[j]] + t)[1..] == t;
  }

  lemma DigitsAscend(i: nat, j: nat)
    requires i < 10 && j < 10
    ensures i < j ==> DIGITS[i] < DIGITS[j]
  {
  }

  /** toISOString().slice(0, 10). */
  function Iso(d: Date): string {
    Pad(d.year, 4) + ("-" + (Pad(d.month, 2) + ("-" + Pad(d.day, 2))))
  }

  lemma DashOrder(s: string, t: string)
    ensures AtMost("-" + s, "-" + t) <==> AtMost(s, t)
  {
    assert ("-" + s)[1..] == s && ("-" + t)[1..] == t;
  }

  /** Through the year 9999, text order is calendar order. */
  lemma IsoOrder(a: Date, b: Date)
    requires Valid(a) && Valid(b) && a.year <= 9999 && b.year <= 9999
    ensures AtMost(Iso(a), Iso(b)) <==> DayNumber(a) <= DayNumber(b)
  {
    assert AtMost(Iso(a), Iso(b)) <==> !Before(b, a) by { IsoFields(a, b); }
    hide DayNumber, Iso, AtMost, Valid;
    DayNumbersInOrder(b, a);
  }

  lemma IsoFields(a: Date, b: Date)
    requires Valid(a) && Valid(b) && a.year <= 9999 && b.year <= 9999
    ensures AtMost(Iso(a), Iso(b)) <==> !Before(b, a)
  {
    FourDigits(a.year);
    FourDigits(b.year);
    TwoDigits(a);
    TwoDigits(b);
    hide Pad, AtMost, FitsIn, Valid;
    var da, db := Pad(a.day, 2), Pad(b.day, 2);
    var ma, mb := Pad(a.month, 2) + ("-" + da), Pad(b.month, 2) + ("-" + db);
    PadOrder(a.year, b.year, 4, "-" + ma, "-" + mb);
    DashOrder(ma, mb);
    PadOrder(a.month, b.month, 2, "-" + da, "-" + db);
    DashOrder(da, db);
    PadOrder(a.day, b.day, 2, "", "");
    AtMostReflexive("");
    assert da + "" == da && db + "" == db;
  }

  lemma FourDigits(n: nat)
    requires n <= 9999
    ensures FitsIn(n, 4)
  {
    assert FitsIn(n / 10 / 10 / 10 / 10, 0);
    assert FitsIn(n / 10 / 10 / 10, 1);
    assert FitsIn(n / 10 / 10, 2);
  }

  lemma TwoDigits(d: Date)
    requires Valid(d)
    ensures FitsIn(d.month, 2) && FitsIn(d.day, 2)
  {
    assert d.day <= 31;
    assert FitsIn(d.day / 10 / 10, 0);
    assert FitsIn(d.day / 10, 1);
    assert FitsIn(d.month / 10, 1);
  }
}
