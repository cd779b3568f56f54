// Whether a scheduled rule is in force: windows on the wall clock that may cross midnight.
module Schedule {
  import opened Calendar
  import opened Canonical
  import opened Options
  import opened Text

  /** A rule as validation leaves it; a date limit that is not set is "". */
  datatype Rule = Rule(id: string, name: string, startTime: string, endTime: string, startDate: string, endDate: string,
                       days: seq<int>, patch: map<string, Json>, enabled: bool)

  /** A wall-clock reading: a date and the minutes since midnight. */
  datatype Now = Now(date: Date, minute: nat)

  const DAY: nat := 1440

  predicate Reading(now: Now) {
    Valid(now.date) && 1000 <= now.date.year <= 9999 && now.minute < 24 * 60
  }

  datatype Verdict =
    | Disabled
    | NotATime(text: string)
    | OutsideWindow
    | WrongWeekday(weekday: nat)
    | BeforeStart
    | AfterEnd
    | Active(startedOn: string)

  // ------------------------------------------------------------ times of day

  predicate IsDigit(c: char) {
    '0' <= c <= '9'
  }

  function DigitValue(c: char): (v: nat)
    requires IsDigit(c)
    ensures v < 10 && DIGITS[v] == c
  {
    c as int - '0' as int
  }

  function TwoDigitValue(tens: char, units: char): (v: nat)
    requires IsDigit(tens) && IsDigit(units)
    ensures v < 100 && Pad(v, 2) == [tens, units]
  {
    PadPair(DigitValue(tens), DigitValue(units));
    10 * DigitValue(tens) + DigitValue(units)
  }

  /** Two digits, a colon, two digits, and a time that exists. */
  function ParseFive(text: string): Option<nat>
    requires |text| == 5
  {
    if IsDigit(text[0]) && IsDigit(text[1]) && text[2] == ':' && IsDigit(text[3]) && IsDigit(text[4]) then
      var hour, minute := TwoDigitValue(text[0], text[1]), TwoDigitValue(text[3], text[4]);
      if hour > 23 || minute > 59 then None else Some(hour * 60 + minute)
    else None
  }

  /** parseTime: the hour may be written with one digit or two. */
  function ParseTime(text: string): Option<nat> {
    if |text| == 4 then ParseFive("0" + text)
    else if |text| == 5 then ParseFive(text)
    else None
  }

  /** HH:MM */
  function Clock(m: nat): string {
    Pad(m / 60, 2) + ":" + Pad(m % 60, 2)
  }

  /** H:MM, for hours of one digit */
  function ShortClock(m: nat): string {
    Pad(m / 60, 1) + ":" + Pad(m % 60, 2)
  }

  lemma PadOne(n: nat)
    ensures Pad(n, 1) == [DIGITS[n % 10]]
  {
    assert Pad(n / 10, 0) == "";
  }

  lemma PadTwo(n: nat)
    requires n < 100
    ensures Pad(n, 2) == [DIGITS[n / 10], DIGITS[n % 10]]
  {
    PadOne(n / 10);
  }

  lemma TensAndUnits(t: nat, u: nat)
    requires u < 10
    ensures (10 * t + u) / 10 == t && (10 * t + u) % 10 == u
  {
  }

  lemma HoursAndMinutes(hour: nat, minute: nat)
    requires minute < 60
    ensures (hour * 60 + minute) / 60 == hour && (hour * 60 + minute) % 60 == minute
  {
  }

  lemma PadPair(t: nat, u: nat)
    requires t < 10 && u < 10
    ensures Pad(10 * t + u, 2) == [DIGITS[t], DIGITS[u]]
  {
    hide Pad;
    TensAndUnits(t, u);
    PadTwo(10 * t + u);
  }

  lemma DigitBack(i: nat)
    requires i < 10
    ensures IsDigit(DIGITS[i]) && DigitValue(DIGITS[i]) == i
  {
    DigitInjective(i, DigitValue(DIGITS[i]));
  }

  lemma TwoDigitsBack(n: nat)
    requires n < 100
    ensures Pad(n, 2) == [DIGITS[n / 10], DIGITS[n % 10]] && IsDigit(DIGITS[n / 10]) && IsDigit(DIGITS[n % 10])
    ensures TwoDigitValue(DIGITS[n / 10], DIGITS[n % 10]) == n
  {
    PadTwo(n);
    DigitBack(n / 10);
    DigitBack(n % 10);
  }

  lemma FiveIsClock(text: string)
    requires |text| == 5 && ParseFive(text).Some?
    ensures ParseFive(text).value < DAY && text == Clock(ParseFive(text).value)
  {
    hide Pad;
    var hour, minute := TwoDigitValue(text[0], text[1]), TwoDigitValue(text[3], text[4]);
    assert text == Pad(hour, 2) + ":" + Pad(minute, 2);
    HoursAndMinutes(hour, minute);
  }

  lemma ClockIsFive(m: nat)
    requires m < DAY
    ensures |Clock(m)| == 5 && ParseFive(Clock(m)) == Some(m)
  {
    hide Pad, ParseFive;
    HourAndRest(m);
    FiveOfPads(m / 60, m % 60);
  }

  lemma HourAndRest(m: nat)
    requires m < DAY
    ensures m / 60 < 24 && m / 60 * 60 + m % 60 == m
  {
  }

  lemma FiveOfPads(h: nat, n: nat)
    requires h < 24 && n < 60
    ensures var text := Pad(h, 2) + ":" + Pad(n, 2); |text| == 5 && ParseFive(text) == Some(h * 60 + n)
  {
    TwoDigitsBack(h);
    TwoDigitsBack(n);
    hide Pad, TwoDigitValue, IsDigit, ParseFive;
    FiveDigits(Pad(h, 2) + ":" + Pad(n, 2), h, n);
  }

  lemma FiveDigits(text: string, h: nat, n: nat)
    requires |text| == 5 && text[2] == ':' && h < 24 && n < 60
    requires IsDigit(text[0]) && IsDigit(text[1]) && IsDigit(text[3]) && IsDigit(text[4])
    requires TwoDigitValue(text[0], text[1]) == h && TwoDigitValue(text[3], text[4]) == n
    ensures ParseFive(text) == Some(h * 60 + n)
  {
    hide IsDigit, TwoDigitValue;
  }

  lemma FiveReads(text: string, m: nat)
    requires |text| == 5
    ensures ParseFive(text) == Some(m) <==> m < DAY && text == Clock(m)
  {
    hide ParseFive, Clock;
    if ParseFive(text).Some? { FiveIsClock(text); }
    if m < DAY { ClockIsFive(m); }
  }

  /** An hour of one digit is the two-digit one without its zero. */
  lemma ShortClockPads(m: nat)
    requires m < DAY
    ensures m < 600 ==> "0" + ShortClock(m) == Clock(m)
    ensures m >= 600 ==> Clock(m)[0] != '0'
  {
    PadTwo(m / 60);
    PadOne(m / 60);
    DigitsAscend(0, m / 60 / 10);
    hide Pad;
    assert m < 600 <==> m / 60 / 10 == 0;
  }

  /** A text reads as a time exactly when it is one of that time's writings. */
  lemma ParseTimeReads(text: string, m: nat)
    ensures ParseTime(text) == Some(m) <==> m < DAY && (text == Clock(m) || (m < 600 && text == ShortClock(m)))
  {
    hide ParseFive, Pad;
    assert |Clock(m)| == 5 && |ShortClock(m)| == 4;
    if |text| == 5 { FiveReads(text, m); }
    if |text| == 4 {
      FiveReads("0" + text, m);
      assert ("0" + text)[1..] == text;
      if m < DAY {
        ShortClockPads(m);
        assert ("0" + ShortClock(m))[1..] == ShortClock(m);
      }
    }
  }

  lemma ParsedInDay(text: string)
    ensures ParseTime(text).Some? ==> ParseTime(text).value < DAY
  {
    if ParseTime(text).Some? { ParseTimeReads(text, ParseTime(text).value); }
  }

  // ------------------------------------------------------------ evaluate

  /** The day a window that holds this reading would have begun on. */
  function StartedOn(start: nat, end: nat, now: Now): Option<Date>
    requires Reading(now) && start < DAY && end < DAY
  {
    if start == end then Some(now.date)
    else if start < end then (if now.minute < start || now.minute >= end then None else Some(now.date))
    else if now.minute >= start then Some(now.date)
    else if now.minute < end then YearOneOn(now.date); Some(ShiftDate(now.date, -1))
    else None
  }

  lemma YearOneOn(d: Date)
    requires Valid(d) && d.year >= 1
    ensures DayFromYear(0) <= DayNumber(d) - 1
  {
    YearsGrow(0, d.year);
    DayInYear(d);
    hide DayFromYear, DayNumber;
  }

  function Evaluate(rule: Rule, now: Now): Verdict
    requires Reading(now)
  {
    if !rule.enabled then Disabled
    else
      match (ParseTime(rule.startTime), ParseTime(rule.endTime))
      case (None, _) => NotATime(rule.startTime)
      case (Some(_), None) => NotATime(rule.endTime)
      case (Some(start), Some(end)) =>
        ParsedInDay(rule.startTime);
        ParsedInDay(rule.endTime);
        match StartedOn(start, end, now)
        case None => OutsideWindow
        case Some(day) =>
          if Weekday(day) !in rule.days then WrongWeekday(Weekday(day))
          else if rule.startDate != "" && !AtMost(rule.startDate, Iso(day)) then BeforeStart
          else if rule.endDate != "" && !AtMost(Iso(day), rule.endDate) then AfterEnd
          else Active(Iso(day))
  }

  // ------------------------------------------------------------ what a rule means

  /** Minutes on one line: day by day, without a break at midnight. */
  function Moment(now: Now): int {
    DayNumber(now.date) * 24 * 60 + now.minute
  }

  /** A window that begins on day d lasts (end - start) mod 1440 minutes, or all of d if that is none. */
  predicate InWindow(start: nat, end: nat, d: Date, now: Now) {
    if start == end then DayNumber(d) * 24 * 60 <= Moment(now) < (DayNumber(d) + 1) * 24 * 60
    else
      var begins := DayNumber(d) * 24 * 60 + start;
      begins <= Moment(now) < begins + (end - start) % (24 * 60)
  }

  /** The rule names the weekday of the day, and its date limits, if any, hold it. */
  predicate Covers(rule: Rule, d: Date) {
    && Weekday(d) in rule.days
    && (rule.startDate == "" || AtMost(rule.startDate, Iso(d)))
    && (rule.endDate == "" || AtMost(Iso(d), rule.endDate))
  }

  /** A window that holds a reading began on the day evaluate says, and only on that day. */
  lemma WindowDay(start: nat, end: nat, now: Now, d: Date)
    requires Reading(now) && start < DAY && end < DAY && Valid(d)
    ensures InWindow(start, end, d, now) <==> StartedOn(start, end, now) == Some(d)
  {
    hide DayNumber, Valid;
    var n, k := DayNumber(now.date), DayNumber(d);
    var length := (end - start) % DAY;
    assert length == if end < start then end - start + DAY else end - start;
    if n == k { DayNumberInjective(now.date, d); }
    if k == n - 1 {
      YearOneOn(now.date);
      DayNumberInjective(ShiftDate(now.date, -1), d);
    }
    NearDays(n, k, now.minute, start, length, end);
  }

  lemma NearDays(n: int, k: int, minute: nat, start: nat, length: nat, end: nat)
    requires minute < DAY && start < DAY && end < DAY
    requires length == if end < start then end - start + DAY else end - start
    ensures start != end ==>
      (k * DAY + start <= n * DAY + minute < k * DAY + start + length <==>
       (k == n && start <= minute && (end < start || minute < end)) || (k == n - 1 && end < start && minute < end))
    ensures k * DAY <= n * DAY + minute < (k + 1) * DAY <==> k == n
  {
  }

  /** At most one day's window holds a reading. */
  lemma WindowDayUnique(start: nat, end: nat, now: Now, d: Date, e: Date)
    requires Reading(now) && start < DAY && end < DAY && Valid(d) && Valid(e)
    requires InWindow(start, end, d, now) && InWindow(start, end, e, now)
    ensures d == e
  {
    WindowDay(start, end, now, d);
    WindowDay(start, end, now, e);
  }

  /** The rule is in force at a reading, in a window that began on day d. */
  predicate InForce(rule: Rule, now: Now, d: Date) {
    && rule.enabled && Valid(d) && Covers(rule, d)
    && match (ParseTime(rule.startTime), ParseTime(rule.endTime))
       case (Some(start), Some(end)) => InWindow(start, end, d, now)
       case _ => false
  }

  lemma StartedOnValid(start: nat, end: nat, now: Now)
    requires Reading(now) && start < DAY && end < DAY
    ensures StartedOn(start, end, now).Some? ==> Valid(StartedOn(start, end, now).value)
  {
    hide ShiftDate;
  }

  /** evaluate is active exactly when some day's window is in force, and says which day. */
  lemma EvaluateMeans(rule: Rule, now: Now)
    requires Reading(now)
    ensures Evaluate(rule, now).Active? <==> exists d :: InForce(rule, now, d)
    ensures forall d :: InForce(rule, now, d) ==> Evaluate(rule, now) == Active(Iso(d))
  {
    hide ParseTime, StartedOn, InWindow, Iso, AtMost, Weekday, Valid;
    if ParseTime(rule.startTime).Some? && ParseTime(rule.endTime).Some? {
      ParsedInDay(rule.startTime);
      ParsedInDay(rule.endTime);
      var start, end := ParseTime(rule.startTime).value, ParseTime(rule.endTime).value;
      StartedOnValid(start, end, now);
      forall d | Valid(d) ensures InWindow(start, end, d, now) <==> StartedOn(start, end, now) == Some(d) {
        WindowDay(start, end, now, d);
      }
      if Evaluate(rule, now).Active? {
        var day := StartedOn(start, end, now).value;
        assert InForce(rule, now, day);
      }
    }
  }

  /** evaluate says "outside the window" exactly when no day's window holds the reading. */
  lemma OutsideMeans(rule: Rule, now: Now, start: nat, end: nat)
    requires Reading(now) && rule.enabled
    requires ParseTime(rule.startTime) == Some(start) && ParseTime(rule.endTime) == Some(end)
    ensures start < DAY && end < DAY
    ensures Evaluate(rule, now) == OutsideWindow <==> forall d :: Valid(d) ==> !InWindow(start, end, d, now)
  {
    hide ParseTime, StartedOn, InWindow, Iso, AtMost, Weekday, Valid;
    ParsedInDay(rule.startTime);
    ParsedInDay(rule.endTime);
    StartedOnValid(start, end, now);
    forall d | Valid(d) ensures InWindow(start, end, d, now) <==> StartedOn(start, end, now) == Some(d) {
      WindowDay(start, end, now, d);
    }
  }

  /** Every other verdict says what is wrong: first with the rule, then with the day its window began on. */
  lemma VerdictMeans(rule: Rule, now: Now, start: nat, end: nat, d: Date)
    requires Reading(now) && rule.enabled && Valid(d)
    requires ParseTime(rule.startTime) == Some(start) && ParseTime(rule.endTime) == Some(end)
    requires start < DAY && end < DAY && InWindow(start, end, d, now)
    ensures var v, early := Evaluate(rule, now), rule.startDate != "" && !AtMost(rule.startDate, Iso(d));
            && (v == WrongWeekday(Weekday(d)) <==> Weekday(d) !in rule.days)
            && (v == BeforeStart <==> Weekday(d) in rule.days && early)
            && (v == AfterEnd <==>
                Weekday(d) in rule.days && !early && rule.endDate != "" && !AtMost(Iso(d), rule.endDate))
  {
    hide ParseTime, StartedOn, InWindow, Iso, AtMost, Weekday, Valid;
    WindowDay(start, end, now, d);
  }

  /** A disabled rule is not looked at; of an enabled one, the first time that cannot be read is named. */
  lemma VerdictOnRule(rule: Rule, now: Now)
    requires Reading(now)
    ensures Evaluate(rule, now) == Disabled <==> !rule.enabled
    ensures rule.enabled && ParseTime(rule.startTime).None? ==> Evaluate(rule, now) == NotATime(rule.startTime)
    ensures rule.enabled && ParseTime(rule.startTime).Some? && ParseTime(rule.endTime).None? ==>
      Evaluate(rule, now) == NotATime(rule.endTime)
  {
    hide ParseTime, StartedOn;
  }

  /** Date limits that are real dates hold a day exactly when the calendar does. */
  lemma CoversByCalendar(rule: Rule, from: Date, to: Date, d: Date)
    requires Valid(from) && Valid(to) && Valid(d) && from.year <= 9999 && to.year <= 9999 && d.year <= 9999
    requires rule.startDate == Iso(from) && rule.endDate == Iso(to)
    ensures Covers(rule, d) <==> Weekday(d) in rule.days && DayNumber(from) <= DayNumber(d) <= DayNumber(to)
  {
    hide Iso, AtMost, DayNumber, Weekday, Valid;
    IsoOrder(from, d);
    IsoOrder(d, to);
    IsoNotEmpty(from);
    IsoNotEmpty(to);
  }

  lemma IsoNotEmpty(d: Date)
    ensures Iso(d) != ""
  {
    assert |Pad(d.year, 4)| == 4;
  }

  /** A Friday-night window reaches into Saturday whether or not Saturday is listed. */
  lemma MorningBelongsToYesterday(rule: Rule, yesterday: Date, minute: nat, start: nat, end: nat)
    requires Valid(yesterday) && 1000 <= yesterday.year && NextDay(yesterday).year <= 9999
    requires ParseTime(rule.startTime) == Some(start) && ParseTime(rule.endTime) == Some(end)
    requires minute < end < start < DAY && rule.enabled
    ensures Reading(Now(NextDay(yesterday), minute))
    ensures Evaluate(rule, Now(NextDay(yesterday), minute)).Active? <==> Covers(rule, yesterday)
    ensures Covers(rule, yesterday) ==> Evaluate(rule, Now(NextDay(yesterday), minute)) == Active(Iso(yesterday))
  {
    NextDayNumber(yesterday);
    YearOneOn(NextDay(yesterday));
    ShiftBackIsPredecessor(yesterday);
    hide ParseTime, Iso, AtMost, Weekday, Valid, ShiftDate, DayNumber, DayFromYear, NextDay, Covers;
    MorningStart(rule, NextDay(yesterday), minute, start, end);
  }

  lemma MorningStart(rule: Rule, today: Date, minute: nat, start: nat, end: nat)
    requires Reading(Now(today, minute)) && minute < end < start < DAY && rule.enabled
    requires ParseTime(rule.startTime) == Some(start) && ParseTime(rule.endTime) == Some(end)
    ensures DayFromYear(0) <= DayNumber(today) - 1
    ensures var day := ShiftDate(today, -1);
            && (Evaluate(rule, Now(today, minute)).Active? <==> Covers(rule, day))
            && (Covers(rule, day) ==> Evaluate(rule, Now(today, minute)) == Active(Iso(day)))
  {
    hide ParseTime, Iso, AtMost, Weekday, Valid, ShiftDate, DayNumber, DayFromYear, NextDay;
    YearOneOn(today);
  }
}
