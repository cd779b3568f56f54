// Validating a schedule before it is stored or used.
module Validation {
  import opened Calendar
  import opened Canonical
  import opened Options
  import opened Precedence
  import opened Schedule
  import opened Text

  const MAX_RULES := 64
  const MAX_ID_LENGTH := 64
  const MAX_NAME_LENGTH := 80
  const MAX_PATCH_KEYS := 12

  const SCHEDULABLE := {"theme", "language", "funnyEn", "funnyZh", "narratorOn", "appearanceProfile"}

  /** A rule as it is offered; what may be left out is an option, and "" is as good as nothing. */
  datatype Offer = Offer(id: string, name: string, startTime: Option<string>, endTime: Option<string>,
                         startDate: string, endDate: string, days: Option<seq<int>>, patch: map<string, Json>,
                          enabled: bool)

  datatype Fault =
    | NoId | LongId | BadId | BadTime | BadDate | EndsFirst | NoDays | BadDay | ManyKeys | BadKey | NoChange

  datatype Validated = Ok(rule: Rule) | Refused(fault: Fault)

  predicate IdChar(c: char) {
    'a' <= c <= 'z' || 'A' <= c <= 'Z' || '0' <= c <= '9' || c == '.' || c == '_' || c == '-'
  }

  predicate IdText(s: string) {
    forall i :: 0 <= i < |s| ==> IdChar(s[i])
  }

  /** parseDate: four digits, two digits, two digits. */
  predicate DateShape(s: string) {
    |s| == 10 && forall i :: 0 <= i < 10 ==> if i == 4 || i == 7 then s[i] == '-' else IsDigit(s[i])
  }

  /** Into a list in ascending order, once. */
  function InsertDay(d: int, days: seq<int>): (r: seq<int>)
    ensures forall x :: x in r <==> x == d || x in days
  {
    if days == [] || d < days[0] then [d] + days
    else if d == days[0] then days
    else
      assert days == [days[0]] + days[1..];
      [days[0]] + InsertDay(d, days[1..])
  }

  lemma {:induction false} InsertAscends(d: int, days: seq<int>)
    requires Ascending(days)
    ensures Ascending(InsertDay(d, days))
  {
    if days != [] && d > days[0] {
      InsertAscends(d, days[1..]);
      var rest := InsertDay(d, days[1..]);
      forall i | 0 <= i < |rest| ensures days[0] < rest[i] {
        assert rest[i] in rest;
      }
    }
  }

  predicate Ascending(days: seq<int>) {
    forall i, j :: 0 <= i < j < |days| ==> days[i] < days[j]
  }

  /** [...new Set(days)].sort((a, b) => a - b) */
  function SortedDays(days: seq<int>): (r: seq<int>)
    ensures Ascending(r) && forall x :: x in r <==> x in days
  {
    if days == [] then []
    else
      assert days == [days[0]] + days[1..];
      InsertAscends(days[0], SortedDays(days[1..]));
      InsertDay(days[0], SortedDays(days[1..]))
  }

  lemma {:induction false} SortedDaysKept(days: seq<int>)
    requires Ascending(days)
    ensures SortedDays(days) == days
  {
    if days != [] {
      SortedDaysKept(days[1..]);
      assert days == [days[0]] + days[1..];
    }
  }

  function OrMidnight(time: Option<string>): string {
    if time.Some? then time.value else "00:00"
  }

  /** The rule an offer comes to, if nothing is wrong with it. */
  function Normalised(trim: string -> string, o: Offer): Rule {
    Rule(trim(o.id), Slice(if o.name == "" then trim(o.id) else o.name, MAX_NAME_LENGTH),
         OrMidnight(o.startTime), OrMidnight(o.endTime), o.startDate, o.endDate,
         SortedDays(if o.days.Some? then o.days.value else [0, 1, 2, 3, 4, 5, 6]), o.patch, o.enabled)
  }

  /** What is wrong with a rule, in the order the checks are made. */
  function FaultOf(r: Rule): Option<Fault> {
    if r.id == "" then Some(NoId)
    else if |r.id| > MAX_ID_LENGTH then Some(LongId)
    else if !IdText(r.id) then Some(BadId)
    else if ParseTime(r.startTime).None? || ParseTime(r.endTime).None? then Some(BadTime)
    else if (r.startDate != "" && !DateShape(r.startDate)) || (r.endDate != "" && !DateShape(r.endDate))
    then Some(BadDate)
    else if r.startDate != "" && r.endDate != "" && !AtMost(r.startDate, r.endDate) then Some(EndsFirst)
    else if r.days == [] then Some(NoDays)
    else if !SundayToSaturday(r.days) then Some(BadDay)
    else if |r.patch| > MAX_PATCH_KEYS then Some(ManyKeys)
    else if !(r.patch.Keys <= SCHEDULABLE) then Some(BadKey)
    else if r.patch == map[] then Some(NoChange)
    else None
  }

  predicate SundayToSaturday(days: seq<int>) {
    forall i :: 0 <= i < |days| ==> 0 <= days[i] <= 6
  }

  /** validateRule */
  function ValidateRule(trim: string -> string, o: Offer): Validated {
    match FaultOf(Normalised(trim, o))
    case Some(fault) => Refused(fault)
    case None => Ok(Normalised(trim, o))
  }

  /** The same rule, offered again. */
  function Reoffered(r: Rule): Offer {
    Offer(r.id, r.name, Some(r.startTime), Some(r.endTime), r.startDate, r.endDate, Some(r.days), r.patch, r.enabled)
  }

  // ------------------------------------------------------------ what is accepted, read off the offer

  function Offered(days: Option<seq<int>>): set<int> {
    match days
    case None => {0, 1, 2, 3, 4, 5, 6}
    case Some(ds) => set d | d in ds
  }

  /** An accepted rule is the offer's, field by field; what was left out has its usual value. */
  lemma AcceptedIsOffered(trim: string -> string, o: Offer)
    requires ValidateRule(trim, o).Ok?
    ensures var r := ValidateRule(trim, o).rule;
            && r.id == trim(o.id)
            && |r.name| <= 80 && r.name <= (if o.name == "" then r.id else o.name)
            && (|r.name| < 80 ==> r.name == if o.name == "" then r.id else o.name)
            && r.startTime == (match o.startTime case None => "00:00" case Some(t) => t)
            && r.endTime == (match o.endTime case None => "00:00" case Some(t) => t)
            && r.startDate == o.startDate && r.endDate == o.endDate
            && Ascending(r.days) && (set d | d in r.days) == Offered(o.days)
            && r.patch == o.patch && r.enabled == o.enabled
  {
    hide FaultOf;
  }

  /** A letter without accents, a digit, or one of three signs. */
  predicate Plain(c: char) {
    'a' <= c <= 'z' || 'A' <= c <= 'Z' || c in DIGITS || c in {'.', '_', '-'}
  }

  /** A date as it is written, be it one of the calendar or not. */
  predicate WrittenDate(d: Date, s: string) {
    d.year <= 9999 && d.month <= 99 && d.day <= 99 && s == Iso(d)
  }

  /** The check that the fault is named for, on what was offered. */
  ghost predicate Meets(trim: string -> string, o: Offer, fault: Fault) {
    var id := trim(o.id);
    var start, end := OrMidnight(o.startTime), OrMidnight(o.endTime);
    match fault
    case NoId => id != ""
    case LongId => |id| <= 64
    case BadId => forall c :: c in id ==> Plain(c)
    case BadTime => ParseTime(start).Some? && ParseTime(end).Some?
    case BadDate =>
      && (o.startDate != "" ==> exists d :: WrittenDate(d, o.startDate))
      && (o.endDate != "" ==> exists d :: WrittenDate(d, o.endDate))
    case EndsFirst => o.startDate != "" && o.endDate != "" ==> AtMost(o.startDate, o.endDate)
    case NoDays => Offered(o.days) != {}
    case BadDay => Offered(o.days) <= {0, 1, 2, 3, 4, 5, 6}
    case ManyKeys => |o.patch| <= 12
    case BadKey => o.patch.Keys <= {"theme", "language", "funnyEn", "funnyZh", "narratorOn", "appearanceProfile"}
    case NoChange => o.patch.Keys != {}
  }

  /** The checks in the order they are made. */
  const CHECKS: seq<Fault> :=
    [NoId, LongId, BadId, BadTime, BadDate, EndsFirst, NoDays, BadDay, ManyKeys, BadKey, NoChange]

  lemma IdTextReads(s: string)
    ensures IdText(s) <==> forall c :: c in s ==> Plain(c)
  {
    forall c: char ensures IdChar(c) <==> Plain(c) {
      DigitReads(c);
    }
    hide IdChar, Plain;
  }

  lemma DigitReads(c: char)
    ensures c in DIGITS <==> '0' <= c <= '9'
  {
    if '0' <= c <= '9' { assert DIGITS[c as int - '0' as int] == c; }
  }

  lemma TwoPads(t: nat, u: nat)
    requires t < 100 && u < 100
    ensures Pad(100 * t + u, 4) == Pad(t, 2) + Pad(u, 2)
  {
    assert (100 * t + u) / 10 / 10 == t && (100 * t + u) / 10 % 10 == u / 10 && (100 * t + u) % 10 == u % 10;
    assert Pad(100 * t + u, 2 + 2) == Pad((100 * t + u) / 10 / 10, 2) + [DIGITS[(100 * t + u) / 10 % 10]]
                                      + [DIGITS[(100 * t + u) % 10]];
    PadTwo(u);
  }

  /** Ten characters have the shape of a date if and only if they are one as it is written. */
  lemma DateShapeReads(s: string)
    ensures DateShape(s) <==> exists d :: WrittenDate(d, s)
  {
    if DateShape(s) {
      ShapeIsWritten(s);
    }
    if d :| WrittenDate(d, s) {
      WrittenHasShape(d);
    }
  }

  lemma ShapeIsWritten(s: string)
    requires DateShape(s)
    ensures exists d :: WrittenDate(d, s)
  {
    hide DateShape, IsDigit, Pad, TwoDigitValue;
    ShapeParts(s);
    var t, u := TwoDigitValue(s[0], s[1]), TwoDigitValue(s[2], s[3]);
    var m, d := TwoDigitValue(s[5], s[6]), TwoDigitValue(s[8], s[9]);
    TwoPads(t, u);
    TenCharacters(s, Pad(t, 2), Pad(u, 2), Pad(m, 2), Pad(d, 2));
    assert WrittenDate(Date(100 * t + u, m, d), s);
  }

  lemma ShapeParts(s: string)
    requires DateShape(s)
    ensures |s| == 10 && s[4] == '-' && s[7] == '-'
    ensures IsDigit(s[0]) && IsDigit(s[1]) && IsDigit(s[2]) && IsDigit(s[3])
    ensures IsDigit(s[5]) && IsDigit(s[6]) && IsDigit(s[8]) && IsDigit(s[9])
  {
    hide IsDigit;
  }

  lemma TenCharacters(s: string, c: string, y: string, m: string, d: string)
    requires |s| == 10 && s[4] == '-' && s[7] == '-'
    requires c == [s[0], s[1]] && y == [s[2], s[3]] && m == [s[5], s[6]] && d == [s[8], s[9]]
    ensures s == c + y + ("-" + (m + ("-" + d)))
  {
  }

  lemma WrittenHasShape(d: Date)
    requires d.year <= 9999 && d.month <= 99 && d.day <= 99
    ensures DateShape(Iso(d))
  {
    hide Pad, IsDigit, DateShape;
    TwoPads(d.year / 100, d.year % 100);
    TwoDigitsBack(d.year / 100);
    TwoDigitsBack(d.year % 100);
    TwoDigitsBack(d.month);
    TwoDigitsBack(d.day);
    PairsHaveShape(Pad(d.year / 100, 2), Pad(d.year % 100, 2), Pad(d.month, 2), Pad(d.day, 2));
  }

  lemma PairsHaveShape(c: string, y: string, m: string, d: string)
    requires |c| == |y| == |m| == |d| == 2
    requires IsDigit(c[0]) && IsDigit(c[1]) && IsDigit(y[0]) && IsDigit(y[1])
    requires IsDigit(m[0]) && IsDigit(m[1]) && IsDigit(d[0]) && IsDigit(d[1])
    ensures DateShape(c + y + ("-" + (m + ("-" + d))))
  {
    hide IsDigit;
  }

  lemma ChecksOfNormalised(trim: string -> string, o: Offer)
    ensures var r := Normalised(trim, o);
            && r.id == trim(o.id) && r.startDate == o.startDate && r.endDate == o.endDate && r.patch == o.patch
            && r.startTime == OrMidnight(o.startTime) && r.endTime == OrMidnight(o.endTime)
            && (r.days == [] <==> Offered(o.days) == {})
            && (SundayToSaturday(r.days) <==> Offered(o.days) <= {0, 1, 2, 3, 4, 5, 6})
  {
    DaysOfNormalised(trim, o);
    hide Slice, SortedDays, Offered;
    DaysRead(Normalised(trim, o).days, Offered(o.days));
  }

  lemma DaysOfNormalised(trim: string -> string, o: Offer)
    ensures forall d :: d in Normalised(trim, o).days <==> d in Offered(o.days)
  {
    hide Slice;
  }

  lemma DaysRead(days: seq<int>, offered: set<int>)
    requires forall d :: d in days <==> d in offered
    ensures days == [] <==> offered == {}
    ensures SundayToSaturday(days) <==> offered <= {0, 1, 2, 3, 4, 5, 6}
  {
    if days != [] { assert days[0] in days; }
    forall d | SundayToSaturday(days) && d in offered ensures d in {0, 1, 2, 3, 4, 5, 6} {
      assert d in days;
    }
    forall i | 0 <= i < |days| && offered <= {0, 1, 2, 3, 4, 5, 6} ensures 0 <= days[i] <= 6 {
      assert days[i] in days;
    }
  }

  lemma FaultMeans(trim: string -> string, o: Offer, fault: Fault)
    ensures Meets(trim, o, fault) <==> PassesCheck(Normalised(trim, o), fault)
  {
    hide Normalised, SortedDays, IdText, DateShape, SundayToSaturday, ParseTime, AtMost, Offered, WrittenDate;
    ChecksOfNormalised(trim, o);
    IdTextReads(trim(o.id));
    DateShapeReads(o.startDate);
    DateShapeReads(o.endDate);
  }

  /** The same check on the rule an offer comes to. */
  predicate PassesCheck(r: Rule, fault: Fault) {
    match fault
    case NoId => r.id != ""
    case LongId => |r.id| <= MAX_ID_LENGTH
    case BadId => IdText(r.id)
    case BadTime => ParseTime(r.startTime).Some? && ParseTime(r.endTime).Some?
    case BadDate => (r.startDate == "" || DateShape(r.startDate)) && (r.endDate == "" || DateShape(r.endDate))
    case EndsFirst => r.startDate == "" || r.endDate == "" || AtMost(r.startDate, r.endDate)
    case NoDays => r.days != []
    case BadDay => SundayToSaturday(r.days)
    case ManyKeys => |r.patch| <= MAX_PATCH_KEYS
    case BadKey => r.patch.Keys <= SCHEDULABLE
    case NoChange => r.patch != map[]
  }

  lemma FirstFailure(r: Rule, i: nat)
    requires i < |CHECKS|
    ensures FaultOf(r) == Some(CHECKS[i]) <==>
            !PassesCheck(r, CHECKS[i]) && forall j :: 0 <= j < i ==> PassesCheck(r, CHECKS[j])
    ensures FaultOf(r).None? <==> forall j :: 0 <= j < |CHECKS| ==> PassesCheck(r, CHECKS[j])
  {
    hide IdText, DateShape, SundayToSaturday, ParseTime, AtMost, PassesCheck;
    ChecksNamed(r);
  }

  lemma ChecksNamed(r: Rule)
    ensures FaultOf(r) ==
      if !PassesCheck(r, CHECKS[0]) then Some(CHECKS[0])
      else if !PassesCheck(r, CHECKS[1]) then Some(CHECKS[1])
      else if !PassesCheck(r, CHECKS[2]) then Some(CHECKS[2])
      else if !PassesCheck(r, CHECKS[3]) then Some(CHECKS[3])
      else if !PassesCheck(r, CHECKS[4]) then Some(CHECKS[4])
      else if !PassesCheck(r, CHECKS[5]) then Some(CHECKS[5])
      else if !PassesCheck(r, CHECKS[6]) then Some(CHECKS[6])
      else if !PassesCheck(r, CHECKS[7]) then Some(CHECKS[7])
      else if !PassesCheck(r, CHECKS[8]) then Some(CHECKS[8])
      else if !PassesCheck(r, CHECKS[9]) then Some(CHECKS[9])
      else if !PassesCheck(r, CHECKS[10]) then Some(CHECKS[10])
      else None
  {
    hide IdText, DateShape, SundayToSaturday, ParseTime, AtMost;
  }

  /** An offer is refused for the first check that it does not meet, and accepted if and only if it meets them all. */
  lemma RefusedForFirst(trim: string -> string, o: Offer, i: nat)
    requires i < |CHECKS|
    ensures ValidateRule(trim, o) == Refused(CHECKS[i]) <==>
            !Meets(trim, o, CHECKS[i]) && forall j :: 0 <= j < i ==> Meets(trim, o, CHECKS[j])
    ensures ValidateRule(trim, o).Ok? <==> forall j :: 0 <= j < |CHECKS| ==> Meets(trim, o, CHECKS[j])
  {
    hide Meets, PassesCheck, Normalised, FaultOf;
    FirstFailure(Normalised(trim, o), i);
    forall fault ensures Meets(trim, o, fault) <==> PassesCheck(Normalised(trim, o), fault) {
      FaultMeans(trim, o, fault);
    }
  }

  lemma SliceSlice(s: string, n: nat)
    ensures Slice(Slice(s, n), n) == Slice(s, n)
  {
  }

  /** A rule that was accepted is accepted again, unchanged: reading back a stored schedule alters nothing. */
  lemma ValidationSettles(trim: string -> string, o: Offer)
    requires forall t: string :: IdText(t) ==> trim(t) == t
    requires ValidateRule(trim, o).Ok?
    ensures var r := ValidateRule(trim, o).rule; ValidateRule(trim, Reoffered(r)) == Ok(r)
  {
    hide ParseTime, DateShape, AtMost, IdText, SortedDays, Slice;
    var r := ValidateRule(trim, o).rule;
    assert IdText(r.id) && r.name != "";
    SortedDaysKept(r.days);
    SliceSlice(if o.name == "" then r.id else o.name, MAX_NAME_LENGTH);
    assert Normalised(trim, Reoffered(r)) == r;
  }

  /** What evaluation and precedence rely on. */
  predicate Sound(r: Rule) {
    && Weekdays(r.days) && ParseTime(r.startTime).Some? && ParseTime(r.endTime).Some?
    && r.patch != map[] && r.patch.Keys <= SCHEDULABLE
  }

  lemma ValidatedIsSound(trim: string -> string, o: Offer)
    ensures ValidateRule(trim, o).Ok? ==> Sound(ValidateRule(trim, o).rule)
  {
    hide ParseTime, DateShape, AtMost, IdText, SortedDays, Slice;
    assert Ascending(Normalised(trim, o).days);
  }

  // ------------------------------------------------------------ the document

  datatype Document =
    | Accepted(rules: seq<Rule>)
    | OtherSchema
    | NoZone
    | UnknownZone
    | ManyRules
    | Faulty(index: nat, fault: Fault)
    | SameId(index: nat)

  predicate UniqueIds(rules: seq<Rule>) {
    forall i, j :: 0 <= i < j < |rules| ==> rules[i].id != rules[j].id
  }

  /** The rules are those of the offers, one for one. */
  predicate Answers(trim: string -> string, offers: seq<Offer>, rules: seq<Rule>) {
    |rules| <= |offers| && forall i :: 0 <= i < |rules| ==> ValidateRule(trim, offers[i]) == Ok(rules[i])
  }

  /** validate; `known` says whether this system knows a time zone. */
  method Validate(trim: string -> string, known: string -> bool, schema: int, timeZone: string, offers: seq<Offer>)
    returns (d: Document)
    ensures d == OtherSchema <==> schema != 1
    ensures d == NoZone <==> schema == 1 && timeZone == ""
    ensures d == UnknownZone <==> schema == 1 && timeZone != "" && !known(timeZone)
    ensures d == ManyRules <==> schema == 1 && timeZone != "" && known(timeZone) && |offers| > 64
    ensures d.Accepted? ==> |d.rules| == |offers| && Answers(trim, offers, d.rules) && UniqueIds(d.rules)
    ensures d.Accepted? ==> forall i :: 0 <= i < |d.rules| ==> Sound(d.rules[i])
    ensures d.Faulty? ==> d.index < |offers| && ValidateRule(trim, offers[d.index]) == Refused(d.fault)
    ensures d.SameId? ==> exists rules, i :: Repeats(trim, offers, rules, i, d.index)
  {
    hide ValidateRule, Sound;
    if schema != SCHEMA_VERSION { return OtherSchema; }
    if timeZone == "" { return NoZone; }
    if !known(timeZone) { return UnknownZone; }
    if |offers| > MAX_RULES { return ManyRules; }
    var seen: set<string>, rules: seq<Rule> := {}, [];
    for i := 0 to |offers|
      invariant |rules| == i && Answers(trim, offers, rules) && UniqueIds(rules)
      invariant forall id :: id in seen <==> exists k :: 0 <= k < i && rules[k].id == id
      invariant forall k :: 0 <= k < i ==> Sound(rules[k])
    {
      ValidatedIsSound(trim, offers[i]);
      match ValidateRule(trim, offers[i]) {
        case Refused(fault) => return Faulty(i, fault);
        case Ok(rule) =>
          if rule.id in seen {
            var k :| 0 <= k < i && rules[k].id == rule.id;
            assert Repeats(trim, offers, rules + [rule], k, i);
            return SameId(i);
          }
          seen := seen + {rule.id};
          rules := rules + [rule];
      }
    }
    d := Accepted(rules);
  }

  /** Two accepted rules have one identifier. */
  predicate Repeats(trim: string -> string, offers: seq<Offer>, rules: seq<Rule>, i: nat, j: nat) {
    Answers(trim, offers, rules) && i < j < |rules| && rules[i].id == rules[j].id
  }

  /** A validated schedule always resolves: no rule in it has a time that cannot be read. */
  method ResolveValidated(trim: string -> string, known: string -> bool, timeZone: string, offers: seq<Offer>, now: Now)
    returns (d: Document, r: Option<Resolved>)
    requires Reading(now)
    ensures d.Accepted? <==> r.Some?
    ensures r.Some? ==> r.value.Resolved? && Explained(d.rules, now, r.value.settings, r.value.because)
    ensures r.Some? ==> r.value.settings.Keys <= SCHEDULABLE
    ensures r.Some? ==> forall key :: key in r.value.settings ==>
      exists i :: OfferSets(trim, offers, i, key, r.value.settings[key], r.value.because)
  {
    hide Evaluate, Explained, Weekdays, ParseTime, AppliedAre, InOrder;
    d := Validate(trim, known, SCHEMA_VERSION, timeZone, offers);
    r := None;
    if d.Accepted? {
      forall i | 0 <= i < |d.rules| ensures !Throws(d.rules[i], now) {
        assert Sound(d.rules[i]);
        SoundDoesNotThrow(d.rules[i], now);
      }
      var resolved := Resolve(SCHEMA_VERSION, d.rules, now);
      ExplainedKeys(d.rules, now, resolved);
      ExplainedOffers(trim, offers, d.rules, now, resolved);
      r := Some(resolved);
    }
  }

  /** The offer is enabled, its patch gives the setting that value, and it is named as the cause. */
  predicate OfferSets(trim: string -> string, offers: seq<Offer>, i: nat, key: string, value: Json,
                      because: map<string, string>) {
    && i < |offers| && offers[i].enabled
    && key in offers[i].patch && offers[i].patch[key] == value
    && key in because && because[key] == trim(offers[i].id)
  }

  lemma DisabledIsInactive(rule: Rule, now: Now)
    requires Reading(now) && Evaluate(rule, now).Active?
    ensures rule.enabled
  {
    hide ParseTime, StartedOn;
  }

  /** No setting comes from an offer that was disabled. */
  lemma ExplainedOffers(trim: string -> string, offers: seq<Offer>, rules: seq<Rule>, now: Now, r: Resolved)
    requires Reading(now) && r.Resolved? && Explained(rules, now, r.settings, r.because)
    requires Answers(trim, offers, rules)
    ensures forall key :: key in r.settings ==> exists i :: OfferSets(trim, offers, i, key, r.settings[key], r.because)
  {
    hide Evaluate, ValidateRule, Weekdays, ParseTime, Outranks, WonBy, Answers, OfferSets;
    forall key | key in r.settings ensures exists i :: OfferSets(trim, offers, i, key, r.settings[key], r.because) {
      var w :| WonBy(rules, now, key, w, r.settings[key], r.because[key]);
      WinnerIsOffer(trim, offers, rules, now, key, w, r.settings[key], r.because);
    }
  }

  lemma WinnerIsOffer(trim: string -> string, offers: seq<Offer>, rules: seq<Rule>, now: Now, key: string, w: nat,
                      value: Json, because: map<string, string>)
    requires Reading(now) && Answers(trim, offers, rules)
    requires key in because && WonBy(rules, now, key, w, value, because[key])
    ensures OfferSets(trim, offers, w, key, value, because)
  {
    hide Evaluate, ValidateRule, Weekdays, ParseTime, Outranks;
    assert Sets(rules, now, key, w);
    DisabledIsInactive(rules[w], now);
    AcceptedIsOffered(trim, offers[w]);
  }

  lemma SoundDoesNotThrow(rule: Rule, now: Now)
    requires Reading(now) && Sound(rule)
    ensures !Throws(rule, now)
  {
    hide ParseTime, StartedOn;
  }

  lemma ExplainedKeys(rules: seq<Rule>, now: Now, r: Resolved)
    requires Reading(now) && r.Resolved? && Explained(rules, now, r.settings, r.because)
    requires forall i :: 0 <= i < |rules| ==> Sound(rules[i])
    ensures r.settings.Keys <= SCHEDULABLE
  {
    hide Evaluate, ParseTime, Weekdays;
    forall key | key in r.settings ensures key in SCHEDULABLE {
      var i: nat :| Sets(rules, now, key, i);
      assert Sound(rules[i]);
      assert key in rules[i].patch.Keys;
    }
  }
}
