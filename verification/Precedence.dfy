// Which scheduled rules apply, and which of them sets each setting.
module Precedence {
  import opened Calendar
  import opened Canonical
  import opened Options
  import opened Schedule

  const SCHEMA_VERSION := 1

  // ------------------------------------------------------------ specificity

  /** specificity. */
  function Score(rule: Rule): nat {
    (if rule.startDate != "" || rule.endDate != "" then 2 else 0) +
    (if 0 < |rule.days| < 7 then 1 else 0) +
    (if rule.startTime == "00:00" && rule.endTime == "00:00" then 0 else 1)
  }

  /** The count the documentation describes, read off what the rule means. */
  ghost function DocumentedScore(rule: Rule): nat {
    (if rule.startDate != "" || rule.endDate != "" then 2 else 0) +
    (if exists w: nat :: w < 7 && w !in rule.days then 1 else 0) +
    (if ParseTime(rule.startTime) != ParseTime(rule.endTime) then 1 else 0)
  }

  /** Weekdays as validation leaves them: at least one, in ascending order, Sunday to Saturday. */
  predicate Weekdays(days: seq<int>) {
    && days != []
    && (forall i :: 0 <= i < |days| ==> 0 <= days[i] < 7)
    && forall i, j :: 0 <= i < j < |days| ==> days[i] < days[j]
  }

  lemma {:induction false} AscendingRoom(days: seq<int>, n: nat)
    requires forall i :: 0 <= i < |days| ==> 0 <= days[i] < n
    requires forall i, j :: 0 <= i < j < |days| ==> days[i] < days[j]
    ensures |days| <= n
    ensures |days| == n ==> forall w :: 0 <= w < n ==> w in days
    ensures |days| < n ==> exists w :: 0 <= w < n && w !in days
  {
    if days == [] {
      assert n > 0 ==> 0 !in days;
    } else {
      var k := |days| - 1;
      if days[k] == n - 1 {
        AscendingRoom(days[..k], n - 1);
        assert forall w :: w in days <==> w in days[..k] || w == n - 1;
      } else {
        assert n - 1 !in days;
        AscendingRoom(days, n - 1);
      }
    }
  }

  /**
   * The score is the documented one, unless an all-day rule is not written as
   * 00:00 to 00:00: such a rule counts as limited to part of the day.
   */
  lemma ScoreAsDocumented(rule: Rule)
    requires Weekdays(rule.days) && ParseTime(rule.startTime).Some? && ParseTime(rule.endTime).Some?
    ensures Score(rule) == DocumentedScore(rule) <==>
      !(ParseTime(rule.startTime) == ParseTime(rule.endTime) && (rule.startTime != "00:00" || rule.endTime != "00:00"))
  {
    AscendingRoom(rule.days, 7);
    hide ParseTime;
    if |rule.days| == 7 {
      assert !exists w: nat :: w < 7 && w !in rule.days;
    } else {
      var w :| 0 <= w < 7 && w !in rule.days;
      var v: nat := w;
      assert exists u: nat :: u < 7 && u !in rule.days;
    }
  }

  /** A rule without weekdays, which validation refuses, scores as one for all of them. */
  lemma NoDaysScoreAsAll(rule: Rule)
    ensures Score(rule.(days := [])) == Score(rule.(days := [0, 1, 2, 3, 4, 5, 6]))
  {
  }

  /** 08:00 to 08:00 is the whole day, and still counts as part of it. */
  lemma AllDayCountsAsPart(rule: Rule)
    requires rule.startTime == Clock(480) && rule.endTime == Clock(480)
    ensures ParseTime(rule.startTime) == ParseTime(rule.endTime) == Some(480)
    ensures Score(rule) == Score(rule.(startTime := "00:00", endTime := "00:00")) + 1
  {
    ParseTimeReads(Clock(480), 480);
    ClockIsZero();
    ParseTimeReads(Clock(0), 480);
    ParseTimeReads(Clock(0), 0);
    hide ParseTime, Clock;
  }

  lemma ClockIsZero()
    ensures Clock(0) == "00:00"
  {
    PadTwo(0);
    hide Pad;
  }

  // ------------------------------------------------------------ the order of application

  datatype Applied = Applied(rule: Rule, index: nat, startedOn: string)

  /** Less specific first; of equals, the one higher in the list first. */
  predicate Precedes(a: Applied, b: Applied) {
    Score(a.rule) < Score(b.rule) || (Score(a.rule) == Score(b.rule) && a.index < b.index)
  }

  predicate InOrder(s: seq<Applied>) {
    forall i, j :: 0 <= i < j < |s| ==> Precedes(s[i], s[j])
  }

  predicate DistinctIndices(s: seq<Applied>) {
    forall i, j :: 0 <= i < j < |s| ==> s[i].index != s[j].index
  }

  function Insert(a: Applied, s: seq<Applied>): seq<Applied> {
    if s == [] || Precedes(a, s[0]) then [a] + s else [s[0]] + Insert(a, s[1..])
  }

  /** Array.prototype.sort by precedence. */
  function Ordered(s: seq<Applied>): seq<Applied> {
    if s == [] then [] else Insert(s[0], Ordered(s[1..]))
  }

  lemma {:induction false} InsertOrders(a: Applied, s: seq<Applied>)
    requires InOrder(s) && forall i :: 0 <= i < |s| ==> s[i].index != a.index
    ensures InOrder(Insert(a, s)) && multiset(Insert(a, s)) == multiset(s) + multiset{a}
  {
    hide Score;
    if s != [] {
      assert s == [s[0]] + s[1..];
      if !Precedes(a, s[0]) {
        InsertOrders(a, s[1..]);
        var rest := Insert(a, s[1..]);
        forall i | 0 <= i < |rest| ensures Precedes(s[0], rest[i]) {
          assert rest[i] in multiset(rest);
          if rest[i] != a { assert rest[i] in s[1..]; }
        }
      }
    }
  }

  /** Sorting puts the same rules in strict order of precedence. */
  lemma {:induction false} OrderedSorts(s: seq<Applied>)
    requires DistinctIndices(s)
    ensures InOrder(Ordered(s)) && multiset(Ordered(s)) == multiset(s)
  {
    hide Precedes, InOrder, Insert;
    if s == [] {
      NoneInOrder();
    } else {
      assert s == [s[0]] + s[1..];
      OrderedSorts(s[1..]);
      var rest := Ordered(s[1..]);
      forall i | 0 <= i < |rest| ensures rest[i].index != s[0].index {
        assert rest[i] in multiset(rest);
        assert rest[i] in s[1..];
      }
      InsertOrders(s[0], rest);
    }
  }

  lemma NoneInOrder()
    ensures InOrder([])
  {
  }

  // ------------------------------------------------------------ applying patches

  /** The last entry, if any, that patches the key. */
  function LastPatching(s: seq<Applied>, key: string): (r: Option<Applied>)
    ensures r.Some? ==> r.value in s && key in r.value.rule.patch
    ensures r.None? ==> forall a :: a in s ==> key !in a.rule.patch
  {
    if s == [] then None
    else
      var k := |s| - 1;
      if key in s[k].rule.patch then Some(s[k]) else LastPatching(s[..k], key)
  }

  lemma {:induction false} LastPatchingWins(s: seq<Applied>, key: string, a: Applied)
    requires InOrder(s) && a in s && key in a.rule.patch
    ensures LastPatching(s, key).Some?
    ensures a == LastPatching(s, key).value || Precedes(a, LastPatching(s, key).value)
  {
    hide Precedes;
    var k := |s| - 1;
    var i :| 0 <= i < |s| && s[i] == a;
    if i < k {
      assert s[..k][i] == a;
      if key in s[k].rule.patch {
        assert Precedes(s[i], s[k]);
      } else {
        LastPatchingWins(s[..k], key, a);
      }
    }
  }

  // ------------------------------------------------------------ resolve

  datatype Resolved =
    | Resolved(settings: map<string, Json>, because: map<string, string>, applied: seq<Applied>)
    | BadRule(index: nat)
    | WrongSchema

  predicate Throws(rule: Rule, now: Now)
    requires Reading(now)
  {
    Evaluate(rule, now).NotATime?
  }

  /** A rule makes evaluation throw if and only if it is enabled and one of its times cannot be read. */
  lemma ThrowsOnUnreadableTime(rule: Rule, now: Now)
    requires Reading(now)
    ensures Throws(rule, now) <==> rule.enabled && (ParseTime(rule.startTime).None? || ParseTime(rule.endTime).None?)
  {
    hide ParseTime, StartedOn;
    ParsedInDay(rule.startTime);
    ParsedInDay(rule.endTime);
  }

  /** Such as 25:00. */
  lemma NoSuchHour(rule: Rule, now: Now)
    requires Reading(now) && rule.enabled && rule.startTime == "25:00"
    ensures Throws(rule, now)
  {
    ThrowsOnUnreadableTime(rule, now);
    assert ParseTime("25:00").None?;
    hide Throws;
  }

  /** The rule at this place in the list is in force and changes the setting. */
  predicate Sets(rules: seq<Rule>, now: Now, key: string, i: nat)
    requires Reading(now)
  {
    i < |rules| && Evaluate(rules[i], now).Active? && key in rules[i].patch
  }

  /** Of two places in the list, the second has the higher precedence. */
  predicate Outranks(rules: seq<Rule>, i: nat, j: nat)
    requires i < |rules| && j < |rules|
  {
    Score(rules[i]) < Score(rules[j]) || (Score(rules[i]) == Score(rules[j]) && i < j)
  }

  /** The rule that sets a setting: no other that sets it outranks it. */
  ghost predicate Winner(rules: seq<Rule>, now: Now, key: string, w: nat)
    requires Reading(now)
  {
    Sets(rules, now, key, w) && forall i: nat :: Sets(rules, now, key, i) && i != w ==> Outranks(rules, i, w)
  }

  /** Exactly the rules in force among the first n, each with the day its window began. */
  ghost predicate AppliedAre(rules: seq<Rule>, now: Now, n: nat, s: seq<Applied>)
    requires Reading(now) && n <= |rules|
  {
    && (forall a :: a in s ==> a.index < n && a.rule == rules[a.index] && Evaluate(a.rule, now) == Active(a.startedOn))
    && (forall i: nat :: i < n && Evaluate(rules[i], now).Active? ==> exists a :: a in s && a.index == i)
  }

  lemma WinnerFound(rules: seq<Rule>, now: Now, s: seq<Applied>, key: string)
    requires Reading(now) && AppliedAre(rules, now, |rules|, s) && InOrder(s)
    ensures LastPatching(s, key).Some? ==> Winner(rules, now, key, LastPatching(s, key).value.index)
    ensures LastPatching(s, key).Some? ==> rules[LastPatching(s, key).value.index] == LastPatching(s, key).value.rule
    ensures LastPatching(s, key).Some? <==> exists i: nat :: Sets(rules, now, key, i)
  {
    hide Evaluate, Score, LastPatching, InOrder;
    if LastPatching(s, key).Some? {
      var w := LastPatching(s, key).value;
      forall i: nat | Sets(rules, now, key, i) && i != w.index ensures Outranks(rules, i, w.index) {
        var a :| a in s && a.index == i;
        LastPatchingWins(s, key, a);
      }
      assert Sets(rules, now, key, w.index);
    }
    forall i: nat | Sets(rules, now, key, i) ensures LastPatching(s, key).Some? {
      var a :| a in s && a.index == i;
      LastPatchingWins(s, key, a);
    }
  }

  lemma SortedApplied(rules: seq<Rule>, now: Now, s: seq<Applied>)
    requires Reading(now) && AppliedAre(rules, now, |rules|, s) && DistinctIndices(s)
    ensures InOrder(Ordered(s)) && AppliedAre(rules, now, |rules|, Ordered(s))
  {
    hide Ordered, InOrder, Evaluate;
    OrderedSorts(s);
    forall a ensures a in s <==> a in Ordered(s) {
      assert a in s <==> a in multiset(s);
      assert a in Ordered(s) <==> a in multiset(Ordered(s));
    }
  }

  /** Every setting some rule in force changes, each as its winner sets it, and no other. */
  ghost predicate Explained(rules: seq<Rule>, now: Now, settings: map<string, Json>, because: map<string, string>)
    requires Reading(now)
  {
    && settings.Keys == because.Keys
    && (forall key :: key in settings <==> exists i: nat :: Sets(rules, now, key, i))
    && forall key :: key in settings ==> exists w :: WonBy(rules, now, key, w, settings[key], because[key])
  }

  ghost predicate WonBy(rules: seq<Rule>, now: Now, key: string, w: nat, value: Json, id: string)
    requires Reading(now)
  {
    Winner(rules, now, key, w) && value == rules[w].patch[key] && id == rules[w].id
  }

  /** The settings after applying patches in order, each overwriting what came before. */
  ghost predicate Overwritten(s: seq<Applied>, settings: map<string, Json>, because: map<string, string>) {
    && settings.Keys == because.Keys
    && (forall key :: key in settings <==> LastPatching(s, key).Some?)
    && forall key :: key in settings ==>
      var last := LastPatching(s, key).value; settings[key] == last.rule.patch[key] && because[key] == last.rule.id
  }

  lemma OverwriteStep(s: seq<Applied>, k: nat, settings: map<string, Json>, because: map<string, string>)
    requires k < |s| && Overwritten(s[..k], settings, because)
    ensures var rule := s[k].rule;
            Overwritten(s[..k + 1], settings + rule.patch, because + map key | key in rule.patch :: rule.id)
  {
    hide LastPatching;
    var rule := s[k].rule;
    var now, why := settings + rule.patch, because + map key | key in rule.patch :: rule.id;
    forall key
      ensures key in now <==> LastPatching(s[..k + 1], key).Some?
      ensures key in now ==> now[key] == LastPatching(s[..k + 1], key).value.rule.patch[key]
      ensures key in now ==> why[key] == LastPatching(s[..k + 1], key).value.rule.id
    {
      LastStep(s, k, key);
    }
  }

  lemma LastStep(s: seq<Applied>, k: nat, key: string)
    requires k < |s|
    ensures LastPatching(s[..k + 1], key) == if key in s[k].rule.patch then Some(s[k]) else LastPatching(s[..k], key)
  {
    assert s[..k + 1][..k] == s[..k];
  }

  lemma NothingOverwritten()
    ensures Overwritten([], map[], map[])
  {
  }

  lemma OverwritingExplains(rules: seq<Rule>, now: Now, s: seq<Applied>, settings: map<string, Json>,
                            because: map<string, string>)
    requires Reading(now) && AppliedAre(rules, now, |rules|, s) && InOrder(s) && Overwritten(s, settings, because)
    ensures Explained(rules, now, settings, because)
  {
    hide Sets, Winner, LastPatching, InOrder, AppliedAre;
    forall key ensures key in settings <==> exists i: nat :: Sets(rules, now, key, i) {
      WinnerFound(rules, now, s, key);
    }
    forall key | key in settings ensures exists w :: WonBy(rules, now, key, w, settings[key], because[key]) {
      WinnerFound(rules, now, s, key);
      assert WonBy(rules, now, key, LastPatching(s, key).value.index, settings[key], because[key]);
    }
  }

  lemma AppliedStep(rules: seq<Rule>, now: Now, n: nat, s: seq<Applied>)
    requires Reading(now) && n < |rules| && AppliedAre(rules, now, n, s) && DistinctIndices(s)
    ensures var verdict := Evaluate(rules[n], now);
            var next := if verdict.Active? then s + [Applied(rules[n], n, verdict.startedOn)] else s;
            AppliedAre(rules, now, n + 1, next) && DistinctIndices(next)
  {
    hide Evaluate;
    var verdict := Evaluate(rules[n], now);
    if verdict.Active? {
      var a := Applied(rules[n], n, verdict.startedOn);
      var next := s + [a];
      assert forall x :: x in next <==> x in s || x == a;
      assert a in next;
      forall i: nat | i < n + 1 && Evaluate(rules[i], now).Active? ensures exists x :: x in next && x.index == i {
        if i < n {
          var x :| x in s && x.index == i;
          assert x in next;
        }
      }
      forall i | 0 <= i < |s| ensures s[i].index != n {
        assert s[i] in s;
      }
    }
  }

  lemma NoneApplied(rules: seq<Rule>, now: Now)
    requires Reading(now)
    ensures AppliedAre(rules, now, 0, []) && DistinctIndices([])
  {
  }

  /** resolve, at a given reading. */
  method Resolve(schema: int, rules: seq<Rule>, now: Now) returns (r: Resolved)
    requires Reading(now)
    ensures r.WrongSchema? <==> schema != 1
    ensures r.BadRule? ==> r.index < |rules| && Throws(rules[r.index], now)
    ensures r.BadRule? ==> forall i :: 0 <= i < r.index ==> !Throws(rules[i], now)
    ensures r.Resolved? ==> forall i :: 0 <= i < |rules| ==> !Throws(rules[i], now)
    ensures r.Resolved? ==> AppliedAre(rules, now, |rules|, r.applied) && InOrder(r.applied)
    ensures r.Resolved? ==> Explained(rules, now, r.settings, r.because)
  {
    hide Evaluate, AppliedAre, DistinctIndices, Explained, Overwritten, Ordered, InOrder;
    if schema != SCHEMA_VERSION { return WrongSchema; }
    var applied: seq<Applied> := [];
    NoneApplied(rules, now);
    for index := 0 to |rules|
      invariant forall i :: 0 <= i < index ==> !Throws(rules[i], now)
      invariant AppliedAre(rules, now, index, applied) && DistinctIndices(applied)
    {
      AppliedStep(rules, now, index, applied);
      var verdict := Evaluate(rules[index], now);
      if verdict.NotATime? { return BadRule(index); }
      if verdict.Active? { applied := applied + [Applied(rules[index], index, verdict.startedOn)]; }
    }
    var ordered := Ordered(applied);
    SortedApplied(rules, now, applied);
    var settings: map<string, Json>, because: map<string, string> := map[], map[];
    NothingOverwritten();
    for k := 0 to |ordered|
      invariant Overwritten(ordered[..k], settings, because)
    {
      OverwriteStep(ordered, k, settings, because);
      var rule := ordered[k].rule;
      settings := settings + rule.patch;
      because := because + map key | key in rule.patch :: rule.id;
    }
    assert ordered[..|ordered|] == ordered;
    OverwritingExplains(rules, now, ordered, settings, because);
    r := Resolved(settings, because, ordered);
  }

  /** A schedule that was never validated stops at such a rule. */
  method ResolveUnreadable(rule: Rule, now: Now) returns (r: Resolved)
    requires Reading(now) && rule.enabled && rule.startTime == "25:00"
    ensures r == BadRule(0)
  {
    hide Throws, Explained, AppliedAre, InOrder;
    NoSuchHour(rule, now);
    r := Resolve(SCHEMA_VERSION, [rule], now);
    assert [rule][0] == rule;
  }

  /** There is never more than one winner, so the result is determined. */
  lemma WinnerUnique(rules: seq<Rule>, now: Now, key: string, v: nat, w: nat)
    requires Reading(now) && Winner(rules, now, key, v) && Winner(rules, now, key, w)
    ensures v == w
  {
    hide Evaluate, Score;
  }
}
