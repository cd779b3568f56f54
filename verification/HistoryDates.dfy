// Which entries a prune up to a day removes, by the calendar.
module HistoryDates {
  import opened Text
  import opened Calendar
  import opened History
  import opened HistoryRuns

  /** The entry was recorded on the given day. */
  predicate On(e: Entry, d: Date) {
    |e.at| >= 10 && e.at[..10] == Iso(d)
  }

  predicate Day(d: Date) {
    Valid(d) && d.year <= 9999
  }

  /** Some entry carries a label and is this one, or labels this one. */
  predicate Protected(num: string -> int, entries: seq<Entry>, e: Entry) {
    exists f :: f in entries &&
                ((f.label_ != "" && f.number == e.number) || (f.action == "label" && num(f.target) == e.number))
  }

  lemma {:induction false} LabelledAre(num: string -> int, entries: seq<Entry>, n: nat, number: nat)
    requires n <= |entries|
    ensures number in Labelled(num, entries, n) <==>
            exists i :: 0 <= i < n && ((entries[i].label_ != "" && entries[i].number == number) ||
                                       (entries[i].action == "label" && num(entries[i].target) == number))
  {
    if n > 0 { LabelledAre(num, entries, n - 1, number); }
  }

  lemma ProtectedIffLabelled(num: string -> int, entries: seq<Entry>, e: Entry)
    ensures e.number in Labelled(num, entries, |entries|) <==> Protected(num, entries, e)
  {
    LabelledAre(num, entries, |entries|, e.number);
    hide Labelled;
    if f :| f in entries && ((f.label_ != "" && f.number == e.number) ||
                             (f.action == "label" && num(f.target) == e.number))
    {
      var i :| 0 <= i < |entries| && entries[i] == f;
    }
  }

  lemma {:induction false} KeptAre(entries: seq<Entry>, before: string, labelled: set<int>, e: Entry)
    ensures e in Kept(entries, before, labelled) <==> e in entries && Stays(e, before, labelled)
  {
    hide Stays;
    if entries != [] {
      var k := |entries| - 1;
      KeptAre(entries[..k], before, labelled, e);
      assert entries == entries[..k] + [entries[k]];
    }
  }

  lemma StaysFrom(e: Entry, d: Date, b: Date, labelled: set<int>)
    requires On(e, d) && Day(d) && Day(b)
    ensures Stays(e, Iso(b), labelled) <==> DayNumber(b) <= DayNumber(d) || e.number in labelled
  {
    hide AtMost, Iso, DayNumber;
    IsoOrder(b, d);
    assert Slice(e.at, 10) == Iso(d);
  }

  /**
   * An entry of day d survives a prune up to day b if and only if d is b or later,
   * or labels are kept and one protects it.
   */
  lemma SurvivesIff(num: string -> int, log: Log, b: Date, keep: bool, e: Entry, d: Date)
    requires e in log.entries && On(e, d) && Day(d) && Day(b)
    ensures e in Survivors(num, log, Iso(b), keep) <==>
            DayNumber(b) <= DayNumber(d) || (keep && Protected(num, log.entries, e))
  {
    hide Iso, DayNumber, Kept, Labelled, Stays, Protected;
    var labelled := PruneSet(num, log, keep);
    KeptAre(log.entries, Iso(b), labelled, e);
    StaysFrom(e, d, b, labelled);
    ProtectedIffLabelled(num, log.entries, e);
  }

  lemma {:induction false} AllKept(entries: seq<Entry>, before: string, labelled: set<int>)
    requires forall i :: 0 <= i < |entries| ==> Stays(entries[i], before, labelled)
    ensures Kept(entries, before, labelled) == entries
  {
    hide Stays;
    if entries != [] {
      var k := |entries| - 1;
      AllKept(entries[..k], before, labelled);
      assert entries == entries[..k] + [entries[k]];
    }
  }

  /** Every entry was recorded on some day no earlier than b. */
  ghost predicate NoneBefore(entries: seq<Entry>, b: Date) {
    forall i :: 0 <= i < |entries| ==> exists d :: On(entries[i], d) && Day(d) && DayNumber(b) <= DayNumber(d)
  }

  lemma IsoIsText(b: Date)
    ensures Iso(b) != ""
  {
    assert |Pad(b.year, 4)| == 4;
  }

  /** A prune up to a day that no entry is older than removes nothing and changes nothing. */
  lemma NothingToPrune(hash: Digest, num: string -> int, log: Log, b: Date, keep: bool, at: string)
    requires Day(b) && NoneBefore(log.entries, b)
    ensures Prune(hash, num, log, Iso(b), keep, at) == Pruned(log, 0)
  {
    hide Iso, DayNumber, Kept, Labelled, Stays, Record, Rebuilt;
    var labelled := PruneSet(num, log, keep);
    forall i | 0 <= i < |log.entries| ensures Stays(log.entries[i], Iso(b), labelled) {
      var d :| On(log.entries[i], d) && Day(d) && DayNumber(b) <= DayNumber(d);
      StaysFrom(log.entries[i], d, b, labelled);
    }
    AllKept(log.entries, Iso(b), labelled);
    IsoIsText(b);
  }
}
