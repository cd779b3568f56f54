// What pruning does to labels.
module HistoryLabels {
  import opened Text
  import opened Canonical
  import opened History
  import opened HistoryRuns

  /** A label is in force as soon as it is given, and every other entry that is still there has the label it had. */
  lemma LabelTakesEffect(hash: Digest, log: Log, number: nat, text: string, at: string, other: nat)
    requires Sound(hash, log) && Find(log.entries, number) != []
    ensures var out := Label(hash, log, number, text, at);
            && out.Recorded?
            && LabelAfter(out.log.entries, |out.log.entries|, number) == Str(Slice(text, 120))
            && (other != number && other != out.entry.number &&
                (out.dropped == 0 || Find(out.log.entries, other) != []) ==>
                  LabelAfter(out.log.entries, |out.log.entries|, other)
                  == LabelAfter(log.entries, |log.entries|, other))
  {
    var out := Label(hash, log, number, text, at);
    var entries := out.log.entries;
    LabelRecorded(hash, log, number, text, at);
    hide Label, Decimal, Redact, ContentOf, LabelAfter, Sound, Find;
    LabelLast(entries, number);
    if other != number && other != out.entry.number && (out.dropped == 0 || Find(entries, other) != []) {
      if Decimal(number) == Decimal(other) { DecimalInjective(number, other); }
      OtherLabels(log.entries, out.entry, out.dropped, other);
    }
  }

  /** Appending an entry that does not speak of a number, and dropping some of the oldest, leaves its label alone. */
  lemma OtherLabels(before: seq<Entry>, e: Entry, dropped: nat, other: nat)
    requires dropped <= |before| && !SpeaksOf(e, other)
    requires dropped == 0 || Find((before + [e])[dropped..], other) != []
    ensures var after := (before + [e])[dropped..];
            LabelAfter(after, |after|, other) == LabelAfter(before, |before|, other)
  {
    hide LabelAfter, SpeaksOf, Find;
    var all := before + [e];
    LabelSkips(all, |all|, other);
    LabelPrefix(all, before, |before|, other);
    if dropped == 0 {
      assert all[0..] == all;
    } else {
      var found := Find(all[dropped..], other)[0];
      var j :| 0 <= j < |all[dropped..]| && all[dropped..][j] == found;
      LabelSuffix(all, dropped, dropped + j, |all|, other);
    }
  }

  /** An entry's label does not depend on what stands before the entry. */
  lemma {:induction false} LabelSuffix(entries: seq<Entry>, k: nat, j: nat, n: nat, number: nat)
    requires k <= j < n <= |entries| && entries[j].number == number
    ensures LabelAfter(entries[k..], n - k, number) == LabelAfter(entries, n, number)
  {
    hide Decimal;
    if j < n - 1 { LabelSuffix(entries, k, j, n - 1, number); }
  }

  /** What a label records: the label the entry itself carries, and the new one. */
  lemma LabelSays(hash: Digest, log: Log, number: nat, text: string, at: string)
    requires Sound(hash, log) && Find(log.entries, number) != []
    ensures var out, found := Label(hash, log, number, text, at), Find(log.entries, number)[0];
            && out.Recorded? && out.entry.at == at
            && out.entry.before == Str(found.label_) && out.entry.after == Str(Slice(text, 120))
            && out.entry.label_ == Slice(text, 120)
  {
    var found := Find(log.entries, number)[0];
    assert CleanEntry(found);
    hide ContentOf, Decimal, Sound;
    TextCut(found.label_, 0);
    TextCut(Slice(text, 120), 0);
    hide Redact;
  }

  lemma LabelLast(entries: seq<Entry>, number: nat)
    requires entries != [] && entries[|entries| - 1].action == "label"
    requires entries[|entries| - 1].target == Decimal(number)
    ensures LabelAfter(entries, |entries|, number) == entries[|entries| - 1].after
  {
    hide Decimal;
  }

  lemma LabelRecorded(hash: Digest, log: Log, number: nat, text: string, at: string)
    requires Sound(hash, log) && Find(log.entries, number) != []
    ensures var out := Label(hash, log, number, text, at);
            && out.Recorded? && out.log.entries != []
            && out.log.entries == (log.entries + [out.entry])[out.dropped..]
            && out.entry.action == "label" && out.entry.target == Decimal(number)
            && out.entry.after == Str(Slice(text, MAX_LABEL))
            && out.log.entries[|out.log.entries| - 1] == out.entry
  {
    hide Stable, Clean, Decimal, Chained;
  }

  lemma {:induction false} LabelledHas(num: string -> int, entries: seq<Entry>, n: nat, i: nat)
    requires i < n <= |entries|
    ensures entries[i].label_ != "" ==> entries[i].number in Labelled(num, entries, n)
    ensures entries[i].action == "label" ==> num(entries[i].target) in Labelled(num, entries, n)
  {
    if i < n - 1 { LabelledHas(num, entries, n - 1, i); }
  }

  /** A prune that keeps labels keeps every labelled entry, and every entry a label names. */
  lemma PruneKeepsLabelled(num: string -> int, log: Log, before: string, i: nat, t: nat)
    requires ReadsDecimals(num) && i < |log.entries| && t < |log.entries|
    ensures log.entries[i].label_ != "" ==> log.entries[i] in Survivors(num, log, before, true)
    ensures log.entries[i].action == "label" && log.entries[i].target == Decimal(log.entries[t].number) ==>
      log.entries[t] in Survivors(num, log, before, true)
  {
    var labelled := PruneSet(num, log, true);
    LabelledHas(num, log.entries, |log.entries|, i);
    KeptIn(log.entries, before, labelled, log.entries[i]);
    KeptIn(log.entries, before, labelled, log.entries[t]);
    hide Labelled, Kept;
  }

  /** Whether an entry decides the label of the given number. */
  predicate SpeaksOf(e: Entry, number: nat) {
    e.number == number || (e.action == "label" && e.target == Decimal(number))
  }

  lemma LabelSkips(entries: seq<Entry>, n: nat, number: nat)
    requires 0 < n <= |entries| && !SpeaksOf(entries[n - 1], number)
    ensures LabelAfter(entries, n, number) == LabelAfter(entries, n - 1, number)
  {
    hide Decimal;
  }

  lemma LabelAlike(a: seq<Entry>, n: nat, b: seq<Entry>, m: nat, number: nat)
    requires 0 < n <= |a| && 0 < m <= |b| && a[n - 1] == b[m - 1]
    requires LabelAfter(a, n - 1, number) == LabelAfter(b, m - 1, number)
    ensures LabelAfter(a, n, number) == LabelAfter(b, m, number)
  {
    hide Decimal;
  }

  /** Dropping entries that say nothing about a number leaves its label alone. */
  lemma {:induction false} KeptLabel(entries: seq<Entry>, before: string, labelled: set<int>, number: nat)
    requires forall i :: 0 <= i < |entries| && SpeaksOf(entries[i], number) ==> Stays(entries[i], before, labelled)
    ensures var kept := Kept(entries, before, labelled);
            LabelAfter(kept, |kept|, number) == LabelAfter(entries, |entries|, number)
  {
    hide Stays, Decimal, LabelAfter, Kept;
    if entries == [] {
      KeptNone(before, labelled);
    } else {
      var k := |entries| - 1;
      var init := Kept(entries[..k], before, labelled);
      KeptLabel(entries[..k], before, labelled, number);
      LabelPrefix(entries, entries[..k], k, number);
      KeptStep(entries, before, labelled);
      if Stays(entries[k], before, labelled) {
        var kept := init + [entries[k]];
        LabelPrefix(kept, init, |init|, number);
        LabelAlike(kept, |kept|, entries, |entries|, number);
      } else {
        LabelSkips(entries, |entries|, number);
      }
    }
  }

  lemma {:induction false} LabelPrefix(a: seq<Entry>, b: seq<Entry>, n: nat, number: nat)
    requires n <= |a| && n <= |b| && a[..n] == b[..n]
    ensures LabelAfter(a, n, number) == LabelAfter(b, n, number)
  {
    if n > 0 {
      assert a[n - 1] == a[..n][n - 1] && b[n - 1] == b[..n][n - 1];
      assert a[..n - 1] == a[..n][..n - 1] && b[..n - 1] == b[..n][..n - 1];
      LabelPrefix(a, b, n - 1, number);
    }
  }

  /** Chaining anew leaves every label alone. */
  lemma {:induction false} RebuiltLabel(hash: Digest, kept: seq<Entry>, n: nat, number: nat)
    requires n <= |kept|
    ensures LabelAfter(Rebuilt(hash, kept), n, number) == LabelAfter(kept, n, number)
  {
    hide Rebuilt, Decimal;
    if n > 0 {
      RebuiltChained(hash, kept);
      RebuiltLabel(hash, kept, n - 1, number);
    }
  }

  /** The marker a prune leaves says nothing about any entry that survives. */
  lemma PrunedLabel(hash: Digest, num: string -> int, log: Log, before: string, at: string, number: nat)
    requires Sound(hash, log) && before != ""
    requires var kept := Survivors(num, log, before, true); exists e :: e in kept && e.number == number
    ensures var kept := Survivors(num, log, before, true);
            var pruned := Prune(hash, num, log, before, true, at).log.entries;
            LabelAfter(pruned, |pruned|, number) == LabelAfter(kept, |kept|, number)
  {
    hide Labelled, Kept, Record, Rebuilt, Sound, Decimal;
    var labelled := PruneSet(num, log, true);
    var kept := Survivors(num, log, before, true);
    var removed := |log.entries| - |kept|;
    SoundParts(hash, log);
    if removed == 0 {
      KeptAll(log.entries, before, labelled);
    } else {
      KeptIncreasing(log.entries, before, labelled);
      KeptClean(log.entries, before, labelled);
      RebuiltSound(hash, kept, log.truncated);
      var rest := Log(Rebuilt(hash, kept), log.truncated);
      var marker := PruneMarker(log, before, |kept|, removed, true, at);
      RecordKeeps(hash, rest, marker);
      RebuiltLabel(hash, kept, |kept|, number);
      MarkerSilent(hash, kept, log.truncated, marker, number);
    }
  }

  lemma {:induction false} KeptAll(entries: seq<Entry>, before: string, labelled: set<int>)
    requires |Kept(entries, before, labelled)| == |entries|
    ensures Kept(entries, before, labelled) == entries
  {
    hide Stays;
    if entries != [] { KeptAll(entries[..|entries| - 1], before, labelled); }
  }

  lemma NewEntryNumber(hash: Digest, entries: seq<Entry>, r: Request, i: nat)
    requires Increasing(entries) && i < |entries|
    ensures NewEntry(hash, entries, r).number > entries[i].number && NewEntry(hash, entries, r).action == r.action
  {
    hide Redact, ContentOf;
  }

  lemma MarkerSilent(hash: Digest, kept: seq<Entry>, truncated: nat, r: Request, number: nat)
    requires Sound(hash, Log(Rebuilt(hash, kept), truncated)) && |kept| < MAX_ENTRIES
    requires r.action == "prune" && exists e :: e in kept && e.number == number
    ensures var rest := Rebuilt(hash, kept);
            var after := Record(hash, Log(rest, truncated), r).log.entries;
            LabelAfter(after, |after|, number) == LabelAfter(rest, |rest|, number)
  {
    hide NewEntry, Rebuilt, Decimal, Clean, ContentOf, Sound, LabelAfter;
    var rest := Rebuilt(hash, kept);
    SoundParts(hash, Log(rest, truncated));
    RebuiltChained(hash, kept);
    var s :| s in kept && s.number == number;
    var i :| 0 <= i < |kept| && kept[i] == s;
    NewEntryNumber(hash, rest, r, i);
    var e := NewEntry(hash, rest, r);
    LabelPrefix(rest + [e], rest, |rest|, number);
    LabelSkips(rest + [e], |rest| + 1, number);
  }

  /** No label entry is empty. */
  predicate LabelsSpeak(entries: seq<Entry>) {
    forall i :: 0 <= i < |entries| && entries[i].action == "label" ==> entries[i].label_ != ""
  }

  /**
   * If no label text is empty, a prune that keeps labels gives every surviving
   * entry the same label before and after.
   */
  lemma PruneKeepsLabels(hash: Digest, num: string -> int, log: Log, before: string, at: string, s: nat)
    requires ReadsDecimals(num) && Sound(hash, log) && LabelsSpeak(log.entries) && before != ""
    requires s < |log.entries| && log.entries[s] in Survivors(num, log, before, true)
    ensures var number := log.entries[s].number;
            var pruned := Prune(hash, num, log, before, true, at).log.entries;
            LabelAfter(pruned, |pruned|, number) == LabelAfter(log.entries, |log.entries|, number)
  {
    hide Prune, Sound, Kept, Labelled, LabelAfter, Decimal;
    var entries, number := log.entries, log.entries[s].number;
    var labelled := PruneSet(num, log, true);
    SoundParts(hash, log);
    KeptIn(entries, before, labelled, entries[s]);
    forall i | 0 <= i < |entries| && SpeaksOf(entries[i], number)
      ensures Stays(entries[i], before, labelled)
    {
      if entries[i].number == number {
        assert i == s;
      } else {
        LabelledHas(num, entries, |entries|, i);
      }
    }
    KeptLabel(entries, before, labelled, number);
    PrunedLabel(hash, num, log, before, at, number);
  }

  /** Every label entry carries its text twice, as label() writes it. */
  predicate LabelsAgree(entries: seq<Entry>) {
    forall i :: 0 <= i < |entries| && entries[i].action == "label" ==> entries[i].after == Str(entries[i].label_)
  }

  /** A label in force is decided by an entry that says it. */
  lemma {:induction false} LabelSpoken(entries: seq<Entry>, n: nat, number: nat) returns (i: nat)
    requires n <= |entries| && LabelsAgree(entries) && LabelAfter(entries, n, number) != Str("")
    ensures i < n && SpeaksOf(entries[i], number) && entries[i].label_ != ""
    ensures LabelAfter(entries, n, number) == Str(entries[i].label_)
    ensures forall j :: i < j < n ==> !SpeaksOf(entries[j], number)
  {
    hide Decimal;
    if SpeaksOf(entries[n - 1], number) {
      i := n - 1;
    } else {
      i := LabelSpoken(entries, n - 1, number);
    }
  }

  lemma {:induction false} LabelSilent(entries: seq<Entry>, i: nat, n: nat, number: nat)
    requires i < n <= |entries| && LabelsAgree(entries) && SpeaksOf(entries[i], number)
    requires forall j :: i < j < n ==> !SpeaksOf(entries[j], number)
    ensures LabelAfter(entries, n, number) == Str(entries[i].label_)
  {
    hide Decimal;
    if i < n - 1 { LabelSilent(entries, i, n - 1, number); }
  }

  /** Keeping entries keeps their order: what follows a kept entry among the kept followed it before. */
  lemma {:induction false} KeptTail(entries: seq<Entry>, before: string, labelled: set<int>, i: nat, number: nat)
    returns (k: nat)
    requires i < |entries| && Stays(entries[i], before, labelled)
    requires forall j :: i < j < |entries| ==> !SpeaksOf(entries[j], number)
    ensures var kept := Kept(entries, before, labelled);
            && k < |kept| && kept[k] == entries[i]
            && forall j :: k < j < |kept| ==> !SpeaksOf(kept[j], number)
  {
    hide Stays, SpeaksOf;
    var last := |entries| - 1;
    if i == last {
      k := |Kept(entries[..last], before, labelled)|;
    } else {
      k := KeptTail(entries[..last], before, labelled, i, number);
    }
  }

  /**
   * Whatever the texts are, a label in force survives: a prune that keeps labels can
   * at most bring back one that an empty label had cleared.
   */
  lemma LabelInForceSurvives(hash: Digest, num: string -> int, log: Log, before: string, at: string, s: nat)
    requires ReadsDecimals(num) && Sound(hash, log) && LabelsAgree(log.entries) && before != ""
    requires s < |log.entries| && log.entries[s] in Survivors(num, log, before, true)
    requires LabelAfter(log.entries, |log.entries|, log.entries[s].number) != Str("")
    ensures var number := log.entries[s].number;
            var pruned := Prune(hash, num, log, before, true, at).log.entries;
            LabelAfter(pruned, |pruned|, number) == LabelAfter(log.entries, |log.entries|, number)
  {
    hide Prune, Sound, Kept, Labelled, LabelAfter, Decimal, SpeaksOf;
    var entries, number := log.entries, log.entries[s].number;
    var labelled := PruneSet(num, log, true);
    var kept := Survivors(num, log, before, true);
    var i := LabelSpoken(entries, |entries|, number);
    LabelledHas(num, entries, |entries|, i);
    var k := KeptTail(entries, before, labelled, i, number);
    KeptAgrees(entries, before, labelled);
    LabelSilent(kept, k, |kept|, number);
    PrunedLabel(hash, num, log, before, at, number);
  }

  lemma KeptAgrees(entries: seq<Entry>, before: string, labelled: set<int>)
    requires LabelsAgree(entries)
    ensures LabelsAgree(Kept(entries, before, labelled))
  {
    var kept := Kept(entries, before, labelled);
    forall i | 0 <= i < |kept| && kept[i].action == "label" ensures kept[i].after == Str(kept[i].label_) {
      KeptIn(entries, before, labelled, kept[i]);
      assert kept[i] in entries;
    }
  }

  // ---------------------------------------------------------------- exactly when a label survives

  /** A labelling of the number is cleared later on, by an entry that a prune keeps. */
  predicate ClearedAfter(entries: seq<Entry>, before: string, labelled: set<int>, number: nat, i: nat) {
    exists j :: i < j < |entries| && SpeaksOf(entries[j], number) && entries[j].label_ == "" &&
                Stays(entries[j], before, labelled)
  }

  /** Every entry that labels the number is followed by an empty label for it that a prune keeps. */
  predicate StaysCleared(entries: seq<Entry>, before: string, labelled: set<int>, number: nat) {
    forall i :: 0 <= i < |entries| && SpeaksOf(entries[i], number) && entries[i].label_ != "" ==>
      ClearedAfter(entries, before, labelled, number, i)
  }

  /** Every entry with a label stays. */
  predicate LabelsStay(entries: seq<Entry>, before: string, labelled: set<int>) {
    forall i :: 0 <= i < |entries| && entries[i].label_ != "" ==> Stays(entries[i], before, labelled)
  }

  lemma ClearedByLast(entries: seq<Entry>, before: string, labelled: set<int>, number: nat)
    requires entries != []
    ensures var last, init := entries[|entries| - 1], entries[..|entries| - 1];
            StaysCleared(entries, before, labelled, number) <==>
              if !SpeaksOf(last, number) then StaysCleared(init, before, labelled, number)
              else last.label_ == "" &&
                   (Stays(last, before, labelled) || StaysCleared(init, before, labelled, number))
  {
    hide SpeaksOf, Stays;
    var k := |entries| - 1;
    var last, init := entries[k], entries[..k];
    forall i | 0 <= i < k
      ensures ClearedAfter(entries, before, labelled, number, i) <==>
        ClearedAfter(init, before, labelled, number, i) ||
        (SpeaksOf(last, number) && last.label_ == "" && Stays(last, before, labelled))
    {
      if ClearedAfter(init, before, labelled, number, i) {
        var j :| i < j < k && SpeaksOf(init[j], number) && init[j].label_ == "" && Stays(init[j], before, labelled);
        assert entries[j] == init[j];
      }
      if ClearedAfter(entries, before, labelled, number, i) {
        var j :| i < j < |entries| && SpeaksOf(entries[j], number) && entries[j].label_ == "" &&
                 Stays(entries[j], before, labelled);
        if j < k { assert init[j] == entries[j]; }
      }
    }
    assert !ClearedAfter(entries, before, labelled, number, k);
    hide ClearedAfter;
    assert forall i :: 0 <= i < k ==> init[i] == entries[i];
  }

  lemma LabelOfLast(entries: seq<Entry>, number: nat)
    requires entries != [] && LabelsAgree(entries) && SpeaksOf(entries[|entries| - 1], number)
    ensures LabelAfter(entries, |entries|, number) == Str(entries[|entries| - 1].label_)
  {
    hide Decimal;
  }

  /** What is kept gives the number no label if and only if every labelling of it stays cleared. */
  lemma {:induction false} KeptUnlabelled(entries: seq<Entry>, before: string, labelled: set<int>, number: nat)
    requires LabelsAgree(entries) && LabelsStay(entries, before, labelled)
    ensures var kept := Kept(entries, before, labelled);
            LabelAfter(kept, |kept|, number) == Str("") <==> StaysCleared(entries, before, labelled, number)
  {
    hide Stays, Decimal, LabelAfter, Kept, SpeaksOf;
    if entries == [] {
      KeptNone(before, labelled);
      NothingLabelled(number);
    } else {
      var k := |entries| - 1;
      var init, last := Kept(entries[..k], before, labelled), entries[k];
      KeptUnlabelled(entries[..k], before, labelled, number);
      KeptStep(entries, before, labelled);
      ClearedByLast(entries, before, labelled, number);
      hide StaysCleared;
      if Stays(last, before, labelled) {
        LabelPrefix(init + [last], init, |init|, number);
        KeptAgrees(entries, before, labelled);
        if SpeaksOf(last, number) {
          LabelOfLast(init + [last], number);
        } else {
          LabelSkips(init + [last], |init| + 1, number);
        }
      }
    }
  }

  lemma NothingLabelled(number: nat)
    ensures LabelAfter([], 0, number) == Str("")
  {
  }

  lemma PruneLabelsStay(num: string -> int, log: Log, before: string)
    ensures LabelsStay(log.entries, before, PruneSet(num, log, true))
  {
    var labelled := PruneSet(num, log, true);
    forall i | 0 <= i < |log.entries| && log.entries[i].label_ != "" ensures Stays(log.entries[i], before, labelled) {
      LabelledHas(num, log.entries, |log.entries|, i);
    }
  }

  /**
   * A prune that keeps labels gives a surviving entry the label it had if and only if
   * one was in force, or every labelling of the entry stays cleared.
   */
  lemma LabelSurvivesIff(hash: Digest, num: string -> int, log: Log, before: string, at: string, s: nat)
    requires ReadsDecimals(num) && Sound(hash, log) && LabelsAgree(log.entries) && before != ""
    requires s < |log.entries| && log.entries[s] in Survivors(num, log, before, true)
    ensures var number := log.entries[s].number;
            var pruned := Prune(hash, num, log, before, true, at).log.entries;
            LabelAfter(pruned, |pruned|, number) == LabelAfter(log.entries, |log.entries|, number) <==>
              LabelAfter(log.entries, |log.entries|, number) != Str("") ||
              StaysCleared(log.entries, before, PruneSet(num, log, true), number)
  {
    hide Prune, Sound, Kept, Labelled, LabelAfter, LabelsAgree, LabelsStay, StaysCleared;
    var entries, number := log.entries, log.entries[s].number;
    if LabelAfter(entries, |entries|, number) != Str("") {
      LabelInForceSurvives(hash, num, log, before, at, s);
    } else {
      PruneLabelsStay(num, log, before);
      KeptUnlabelled(entries, before, PruneSet(num, log, true), number);
      PrunedLabel(hash, num, log, before, at, number);
    }
  }

  // ---------------------------------------------------------------- labels over runs

  /** No entry is recorded as a label but by labelling. */
  predicate LabelsByLabel(ops: seq<Op>) {
    forall i :: 0 <= i < |ops| && ops[i].DoRecord? ==> ops[i].request.action != "label"
  }

  lemma RecordAgrees(hash: Digest, log: Log, r: Request)
    requires LabelsAgree(log.entries) && r.action != "label" && r.action != ""
    ensures LabelsAgree(Record(hash, log, r).log.entries)
  {
    hide Redact, ContentOf, Slice;
  }

  lemma LabelAgrees(hash: Digest, log: Log, number: nat, text: string, at: string)
    requires Sound(hash, log) && LabelsAgree(log.entries) && Find(log.entries, number) != []
    ensures LabelsAgree(Label(hash, log, number, text, at).log.entries)
  {
    LabelRecorded(hash, log, number, text, at);
    var out := Label(hash, log, number, text, at);
    hide Label, Sound;
    AgreeSuffix(log.entries + [out.entry], out.dropped);
  }

  lemma AgreeSuffix(entries: seq<Entry>, k: nat)
    requires LabelsAgree(entries) && k <= |entries|
    ensures LabelsAgree(entries[k..])
  {
  }

  lemma PruneAgrees(hash: Digest, num: string -> int, log: Log, before: string, keep: bool, at: string)
    requires LabelsAgree(log.entries) && before != ""
    ensures LabelsAgree(Prune(hash, num, log, before, keep, at).log.entries)
  {
    hide Kept, Labelled, Record, Rebuilt;
    var labelled := PruneSet(num, log, keep);
    var kept := Kept(log.entries, before, labelled);
    KeptAgrees(log.entries, before, labelled);
    RebuiltAgrees(hash, kept);
    var marker := PruneMarker(log, before, |kept|, |log.entries| - |kept|, keep, at);
    RecordAgrees(hash, Log(Rebuilt(hash, kept), log.truncated), marker);
  }

  lemma RebuiltAgrees(hash: Digest, kept: seq<Entry>)
    requires LabelsAgree(kept)
    ensures LabelsAgree(Rebuilt(hash, kept))
  {
    hide Rebuilt;
    RebuiltChained(hash, kept);
  }

  lemma StepAgrees(hash: Digest, num: string -> int, log: Log, op: Op)
    requires Sound(hash, log) && LabelsAgree(log.entries) && (op.DoRecord? ==> op.request.action != "label")
    ensures LabelsAgree(Step(hash, num, log, op).log.entries)
  {
    hide Record, Label, Prune, LabelsAgree, Sound;
    match op
    case DoRecord(r) => NoActionNoRecord(hash, log, r); if r.action != "" { RecordAgrees(hash, log, r); }
    case DoRestore(number, at) =>
      if Find(log.entries, number) != [] {
        RecordAgrees(hash, log, RestoreRequest(Find(log.entries, number)[0], number, at));
      }
    case DoLabel(number, text, at) =>
      NoEntryNoLabel(hash, log, number, text, at);
      if Find(log.entries, number) != [] { LabelAgrees(hash, log, number, text, at); }
    case DoPrune(before, keep, at) =>
      if before == "" { PruneNeedsDate(hash, num, log, keep, at); }
      else { PruneAgrees(hash, num, log, before, keep, at); }
  }

  lemma NoActionNoRecord(hash: Digest, log: Log, r: Request)
    ensures r.action == "" ==> Record(hash, log, r).NoAction?
  {
  }

  lemma NoEntryNoLabel(hash: Digest, log: Log, number: nat, text: string, at: string)
    ensures Find(log.entries, number) == [] ==> Label(hash, log, number, text, at).NoSuchEntry?
  {
  }

  /** In every run that labels only by labelling, each label entry carries its text twice. */
  lemma {:induction false} RunLabelsAgree(hash: Digest, num: string -> int, ops: seq<Op>)
    requires NeverEmpty(hash) && LabelsByLabel(ops)
    ensures LabelsAgree(Run(hash, num, ops).entries)
  {
    hide Step, Sound, LabelsAgree;
    if ops == [] {
      NoneDisagree();
    } else {
      var init := ops[..|ops| - 1];
      RunLabelsAgree(hash, num, init);
      RunSound(hash, num, init);
      StepAgrees(hash, num, Run(hash, num, init), ops[|ops| - 1]);
    }
  }

  lemma NoneDisagree()
    ensures LabelsAgree([])
  {
  }

  // ---------------------------------------------------------------- a label that comes back

  lemma LabelAppends(hash: Digest, log: Log, number: nat, text: string, at: string)
    requires Find(log.entries, number) != [] && |log.entries| < MAX_ENTRIES
    ensures var out := Label(hash, log, number, text, at);
            && out.Recorded? && out.log.entries == log.entries + [out.entry]
            && out.entry.number == log.entries[|log.entries| - 1].number + 1 && out.entry.at == at
            && out.entry.action == "label" && out.entry.target == Decimal(number)
            && out.entry.after == Str(Slice(text, MAX_LABEL)) && out.entry.label_ == Slice(text, MAX_LABEL)
  {
    hide ContentOf, Decimal;
  }

  lemma RunNext(hash: Digest, num: string -> int, ops: seq<Op>, op: Op)
    ensures Run(hash, num, ops + [op]) == Step(hash, num, Run(hash, num, ops), op).log
  {
    hide Step;
    assert (ops + [op])[..|ops|] == ops;
  }

  /** One entry is recorded, labelled, and its label cleared. */
  function LabelledAndCleared(text: string, at: string): seq<Op> {
    [DoRecord(Request("set", "", Null, Null, at, "")), DoLabel(1, text, at), DoLabel(1, "", at)]
  }

  lemma ClearedEntries(hash: Digest, num: string -> int, text: string, at: string)
    ensures var e := Run(hash, num, LabelledAndCleared(text, at)).entries;
            && |e| == 3 && (forall i :: 0 <= i < 3 ==> e[i].number == i + 1 && e[i].at == at)
            && SetThenLabelled(e, text)
            && e[2].action == "label" && e[2].target == Decimal(1) && e[2].after == Str("") && e[2].label_ == ""
  {
    hide Run, Label, Decimal, Find, MAX_ENTRIES;
    var all := LabelledAndCleared(text, at);
    var before := Run(hash, num, all[..2]);
    LabelledEntries(hash, num, text, at);
    FindFirst(before.entries);
    RunNext(hash, num, all[..2], all[2]);
    assert all[..2] + [all[2]] == all;
    RoomForThree();
    LabelAppends(hash, before, 1, "", at);
    LabelStep(hash, num, before, 1, "", at);
  }

  /** A recorded step and a label of it. */
  predicate SetThenLabelled(e: seq<Entry>, text: string) {
    && |e| >= 2
    && e[0].action == "set" && e[0].label_ == ""
    && e[1].action == "label" && e[1].target == Decimal(1)
    && e[1].after == Str(e[1].label_) && e[1].label_ == Slice(text, MAX_LABEL)
  }

  lemma LabelledEntries(hash: Digest, num: string -> int, text: string, at: string)
    ensures var e := Run(hash, num, LabelledAndCleared(text, at)[..2]).entries;
            && |e| == 2 && (forall i :: 0 <= i < 2 ==> e[i].number == i + 1 && e[i].at == at)
            && SetThenLabelled(e, text)
  {
    hide Run, Label, Decimal, Find;
    var all := LabelledAndCleared(text, at);
    var first := Run(hash, num, all[..1]);
    RunNothing(hash, num);
    RunNext(hash, num, [], all[0]);
    assert all[..1] == [] + [all[0]];
    FirstRecord(hash, all[0].request);
    RunNext(hash, num, all[..1], all[1]);
    assert all[..2] == all[..1] + [all[1]];
    LabelAppends(hash, first, 1, text, at);
    LabelStep(hash, num, first, 1, text, at);
  }

  lemma LabelStep(hash: Digest, num: string -> int, log: Log, number: nat, text: string, at: string)
    requires Label(hash, log, number, text, at).Recorded?
    ensures Step(hash, num, log, DoLabel(number, text, at)).log == Label(hash, log, number, text, at).log
  {
    hide Label;
  }

  lemma RoomForThree()
    ensures MAX_ENTRIES > 2
  {
  }

  lemma RunNothing(hash: Digest, num: string -> int)
    ensures Run(hash, num, []) == Empty()
  {
  }

  lemma FirstRecord(hash: Digest, r: Request)
    requires r.action != "" && r.label_ == ""
    ensures var out := Record(hash, Empty(), r);
            && out.Recorded? && out.log.entries == [out.entry] && out.entry.number == 1 && out.entry.at == r.at
            && out.entry.action == r.action && out.entry.label_ == ""
            && Find(out.log.entries, 1) == [out.entry]
  {
    hide ContentOf, Redact;
  }

  lemma FindFirst(entries: seq<Entry>)
    requires entries != []
    ensures Find(entries, entries[0].number) == [entries[0]]
  {
  }

  lemma ClearedSet(num: string -> int, e: seq<Entry>)
    requires ReadsDecimals(num) && |e| == 3 && forall i :: 0 <= i < 3 ==> e[i].number == i + 1
    requires e[0].action != "label" && e[0].label_ == "" && e[1].target == Decimal(1) && e[1].label_ != ""
    requires e[1].action == "label" && e[2].action == "label" && e[2].target == Decimal(1) && e[2].label_ == ""
    ensures Labelled(num, e, 3) == {1, 2}
  {
    assert num(Decimal(1)) == 1;
    hide Decimal;
    assert Labelled(num, e, 1) == {};
    assert Labelled(num, e, 2) == {1, 2};
  }

  lemma ClearedKept(e: seq<Entry>, before: string)
    requires |e| == 3 && forall i :: 0 <= i < 3 ==> e[i].number == i + 1
    requires !AtMost(before, Slice(e[2].at, 10))
    ensures Kept(e, before, {1, 2}) == e[..2]
  {
    hide Kept, AtMost;
    assert e[..2][..1] == e[..1] && e[..1][..0] == [];
    KeptNone(before, {1, 2});
    KeptStep(e[..1], before, {1, 2});
    KeptStep(e[..2], before, {1, 2});
    KeptStep(e, before, {1, 2});
  }

  /**
   * An entry is recorded, labelled, and the label cleared, all before a day; a prune
   * up to that day brings the label back.
   */
  lemma ClearedLabelComesBack(hash: Digest, num: string -> int, text: string, at: string, before: string)
    requires NeverEmpty(hash) && ReadsDecimals(num)
    requires text != "" && !AtMost(before, Slice(at, 10))
    ensures var ops := LabelledAndCleared(text, at);
            var log, pruned := Run(hash, num, ops), Run(hash, num, ops + [DoPrune(before, true, at)]);
            && LabelAfter(log.entries, |log.entries|, 1) == Str("")
            && LabelAfter(pruned.entries, |pruned.entries|, 1) == Str(Slice(text, 120)) != Str("")
  {
    var ops := LabelledAndCleared(text, at);
    var log := Run(hash, num, ops);
    var e := log.entries;
    hide Run, Sound, Kept, Labelled, LabelledAndCleared, Prune;
    assert before != "";
    hide AtMost;
    ClearedEntries(hash, num, text, at);
    ClearedSet(num, e);
    ClearedKept(e, before);
    LabelLast(e, 1);
    LabelLast(e[..2], 1);
    hide LabelAfter, Decimal, Slice;
    RunSound(hash, num, ops);
    assert e[..2][0] == e[0];
    PrunedLabel(hash, num, log, before, at, 1);
    RunNext(hash, num, ops, DoPrune(before, true, at));
    PruneWithDate(hash, num, log, before, at);
  }

  lemma PruneWithDate(hash: Digest, num: string -> int, log: Log, before: string, at: string)
    requires before != ""
    ensures var p := Prune(hash, num, log, before, true, at);
            p.Pruned? && Step(hash, num, log, DoPrune(before, true, at)).log == p.log
  {
    hide Kept, Record, Rebuilt;
  }
}
