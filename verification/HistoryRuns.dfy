// What holds of the history over whole runs of its operations.
module HistoryRuns {
  import opened Text
  import opened Canonical
  import opened History

  // ---------------------------------------------------------------- tamper evidence

  /** Entry by entry the same canonical content. */
  ghost predicate SameContents(a: seq<Entry>, b: seq<Entry>) {
    |a| == |b| && forall i :: 0 <= i < |a| ==> ContentOf(a[i]) == ContentOf(b[i])
  }

  /** Two different contents, one in each log, that hash alike. */
  ghost predicate Collision(hash: Digest, a: seq<Entry>, b: seq<Entry>) {
    exists i, j :: 0 <= i < |a| && 0 <= j < |b| && Collide(hash, a[i], b[j])
  }

  ghost predicate Collide(hash: Digest, d: Entry, e: Entry) {
    ContentOf(d) != ContentOf(e) && hash(ContentOf(d)) == hash(ContentOf(e))
  }

  lemma ChainPrefix(hash: Digest, entries: seq<Entry>, parent: string, n: nat)
    requires n <= |entries| && Chained(hash, entries, parent)
    ensures Chained(hash, entries[..n], parent)
  {
    forall i | 0 <= i < n ensures LinkedAt(hash, entries[..n], i, parent) {
      assert LinkedAt(hash, entries, i, parent);
    }
  }

  lemma ParentOfContent(e: Entry)
    ensures ContentOf(e).parent == e.parent
  {
  }

  lemma OnlyFirstHasNoParent(hash: Digest, a: seq<Entry>)
    requires NeverEmpty(hash) && a != [] && Chained(hash, a, "")
    ensures a[|a| - 1].parent == "" <==> |a| == 1
  {
    hide ContentOf;
    assert LinkedAt(hash, a, |a| - 1, "");
    if |a| > 1 { assert LinkedAt(hash, a, |a| - 2, ""); }
  }

  /**
   * Two intact logs that end in the same hash tell the same history, or they
   * exhibit a collision of the digest.
   */
  lemma {:induction false} SameEndSameHistory(hash: Digest, a: seq<Entry>, b: seq<Entry>)
    requires NeverEmpty(hash)
    requires a != [] && b != [] && Chained(hash, a, "") && Chained(hash, b, "")
    requires a[|a| - 1].hash == b[|b| - 1].hash
    ensures SameContents(a, b) || Collision(hash, a, b)
  {
    hide ContentOf;
    ParentOfContent(a[|a| - 1]);
    ParentOfContent(b[|b| - 1]);
    OnlyFirstHasNoParent(hash, a);
    OnlyFirstHasNoParent(hash, b);
    var m, n := |a| - 1, |b| - 1;
    assert LinkedAt(hash, a, m, "") && LinkedAt(hash, b, n, "");
    if ContentOf(a[m]) != ContentOf(b[n]) {
      assert Collide(hash, a[m], b[n]);
    } else if m > 0 && n > 0 {
      ChainPrefix(hash, a, "", m);
      ChainPrefix(hash, b, "", n);
      SameEndSameHistory(hash, a[..m], b[..n]);
      if Collision(hash, a[..m], b[..n]) {
        var i, j :| 0 <= i < m && 0 <= j < n && Collide(hash, a[..m][i], b[..n][j]);
        assert Collide(hash, a[i], b[j]);
      }
    }
  }

  /** With a digest that never collides, the last hash determines the whole log. */
  lemma LastHashDetermines(hash: Digest, a: seq<Entry>, b: seq<Entry>)
    requires NeverEmpty(hash)
    requires forall c: Content, d: Content :: hash(c) == hash(d) ==> c == d
    requires a != [] && b != [] && Chained(hash, a, "") && Chained(hash, b, "")
    ensures a[|a| - 1].hash == b[|b| - 1].hash <==> SameContents(a, b)
  {
    if a[|a| - 1].hash == b[|b| - 1].hash {
      SameEndSameHistory(hash, a, b);
    }
    assert LinkedAt(hash, a, |a| - 1, "") && LinkedAt(hash, b, |b| - 1, "");
  }

  /** Field by field the same, the values up to the order of their keys; the hashes aside. */
  predicate SaysTheSame(d: Entry, e: Entry) {
    && d.number == e.number && d.at == e.at && d.action == e.action && d.target == e.target
    && Alike(d.before, e.before) && Alike(d.after, e.after) && d.label_ == e.label_ && d.parent == e.parent
  }

  predicate WellFormedEntry(e: Entry) {
    WellFormed(e.before) && WellFormed(e.after)
  }

  /** The canonical content leaves out nothing that an entry says. */
  lemma ContentTells(d: Entry, e: Entry)
    requires WellFormedEntry(d) && WellFormedEntry(e)
    ensures ContentOf(d) == ContentOf(e) <==> SaysTheSame(d, e)
  {
    hide Stable, Alike, WellFormed;
    StableIffAlike(d.before, e.before);
    StableIffAlike(d.after, e.after);
  }

  /** So a changed field of any entry of an intact log shows in its last hash, or is a collision of the digest. */
  lemma ChangeShows(hash: Digest, a: seq<Entry>, b: seq<Entry>, i: nat)
    requires NeverEmpty(hash) && |a| == |b| && i < |a| && Chained(hash, a, "") && Chained(hash, b, "")
    requires WellFormedEntry(a[i]) && WellFormedEntry(b[i]) && !SaysTheSame(a[i], b[i])
    ensures a[|a| - 1].hash != b[|b| - 1].hash || Collision(hash, a, b)
  {
    hide ContentOf, SaysTheSame, Chained, Collision;
    ContentTells(a[i], b[i]);
    if a[|a| - 1].hash == b[|b| - 1].hash { SameEndSameHistory(hash, a, b); }
  }

  // ---------------------------------------------------------------- one record

  /** What is recorded is what was asked for, redacted, under the next number and behind the last hash. */
  lemma RecordSays(hash: Digest, log: Log, r: Request)
    requires r.action != ""
    ensures var out := Record(hash, log, r);
            && out.Recorded?
            && out.entry.number == (if log.entries == [] then 1 else log.entries[|log.entries| - 1].number + 1)
            && out.entry.parent == (if log.entries == [] then "" else log.entries[|log.entries| - 1].hash)
            && out.entry.at == r.at && out.entry.action == r.action && out.entry.target == r.target
            && out.entry.before == Redact(r.before, 0) && out.entry.after == Redact(r.after, 0)
            && out.entry.label_ <= r.label_ && |out.entry.label_| == if |r.label_| <= 120 then |r.label_| else 120
  {
    hide Redact, ContentOf;
  }

  ghost predicate Increasing(entries: seq<Entry>) {
    && (forall i :: 0 <= i < |entries| ==> entries[i].number >= 1)
    && forall i, j :: 0 <= i < j < |entries| ==> entries[i].number < entries[j].number
  }

  function FirstParent(entries: seq<Entry>): string {
    if entries == [] then "" else entries[0].parent
  }

  /** What every reachable log satisfies, cap drops or not. */
  ghost predicate Sound(hash: Digest, log: Log) {
    && Chained(hash, log.entries, FirstParent(log.entries))
    && Increasing(log.entries)
    && |log.entries| <= MAX_ENTRIES
    && forall i :: 0 <= i < |log.entries| ==> CleanEntry(log.entries[i])
  }

  predicate CleanEntry(e: Entry) {
    Clean(e.before, 9) && Clean(e.after, 9) && |e.label_| <= MAX_LABEL
  }

  lemma NewEntryFits(hash: Digest, entries: seq<Entry>, r: Request, parent: string)
    requires Chained(hash, entries, parent) && Increasing(entries) && (entries == [] ==> parent == "")
    ensures var e := NewEntry(hash, entries, r);
            && Chained(hash, entries + [e], parent) && Increasing(entries + [e]) && CleanEntry(e)
            && e.hash == hash(ContentOf(e)) && e.action == r.action && e.target == r.target
  {
    var e := NewEntry(hash, entries, r);
    RedactCleans(r.before, 0);
    RedactCleans(r.after, 0);
    hide Redact, Clean, ContentOf;
    NewEntryLinked(hash, entries, r);
    var next := entries + [e];
    forall i | 0 <= i < |next| ensures LinkedAt(hash, next, i, parent) {
      if i < |entries| { assert LinkedAt(hash, entries, i, parent); }
    }
  }

  lemma NewEntryLinked(hash: Digest, entries: seq<Entry>, r: Request)
    ensures var e := NewEntry(hash, entries, r); e.hash == hash(ContentOf(e))
  {
    hide Redact, Stable, Slice;
  }

  lemma ChainSuffix(hash: Digest, entries: seq<Entry>, parent: string, k: nat)
    requires k < |entries| && Chained(hash, entries, parent)
    ensures Chained(hash, entries[k..], FirstParent(entries[k..]))
  {
    forall i | 0 <= i < |entries| - k ensures LinkedAt(hash, entries[k..], i, FirstParent(entries[k..])) {
      assert LinkedAt(hash, entries, k + i, parent);
      if i > 0 { assert entries[k..][i - 1] == entries[k + i - 1]; }
    }
  }

  /**
   * record: the old entries stay an exact prefix (less what the cap drops), the
   * truncation counter accounts for every drop, and the log stays sound.
   */
  lemma RecordKeeps(hash: Digest, log: Log, r: Request)
    requires Sound(hash, log) && r.action != ""
    ensures var out := Record(hash, log, r);
            && out.Recorded? && out.dropped <= 1 && Sound(hash, out.log)
            && out.log.entries == (log.entries + [out.entry])[out.dropped..]
            && out.log.truncated + |out.log.entries| == log.truncated + |log.entries| + 1
            && (out.dropped > 0 <==> |log.entries| == 5000)
  {
    hide Redact, Stable, Clean, LinkedAt;
    var e := NewEntry(hash, log.entries, r);
    NewEntryFits(hash, log.entries, r, FirstParent(log.entries));
    var next := log.entries + [e];
    if |next| > MAX_ENTRIES {
      ChainSuffix(hash, next, FirstParent(log.entries), 1);
    } else {
      assert FirstParent(next) == FirstParent(log.entries) by { hide Chained; NewEntryParent(hash, log.entries, r); }
    }
  }

  lemma NewEntryParent(hash: Digest, entries: seq<Entry>, r: Request)
    ensures FirstParent(entries + [NewEntry(hash, entries, r)]) == FirstParent(entries)
  {
    hide Redact, ContentOf, Slice;
  }

  /** After a drop the first kept entry still names a parent. */
  lemma DropLeavesParent(hash: Digest, log: Log, r: Request)
    requires NeverEmpty(hash) && Sound(hash, log) && r.action != ""
    ensures var out := Record(hash, log, r);
            FirstParent(out.log.entries) == "" <==> out.dropped == 0 && FirstParent(log.entries) == ""
  {
    hide Redact, Stable, Clean;
    var e := NewEntry(hash, log.entries, r);
    var next := log.entries + [e];
    NewEntryFits(hash, log.entries, r, FirstParent(log.entries));
    NewEntryParent(hash, log.entries, r);
    if |next| > MAX_ENTRIES {
      assert LinkedAt(hash, next, 1, FirstParent(log.entries));
      assert LinkedAt(hash, next, 0, FirstParent(log.entries));
    }
  }

  /** A sound log passes verify if and only if its first entry names no parent. */
  lemma VerifiesIffFirst(hash: Digest, log: Log)
    requires Sound(hash, log)
    ensures Chained(hash, log.entries, "") <==> FirstParent(log.entries) == ""
  {
    if log.entries != [] && Chained(hash, log.entries, "") {
      assert LinkedAt(hash, log.entries, 0, "");
    }
  }

  /**
   * restore: the new entry swaps the old one's values, redacted again, and the old
   * entry stays. A value comes back exactly if and only if every text in it is settled.
   */
  lemma RestoreBringsBack(hash: Digest, log: Log, number: nat, at: string)
    requires Sound(hash, log)
    ensures var found, out := Find(log.entries, number), Restore(hash, log, number, at);
            && (found == [] ==> out.NoSuchEntry?)
            && (found != [] ==>
                  && out.Recorded? && out.entry.action == "restore"
                  && out.entry.after == Redact(found[0].before, 0) && out.entry.before == Redact(found[0].after, 0)
                  && (out.entry.after == found[0].before <==> AllSettled(found[0].before))
                  && (out.entry.before == found[0].after <==> AllSettled(found[0].after))
                  && out.entry.target ==
                     (if found[0].target == "" then found[0].action else found[0].action + " \U{b7} " + found[0].target)
                  && out.entry.at == at
                  && out.entry.label_ == Slice("Restored the value from entry " + Decimal(number), 120)
                  && out.log.entries == (log.entries + [out.entry])[out.dropped..])
  {
    hide Redact, Stable, Clean, AllSettled, Chained, Decimal, Slice;
    var found := Find(log.entries, number);
    if found != [] {
      var e := found[0];
      assert CleanEntry(e);
      RedactAgain(e.before, 0);
      RedactAgain(e.after, 0);
    }
  }

  lemma {:induction false} FindNumber(entries: seq<Entry>, i: nat)
    requires Increasing(entries) && i < |entries|
    ensures Find(entries, entries[i].number) == [entries[i]]
  {
    if i > 0 {
      assert entries[1..][i - 1] == entries[i];
      FindNumber(entries[1..], i - 1);
    }
  }

  /** Recording a value and restoring it gives back what was recorded, if and only if the value survives redaction. */
  lemma RestoreAfterRecord(hash: Digest, log: Log, r: Request, at: string)
    requires Sound(hash, log) && r.action != ""
    ensures var first := Record(hash, log, r);
            && first.Recorded?
            && (var out := Restore(hash, first.log, first.entry.number, at);
                && out.Recorded? && out.entry.action == "restore"
                && (out.entry.after == first.entry.before <==> Survives(r.before, 0))
                && (out.entry.before == first.entry.after <==> Survives(r.after, 0)))
  {
    var first := Record(hash, log, r);
    RecordKeeps(hash, log, r);
    RecordedValues(hash, log, r);
    hide Record, Redact, AllSettled, Survives, Sound;
    var last := |first.log.entries| - 1;
    SoundIncreases(hash, first.log);
    FindNumber(first.log.entries, last);
    RestoreBringsBack(hash, first.log, first.entry.number, at);
    RedactedSettled(r.before, 0);
    RedactedSettled(r.after, 0);
  }

  lemma SoundIncreases(hash: Digest, log: Log)
    requires Sound(hash, log)
    ensures Increasing(log.entries)
  {
  }

  lemma RecordedValues(hash: Digest, log: Log, r: Request)
    requires r.action != ""
    ensures var first := Record(hash, log, r);
            && first.Recorded? && first.log.entries != []
            && first.log.entries[|first.log.entries| - 1] == first.entry
            && first.entry.before == Redact(r.before, 0) && first.entry.after == Redact(r.after, 0)
  {
    hide Redact, ContentOf, Slice;
  }

  /** In a new log, a text that is too long by anything but 35 is recorded and does not come back as it was recorded. */
  lemma LongTextIsLost(hash: Digest, s: string, at: string)
    requires |s| > MAX_VALUE
    ensures var first := Record(hash, Empty(), Request("set", "", Str(s), Null, at, ""));
            && first.Recorded?
            && (var out := Restore(hash, first.log, first.entry.number, at);
                out.Recorded? && (out.entry.after == first.entry.before <==> |s| == MAX_VALUE + 35))
  {
    hide Record, Restore, Sound;
    EmptyIsSound(hash);
    RestoreAfterRecord(hash, Empty(), Request("set", "", Str(s), Null, at, ""), at);
  }

  lemma EmptyIsSound(hash: Digest)
    ensures Sound(hash, Empty())
  {
  }

  // ---------------------------------------------------------------- one prune

  /** Chaining anew changes nothing but parents and hashes, and yields an intact chain. */
  lemma {:induction false} RebuiltChained(hash: Digest, kept: seq<Entry>)
    ensures Chained(hash, Rebuilt(hash, kept), "")
    ensures forall i :: 0 <= i < |kept| ==>
      Rebuilt(hash, kept)[i] == kept[i].(parent := Rebuilt(hash, kept)[i].parent, hash := Rebuilt(hash, kept)[i].hash)
  {
    hide ContentOf;
    if kept != [] {
      var k := |kept| - 1;
      var init, r := Rebuilt(hash, kept[..k]), Rebuilt(hash, kept);
      RebuiltChained(hash, kept[..k]);
      assert r[..k] == init;
      RebuiltLast(hash, kept);
      forall i | 0 <= i < |r| ensures LinkedAt(hash, r, i, "") {
        if i < k { assert LinkedAt(hash, init, i, ""); }
      }
    }
  }

  lemma RebuiltLast(hash: Digest, kept: seq<Entry>)
    requires kept != []
    ensures var k, r := |kept| - 1, Rebuilt(hash, kept);
            && r[k].hash == hash(ContentOf(r[k]))
            && r[k].parent == (if k == 0 then "" else r[k - 1].hash)
            && r[k] == kept[k].(parent := r[k].parent, hash := r[k].hash)
  {
    hide Stable;
  }

  lemma {:induction false} KeptIn(entries: seq<Entry>, before: string, labelled: set<int>, e: Entry)
    ensures e in Kept(entries, before, labelled) <==> e in entries && Stays(e, before, labelled)
  {
    if entries != [] {
      var k := |entries| - 1;
      KeptIn(entries[..k], before, labelled, e);
      assert e in entries <==> e in entries[..k] || e == entries[k];
    }
  }

  lemma KeptNone(before: string, labelled: set<int>)
    ensures Kept([], before, labelled) == []
  {
  }

  lemma KeptStep(entries: seq<Entry>, before: string, labelled: set<int>)
    requires entries != []
    ensures var k := |entries| - 1;
            var init := Kept(entries[..k], before, labelled);
            Kept(entries, before, labelled) == if Stays(entries[k], before, labelled) then init + [entries[k]] else init
  {
    hide Stays;
  }

  lemma {:induction false} KeptIncreasing(entries: seq<Entry>, before: string, labelled: set<int>)
    requires Increasing(entries)
    ensures Increasing(Kept(entries, before, labelled))
  {
    hide Stays, Kept;
    if entries == [] {
      KeptNone(before, labelled);
    } else {
      var k := |entries| - 1;
      var init := Kept(entries[..k], before, labelled);
      KeptStep(entries, before, labelled);
      KeptIncreasing(entries[..k], before, labelled);
      forall i | 0 <= i < |init| ensures init[i].number < entries[k].number {
        KeptIn(entries[..k], before, labelled, init[i]);
        assert init[i] in entries[..k];
      }
    }
  }

  lemma KeptClean(entries: seq<Entry>, before: string, labelled: set<int>)
    requires forall i :: 0 <= i < |entries| ==> CleanEntry(entries[i])
    ensures forall i :: 0 <= i < |Kept(entries, before, labelled)| ==> CleanEntry(Kept(entries, before, labelled)[i])
  {
    hide CleanEntry, Stays;
    var kept := Kept(entries, before, labelled);
    forall i | 0 <= i < |kept| ensures CleanEntry(kept[i]) {
      KeptIn(entries, before, labelled, kept[i]);
      assert kept[i] in entries;
    }
  }

  lemma RebuiltSound(hash: Digest, kept: seq<Entry>, truncated: nat)
    requires Increasing(kept) && |kept| <= MAX_ENTRIES && forall i :: 0 <= i < |kept| ==> CleanEntry(kept[i])
    ensures Sound(hash, Log(Rebuilt(hash, kept), truncated)) && FirstParent(Rebuilt(hash, kept)) == ""
  {
    RebuiltChained(hash, kept);
    var r := Rebuilt(hash, kept);
    hide Clean, Rebuilt;
    if kept != [] { assert LinkedAt(hash, r, 0, ""); }
    forall i | 0 <= i < |r| ensures CleanEntry(r[i]) {
      assert CleanEntry(kept[i]);
    }
  }

  /**
   * prune: when it removes something the result is sound and passes verify again,
   * whatever the log looked like; what it removed and what is left add up.
   */
  lemma PruneKeeps(hash: Digest, num: string -> int, log: Log, before: string, keep: bool, at: string)
    requires NeverEmpty(hash) && Sound(hash, log) && before != ""
    ensures var out := Prune(hash, num, log, before, keep, at);
            && Sound(hash, out.log)
            && (out.removed == 0 ==> out.log == log)
            && (out.removed > 0 ==> FirstParent(out.log.entries) == "" && Chained(hash, out.log.entries, ""))
            && (out.removed > 0 ==> out.log.truncated == log.truncated)
            && (out.removed > 0 ==> |out.log.entries| + out.removed == |log.entries| + 1)
  {
    hide Kept, Rebuilt, Record, Labelled, Sound, CleanEntry;
    var labelled := PruneSet(num, log, keep);
    var kept := Survivors(num, log, before, keep);
    var removed := |log.entries| - |kept|;
    SoundParts(hash, log);
    KeptIncreasing(log.entries, before, labelled);
    KeptClean(log.entries, before, labelled);
    if removed > 0 {
      var rest := Log(Rebuilt(hash, kept), log.truncated);
      RebuiltSound(hash, kept, log.truncated);
      var marker := PruneMarker(log, before, |kept|, removed, keep, at);
      RecordKeeps(hash, rest, marker);
      DropLeavesParent(hash, rest, marker);
      VerifiesIffFirst(hash, Record(hash, rest, marker).log);
    }
  }

  /** What a prune that removes something leaves: the survivors chained anew, and an entry that says what went. */
  lemma PruneLeaves(hash: Digest, num: string -> int, log: Log, before: string, keep: bool, at: string)
    requires NeverEmpty(hash) && Sound(hash, log) && before != ""
    ensures var out, kept := Prune(hash, num, log, before, keep, at), Survivors(num, log, before, keep);
            && out.Pruned? && out.removed == |log.entries| - |kept|
            && (out.removed > 0 ==>
                  var n := |out.log.entries| - 1;
                  && n == |kept| && out.log.entries[..n] == Rebuilt(hash, kept)
                  && Marks(out.log.entries[n], |log.entries|, |kept|, before, keep, at))
  {
    hide Kept, Rebuilt, Record, Labelled, Sound, CleanEntry, PruneMarker, Marks;
    var labelled := PruneSet(num, log, keep);
    var kept := Survivors(num, log, before, keep);
    var removed := |log.entries| - |kept|;
    SoundParts(hash, log);
    if removed > 0 {
      var rest := Log(Rebuilt(hash, kept), log.truncated);
      MarkerAppended(hash, rest, log, before, |kept|, removed, keep, at);
    }
  }

  /** The entry is the mark of a prune up to the day, with how many entries there were before and after. */
  predicate Marks(e: Entry, was: nat, left: nat, before: string, keep: bool, at: string) {
    && e.action == "prune" && e.target == "entries before " + before && e.at == at
    && e.before == Object([Field("entries", Number(was))]) && e.after == Object([Field("entries", Number(left))])
    && (was >= left ==>
          var how := if keep then "keeping every labelled one" else "including labelled ones";
          e.label_ == Slice(Decimal(was - left) + " entries removed, " + how, 120))
  }

  lemma MarkerAppended(hash: Digest, rest: Log, log: Log, before: string, kept: nat, removed: nat, keep: bool,
                       at: string)
    requires |rest.entries| < 5000 && removed == |log.entries| - kept
    ensures var out := Record(hash, rest, PruneMarker(log, before, kept, removed, keep, at));
            && out.Recorded? && out.log.entries == rest.entries + [out.entry]
            && Marks(out.entry, |log.entries|, kept, before, keep, at)
  {
    hide ContentOf, Decimal;
    assert "entries" !in NEVER_RECORDED;
    var r := PruneMarker(log, before, kept, removed, keep, at);
    SmallCount(|log.entries|);
    SmallCount(kept);
    hide Redact;
    RecordSays(hash, rest, r);
  }

  lemma SmallCount(n: nat)
    ensures Redact(Object([Field("entries", Number(n))]), 0) == Object([Field("entries", Number(n))])
  {
    assert "entries" !in NEVER_RECORDED;
    assert RedactFields([Field("entries", Number(n))], 1) == [Field("entries", Number(n))];
  }

  lemma SoundParts(hash: Digest, log: Log)
    requires Sound(hash, log)
    ensures Increasing(log.entries) && |log.entries| <= MAX_ENTRIES
    ensures forall i :: 0 <= i < |log.entries| ==> CleanEntry(log.entries[i])
  {
  }

  // ---------------------------------------------------------------- whole runs

  datatype Op =
    | DoRecord(request: Request)
    | DoRestore(number: nat, at: string)
    | DoLabel(number: nat, text: string, at: string)
    | DoPrune(before: string, keep: bool, at: string)

  /** What one operation does: the log afterwards and how much went in, fell off and was removed. */
  datatype Effect = Effect(log: Log, appended: nat, dropped: nat, removed: nat)

  function OfRecorded(log: Log, r: Recorded): Effect {
    if r.Recorded? then Effect(r.log, 1, r.dropped, 0) else Effect(log, 0, 0, 0)
  }

  /** A refused operation leaves the log as it was. */
  function Step(hash: Digest, num: string -> int, log: Log, op: Op): Effect {
    match op
    case DoRecord(r) => OfRecorded(log, Record(hash, log, r))
    case DoRestore(number, at) => OfRecorded(log, Restore(hash, log, number, at))
    case DoLabel(number, text, at) => OfRecorded(log, Label(hash, log, number, text, at))
    case DoPrune(before, keep, at) =>
      var p := Prune(hash, num, log, before, keep, at);
      if p.NoDate? then Effect(log, 0, 0, 0)
      else Effect(p.log, if p.removed > 0 then 1 else 0, 0, p.removed)
  }

  function Run(hash: Digest, num: string -> int, ops: seq<Op>): Log {
    if ops == [] then Empty()
    else Step(hash, num, Run(hash, num, ops[..|ops| - 1]), ops[|ops| - 1]).log
  }

  /** Entries ever appended, and entries ever removed by pruning. */
  function Appended(hash: Digest, num: string -> int, ops: seq<Op>): nat {
    if ops == [] then 0
    else
      var init := ops[..|ops| - 1];
      Appended(hash, num, init) + Step(hash, num, Run(hash, num, init), ops[|ops| - 1]).appended
  }

  function Removed(hash: Digest, num: string -> int, ops: seq<Op>): nat {
    if ops == [] then 0
    else
      var init := ops[..|ops| - 1];
      Removed(hash, num, init) + Step(hash, num, Run(hash, num, init), ops[|ops| - 1]).removed
  }

  /** Nothing has been dropped by the cap since the last prune that removed something. */
  predicate Whole(hash: Digest, num: string -> int, ops: seq<Op>) {
    ops == []
    || (var init := ops[..|ops| - 1];
        var effect := Step(hash, num, Run(hash, num, init), ops[|ops| - 1]);
        effect.removed > 0 || (effect.dropped == 0 && Whole(hash, num, init)))
  }

  /** What one operation keeps, from a sound log. */
  lemma StepKeeps(hash: Digest, num: string -> int, log: Log, op: Op)
    requires NeverEmpty(hash) && Sound(hash, log)
    ensures var out := Step(hash, num, log, op);
            && Sound(hash, out.log)
            && out.log.truncated + |out.log.entries| + out.removed == log.truncated + |log.entries| + out.appended
            && (FirstParent(out.log.entries) == "" <==>
                  out.removed > 0 || (out.dropped == 0 && FirstParent(log.entries) == ""))
  {
    hide Sound, FirstParent, Record, Prune;
    match op
    case DoRecord(r) =>
      RecordStep(hash, log, r);
    case DoRestore(number, at) =>
      var found := Find(log.entries, number);
      if found != [] { RecordStep(hash, log, RestoreRequest(found[0], number, at)); }
    case DoLabel(number, text, at) =>
      var found := Find(log.entries, number);
      if found != [] {
        RecordStep(hash, log, Request("label", Decimal(number), Str(found[0].label_),
                                      Str(Slice(text, MAX_LABEL)), at, Slice(text, MAX_LABEL)));
      }
    case DoPrune(before, keep, at) =>
      if before == "" {
        PruneNeedsDate(hash, num, log, keep, at);
      } else {
        PruneKeeps(hash, num, log, before, keep, at);
      }
  }

  lemma PruneNeedsDate(hash: Digest, num: string -> int, log: Log, keep: bool, at: string)
    ensures Prune(hash, num, log, "", keep, at).NoDate?
  {
  }

  lemma RecordStep(hash: Digest, log: Log, r: Request)
    requires NeverEmpty(hash) && Sound(hash, log)
    ensures var out := OfRecorded(log, Record(hash, log, r));
            && Sound(hash, out.log)
            && out.log.truncated + |out.log.entries| == log.truncated + |log.entries| + out.appended
            && out.removed == 0
            && (FirstParent(out.log.entries) == "" <==> out.dropped == 0 && FirstParent(log.entries) == "")
  {
    if r.action != "" {
      RecordKeeps(hash, log, r);
      DropLeavesParent(hash, log, r);
    }
    hide Sound, NewEntry, FirstParent;
  }

  /** Every reachable log is sound: links, numbers, cap and redaction. */
  lemma {:induction false} RunSound(hash: Digest, num: string -> int, ops: seq<Op>)
    requires NeverEmpty(hash)
    ensures Sound(hash, Run(hash, num, ops))
  {
    hide Step;
    if ops != [] {
      RunSound(hash, num, ops[..|ops| - 1]);
      StepKeeps(hash, num, Run(hash, num, ops[..|ops| - 1]), ops[|ops| - 1]);
    }
  }

  /** Nothing is lost silently: every entry ever appended is present, truncated or pruned. */
  lemma {:induction false} RunAccounts(hash: Digest, num: string -> int, ops: seq<Op>)
    requires NeverEmpty(hash)
    ensures var log := Run(hash, num, ops);
            |log.entries| + log.truncated + Removed(hash, num, ops) == Appended(hash, num, ops)
  {
    hide Step, Sound;
    if ops != [] {
      var init := ops[..|ops| - 1];
      RunAccounts(hash, num, init);
      RunSound(hash, num, init);
      StepKeeps(hash, num, Run(hash, num, init), ops[|ops| - 1]);
    }
  }

  lemma {:induction false} RunFirstParent(hash: Digest, num: string -> int, ops: seq<Op>)
    requires NeverEmpty(hash)
    ensures FirstParent(Run(hash, num, ops).entries) == "" <==> Whole(hash, num, ops)
  {
    hide Step, Sound;
    if ops != [] {
      var init := ops[..|ops| - 1];
      RunFirstParent(hash, num, init);
      RunSound(hash, num, init);
      StepKeeps(hash, num, Run(hash, num, init), ops[|ops| - 1]);
    }
  }

  /**
   * verify accepts a reachable log if and only if the cap has dropped nothing since
   * the last prune that removed something.
   */
  lemma RunVerifiesIffWhole(hash: Digest, num: string -> int, ops: seq<Op>)
    requires NeverEmpty(hash)
    ensures Chained(hash, Run(hash, num, ops).entries, "") <==> Whole(hash, num, ops)
  {
    hide Run, Whole, Sound;
    RunSound(hash, num, ops);
    RunFirstParent(hash, num, ops);
    VerifiesIffFirst(hash, Run(hash, num, ops));
  }

  // ---------------------------------------------------------------- runs without a prune

  predicate NoPrune(ops: seq<Op>) {
    forall i :: 0 <= i < |ops| ==> !ops[i].DoPrune?
  }

  lemma StepWithoutPrune(hash: Digest, num: string -> int, log: Log, op: Op)
    requires NeverEmpty(hash) && Sound(hash, log) && !op.DoPrune?
    ensures var out := Step(hash, num, log, op);
            && out.removed == 0 && out.appended <= 1
            && out.dropped == (if out.appended == 1 && |log.entries| == MAX_ENTRIES then 1 else 0)
            && |out.log.entries| == |log.entries| + out.appended - out.dropped
  {
    hide Sound, NewEntry;
    SoundParts(hash, log);
  }

  lemma {:induction false} RunWithoutPrune(hash: Digest, num: string -> int, ops: seq<Op>)
    requires NeverEmpty(hash) && NoPrune(ops)
    ensures var n := Appended(hash, num, ops);
            && |Run(hash, num, ops).entries| == (if n <= MAX_ENTRIES then n else MAX_ENTRIES)
            && (Whole(hash, num, ops) <==> n <= MAX_ENTRIES)
  {
    hide Step, Sound;
    if ops != [] {
      var init := ops[..|ops| - 1];
      RunWithoutPrune(hash, num, init);
      RunSound(hash, num, init);
      StepWithoutPrune(hash, num, Run(hash, num, init), ops[|ops| - 1]);
    }
  }

  /** Without a prune, verify accepts the log if and only if no more entries were appended than the cap allows. */
  lemma VerifiesUpToCap(hash: Digest, num: string -> int, ops: seq<Op>)
    requires NeverEmpty(hash) && NoPrune(ops)
    ensures Chained(hash, Run(hash, num, ops).entries, "") <==> Appended(hash, num, ops) <= 5000
  {
    hide Run, Whole, Chained, Appended;
    RunWithoutPrune(hash, num, ops);
    RunVerifiesIffWhole(hash, num, ops);
  }

  lemma {:induction false} EveryRecordAppends(hash: Digest, num: string -> int, ops: seq<Op>)
    requires forall i :: 0 <= i < |ops| ==> ops[i].DoRecord? && ops[i].request.action != ""
    ensures Appended(hash, num, ops) == |ops|
  {
    hide NewEntry;
    if ops != [] { EveryRecordAppends(hash, num, ops[..|ops| - 1]); }
  }

  /** One record beyond the cap, and verify refuses a log nobody has damaged. */
  lemma OneTooMany(hash: Digest, num: string -> int, ops: seq<Op>)
    requires NeverEmpty(hash) && |ops| > 5000
    requires forall i :: 0 <= i < |ops| ==> ops[i].DoRecord? && ops[i].request.action != ""
    ensures !Chained(hash, Run(hash, num, ops).entries, "")
  {
    hide Chained, Run;
    EveryRecordAppends(hash, num, ops);
    VerifiesUpToCap(hash, num, ops);
  }
}
