// The append-only, hash-chained history: its operations.
//
// The digest is a parameter: any function from canonical content to strings that
// never yields the empty string. SHA-256 rendered in hexadecimal is one.
module History {
  import opened Text
  import opened Canonical

  const MAX_ENTRIES := 5000
  const MAX_LABEL := 120

  /** What is hashed of an entry: everything but the hash, in canonical form. */
  datatype Content = Content(number: nat, at: string, action: string, target: string,
                             before: Json, after: Json, label_: string, parent: string)

  datatype Entry = Entry(number: nat, at: string, action: string, target: string,
                         before: Json, after: Json, label_: string, parent: string, hash: string)

  datatype Log = Log(entries: seq<Entry>, truncated: nat)

  type Digest = Content -> string

  /** canonical. */
  function ContentOf(e: Entry): Content {
    Content(e.number, e.at, e.action, e.target, Stable(e.before), Stable(e.after), e.label_, e.parent)
  }

  ghost predicate NeverEmpty(hash: Digest) {
    forall c: Content :: hash(c) != ""
  }

  // ---------------------------------------------------------------- appending

  datatype Request = Request(action: string, target: string, before: Json, after: Json, at: string, label_: string)

  datatype Recorded =
    | Recorded(log: Log, entry: Entry, dropped: nat)
    | NoAction
    | NoSuchEntry

  function Empty(): Log {
    Log([], 0)
  }

  /** The entry a request becomes after the given entries. */
  function NewEntry(hash: Digest, entries: seq<Entry>, r: Request): Entry {
    var (number, parent) :=
      if entries == [] then (1, "") else (entries[|entries| - 1].number + 1, entries[|entries| - 1].hash);
    var bare := Entry(number, r.at, r.action, r.target, Redact(r.before, 0), Redact(r.after, 0),
                      Slice(r.label_, MAX_LABEL), parent, "");
    bare.(hash := hash(ContentOf(bare)))
  }

  /** record: append, and beyond the cap drop the oldest and count them. */
  function Record(hash: Digest, log: Log, r: Request): Recorded {
    if r.action == "" then NoAction
    else
      var entry := NewEntry(hash, log.entries, r);
      var next := log.entries + [entry];
      if |next| > MAX_ENTRIES then
        var dropped := |next| - MAX_ENTRIES;
        Recorded(Log(next[dropped..], log.truncated + dropped), entry, dropped)
      else
        Recorded(Log(next, log.truncated), entry, 0)
  }

  /** The first entry with the given number. */
  function Find(entries: seq<Entry>, number: nat): (r: seq<Entry>)
    ensures |r| <= 1
    ensures r != [] ==> r[0] in entries && r[0].number == number
    ensures r == [] ==> forall e :: e in entries ==> e.number != number
  {
    if entries == [] then []
    else if entries[0].number == number then [entries[0]]
    else Find(entries[1..], number)
  }

  /** What restoring an entry asks to be recorded. */
  function RestoreRequest(e: Entry, number: nat, at: string): Request {
    Request("restore", e.action + (if e.target != "" then " \U{b7} " + e.target else ""),
            e.after, e.before, at, "Restored the value from entry " + Decimal(number))
  }

  /** restore: a new entry with the old value; nothing is rolled back. */
  function Restore(hash: Digest, log: Log, number: nat, at: string): Recorded {
    var found := Find(log.entries, number);
    if found == [] then NoSuchEntry
    else Record(hash, log, RestoreRequest(found[0], number, at))
  }

  /** label: also an append. */
  function Label(hash: Digest, log: Log, number: nat, text: string, at: string): Recorded {
    var found := Find(log.entries, number);
    if found == [] then NoSuchEntry
    else
      Record(hash, log, Request("label", Decimal(number), Str(found[0].label_),
                                Str(Slice(text, MAX_LABEL)), at, Slice(text, MAX_LABEL)))
  }

  /** The label in force after the first n entries. */
  function LabelAfter(entries: seq<Entry>, n: nat, number: nat): Json
    requires n <= |entries|
  {
    if n == 0 then Str("")
    else
      var e := entries[n - 1];
      if e.action == "label" && e.target == Decimal(number) then e.after
      else if e.number == number then Str(e.label_)
      else LabelAfter(entries, n - 1, number)
  }

  /** labelFor. */
  method LabelFor(log: Log, number: nat) returns (current: Json)
    ensures current == LabelAfter(log.entries, |log.entries|, number)
  {
    current := Str("");
    for i := 0 to |log.entries|
      invariant current == LabelAfter(log.entries, i, number)
    {
      var e := log.entries[i];
      if e.number == number { current := Str(e.label_); }
      if e.action == "label" && e.target == Decimal(number) { current := e.after; }
    }
  }

  // ---------------------------------------------------------------- verification

  /** Entry i carries the hash of its content and the hash of the entry before it. */
  ghost predicate LinkedAt(hash: Digest, entries: seq<Entry>, i: nat, parent: string)
    requires i < |entries|
  {
    && entries[i].hash == hash(ContentOf(entries[i]))
    && entries[i].parent == if i == 0 then parent else entries[i - 1].hash
  }

  /** A chain that starts from the given parent. */
  ghost predicate Chained(hash: Digest, entries: seq<Entry>, parent: string) {
    forall i :: 0 <= i < |entries| ==> LinkedAt(hash, entries, i, parent)
  }

  datatype Verdict = Intact(checked: nat) | OutOfPlace(number: nat) | Changed(number: nat)

  /** Entry i is the first that does not belong, and the verdict says which and why. */
  ghost predicate FirstBroken(hash: Digest, entries: seq<Entry>, v: Verdict, i: nat)
    requires !v.Intact?
  {
    && i < |entries| && v.number == entries[i].number
    && Chained(hash, entries[..i], "") && !LinkedAt(hash, entries, i, "")
    && (v.OutOfPlace? <==> entries[i].parent != if i == 0 then "" else entries[i - 1].hash)
  }

  /** verify: an intact log is exactly a chain from nothing; else the first broken entry is named. */
  method Verify(hash: Digest, log: Log) returns (v: Verdict)
    ensures v.Intact? <==> Chained(hash, log.entries, "")
    ensures v.Intact? ==> v.checked == |log.entries|
    ensures !v.Intact? ==> exists i :: FirstBroken(hash, log.entries, v, i)
  {
    hide Chained;
    var parent := "";
    ChainOfNothing(hash, log.entries);
    for i := 0 to |log.entries|
      invariant parent == if i == 0 then "" else log.entries[i - 1].hash
      invariant Chained(hash, log.entries[..i], "")
    {
      var entry := log.entries[i];
      if entry.parent != parent {
        NotChained(hash, log.entries, i);
        v := OutOfPlace(entry.number);
        assert FirstBroken(hash, log.entries, v, i);
        return;
      }
      var expected := hash(ContentOf(entry));
      if expected != entry.hash {
        NotChained(hash, log.entries, i);
        v := Changed(entry.number);
        assert FirstBroken(hash, log.entries, v, i);
        return;
      }
      parent := entry.hash;
      ChainGrows(hash, log.entries, i);
    }
    assert log.entries[..|log.entries|] == log.entries;
    v := Intact(|log.entries|);
  }

  lemma ChainOfNothing(hash: Digest, entries: seq<Entry>)
    ensures Chained(hash, entries[..0], "")
  {
  }

  lemma NotChained(hash: Digest, entries: seq<Entry>, i: nat)
    requires i < |entries| && !LinkedAt(hash, entries, i, "")
    ensures !Chained(hash, entries, "")
  {
  }

  lemma ChainGrows(hash: Digest, entries: seq<Entry>, i: nat)
    requires i < |entries| && Chained(hash, entries[..i], "") && LinkedAt(hash, entries, i, "")
    ensures Chained(hash, entries[..i + 1], "")
  {
    var a, b := entries[..i], entries[..i + 1];
    forall j | 0 <= j < |b| ensures LinkedAt(hash, b, j, "") {
      if j < i { assert LinkedAt(hash, a, j, ""); }
    }
  }

  // ---------------------------------------------------------------- pruning

  /** A function that reads numerals back, as JavaScript's Number does. */
  ghost predicate ReadsDecimals(num: string -> int) {
    forall n: nat :: num(Decimal(n)) == n
  }

  /** The entry numbers that labels protect, from the first n entries. */
  function Labelled(num: string -> int, entries: seq<Entry>, n: nat): set<int>
    requires n <= |entries|
  {
    if n == 0 then {}
    else
      var e := entries[n - 1];
      Labelled(num, entries, n - 1)
      + (if e.label_ != "" then {e.number} else {})
      + (if e.action == "label" then {num(e.target)} else {})
  }

  /** Whether an entry stays when everything before the given day goes. */
  predicate Stays(e: Entry, before: string, labelled: set<int>) {
    AtMost(before, Slice(e.at, 10)) || e.number in labelled
  }

  function Kept(entries: seq<Entry>, before: string, labelled: set<int>): (r: seq<Entry>)
    ensures |r| <= |entries|
  {
    if entries == [] then []
    else
      var k := |entries| - 1;
      Kept(entries[..k], before, labelled) + (if Stays(entries[k], before, labelled) then [entries[k]] else [])
  }

  /** The same entries, chained anew from nothing. */
  function Rebuilt(hash: Digest, kept: seq<Entry>): (r: seq<Entry>)
    ensures |r| == |kept|
  {
    if kept == [] then []
    else
      var k := |kept| - 1;
      var init := Rebuilt(hash, kept[..k]);
      var moved := kept[k].(parent := if k == 0 then "" else init[k - 1].hash);
      init + [moved.(hash := hash(ContentOf(moved)))]
  }

  datatype Pruned = Pruned(log: Log, removed: nat) | NoDate

  function PruneSet(num: string -> int, log: Log, keepLabelled: bool): set<int> {
    if keepLabelled then Labelled(num, log.entries, |log.entries|) else {}
  }

  function Survivors(num: string -> int, log: Log, before: string, keepLabelled: bool): seq<Entry> {
    Kept(log.entries, before, PruneSet(num, log, keepLabelled))
  }

  function PruneMarker(log: Log, before: string, kept: nat, removed: nat, keepLabelled: bool, at: string): Request {
    Request("prune", "entries before " + before,
            Object([Field("entries", Number(|log.entries|))]), Object([Field("entries", Number(kept))]), at,
            Decimal(removed) + " entries removed, "
            + (if keepLabelled then "keeping every labelled one" else "including labelled ones"))
  }

  /** prune, as a function of the log. */
  function Prune(hash: Digest, num: string -> int, log: Log, before: string, keepLabelled: bool, at: string): Pruned {
    if before == "" then NoDate
    else
      var kept := Survivors(num, log, before, keepLabelled);
      var removed := |log.entries| - |kept|;
      if removed == 0 then Pruned(log, 0)
      else
        var marker := PruneMarker(log, before, |kept|, removed, keepLabelled, at);
        Pruned(Record(hash, Log(Rebuilt(hash, kept), log.truncated), marker).log, removed)
  }

  /** The loop that collects what labels protect. */
  method CollectLabelled(num: string -> int, entries: seq<Entry>) returns (labelled: set<int>)
    ensures labelled == Labelled(num, entries, |entries|)
  {
    labelled := {};
    for i := 0 to |entries|
      invariant labelled == Labelled(num, entries, i)
    {
      var e := entries[i];
      if e.label_ != "" { labelled := labelled + {e.number}; }
      if e.action == "label" { labelled := labelled + {num(e.target)}; }
    }
  }

  /** The loop that chains what remains anew. */
  method Rebuild(hash: Digest, kept: seq<Entry>) returns (rebuilt: seq<Entry>)
    ensures rebuilt == Rebuilt(hash, kept)
  {
    hide ContentOf;
    var parent := "";
    rebuilt := [];
    for i := 0 to |kept|
      invariant rebuilt == Rebuilt(hash, kept[..i])
      invariant parent == if i == 0 then "" else rebuilt[i - 1].hash
    {
      var entry := kept[i].(parent := parent);
      entry := entry.(hash := hash(ContentOf(entry)));
      assert kept[..i + 1][..i] == kept[..i];
      rebuilt := rebuilt + [entry];
      parent := entry.hash;
    }
    assert kept[..|kept|] == kept;
  }

  /** prune, with its loops. */
  method PruneLog(hash: Digest, num: string -> int, log: Log, before: string, keepLabelled: bool, at: string)
    returns (r: Pruned)
    ensures r == Prune(hash, num, log, before, keepLabelled, at)
  {
    hide Kept, Rebuilt, Record, Labelled, PruneMarker;
    if before == "" { return NoDate; }
    var labelled: set<int> := {};
    if keepLabelled { labelled := CollectLabelled(num, log.entries); }
    var kept := Kept(log.entries, before, labelled);
    var removed := |log.entries| - |kept|;
    if removed == 0 { return Pruned(log, 0); }
    var rebuilt := Rebuild(hash, kept);
    MarkerRecorded(hash, Log(rebuilt, log.truncated), log, before, |rebuilt|, removed, keepLabelled, at);
    var recorded := Record(hash, Log(rebuilt, log.truncated),
                           PruneMarker(log, before, |rebuilt|, removed, keepLabelled, at));
    r := Pruned(recorded.log, removed);
  }

  lemma MarkerRecorded(hash: Digest, rest: Log, log: Log, before: string, kept: nat, removed: nat,
                       keepLabelled: bool, at: string)
    ensures Record(hash, rest, PruneMarker(log, before, kept, removed, keepLabelled, at)).Recorded?
  {
  }
}
