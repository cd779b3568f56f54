// JSON values, the canonical form that is hashed, and redaction.
module Canonical {
  import opened Text

  datatype Json =
    | Undefined
    | Null
    | Bool(b: bool)
    | Number(n: int)
    | Str(s: string)
    | Array(items: seq<Json>)
    | Object(fields: seq<Field>)

  datatype Field = Field(key: string, value: Json)

  /** No key twice, at any depth: what every JavaScript object satisfies. */
  predicate WellFormed(v: Json) {
    match v
    case Array(items) => forall i :: 0 <= i < |items| ==> WellFormed(items[i])
    case Object(fields) =>
      && (forall i, j :: 0 <= i < j < |fields| ==> fields[i].key != fields[j].key)
      && (forall i :: 0 <= i < |fields| ==> WellFormed(fields[i].value))
    case _ => true
  }

  // ---------------------------------------------------------------- sorting fields by key

  predicate Sorted(fields: seq<Field>) {
    forall i, j :: 0 <= i < j < |fields| ==> AtMost(fields[i].key, fields[j].key)
  }

  /** f put in front of the first field with a larger key. */
  function Insert(f: Field, fields: seq<Field>): (r: seq<Field>)
    ensures |r| == |fields| + 1
  {
    if fields == [] || AtMost(f.key, fields[0].key) then [f] + fields
    else [fields[0]] + Insert(f, fields[1..])
  }

  function Sort(fields: seq<Field>): (r: seq<Field>)
    ensures |r| == |fields|
  {
    if fields == [] then [] else Insert(fields[0], Sort(fields[1..]))
  }

  lemma {:induction false} InsertMembers(f: Field, fields: seq<Field>, g: Field)
    ensures g in Insert(f, fields) <==> g == f || g in fields
  {
    if fields != [] && !AtMost(f.key, fields[0].key) {
      InsertMembers(f, fields[1..], g);
      assert g in fields <==> g == fields[0] || g in fields[1..];
    }
  }

  lemma {:induction false} InsertSorted(f: Field, fields: seq<Field>)
    requires Sorted(fields)
    ensures Sorted(Insert(f, fields))
  {
    if fields == [] {
    } else if AtMost(f.key, fields[0].key) {
      forall j | 0 <= j < |fields| ensures AtMost(f.key, fields[j].key) {
        if j > 0 { AtMostTransitive(f.key, fields[0].key, fields[j].key); }
      }
    } else {
      var rest := Insert(f, fields[1..]);
      InsertSorted(f, fields[1..]);
      AtMostTotal(f.key, fields[0].key);
      forall j | 0 <= j < |rest| ensures AtMost(fields[0].key, rest[j].key) {
        InsertMembers(f, fields[1..], rest[j]);
        assert rest[j] in rest;
      }
    }
  }

  lemma {:induction false} SortMembers(fields: seq<Field>, g: Field)
    ensures g in Sort(fields) <==> g in fields
  {
    if fields != [] {
      SortMembers(fields[1..], g);
      InsertMembers(fields[0], Sort(fields[1..]), g);
      assert g in fields <==> g == fields[0] || g in fields[1..];
    }
  }

  lemma {:induction false} SortSorted(fields: seq<Field>)
    ensures Sorted(Sort(fields))
  {
    if fields != [] {
      SortSorted(fields[1..]);
      InsertSorted(fields[0], Sort(fields[1..]));
    }
  }

  predicate DistinctKeys(fields: seq<Field>) {
    forall i, j :: 0 <= i < j < |fields| ==> fields[i].key != fields[j].key
  }

  lemma {:induction false} InsertDistinct(f: Field, fields: seq<Field>)
    requires DistinctKeys(fields) && forall i :: 0 <= i < |fields| ==> fields[i].key != f.key
    ensures DistinctKeys(Insert(f, fields))
  {
    if fields != [] && !AtMost(f.key, fields[0].key) {
      InsertDistinct(f, fields[1..]);
      var rest := Insert(f, fields[1..]);
      forall j | 0 <= j < |rest| ensures rest[j].key != fields[0].key {
        InsertMembers(f, fields[1..], rest[j]);
        assert rest[j] in rest;
      }
    }
  }

  lemma {:induction false} SortDistinct(fields: seq<Field>)
    requires DistinctKeys(fields)
    ensures DistinctKeys(Sort(fields))
  {
    if fields != [] {
      SortDistinct(fields[1..]);
      forall i | 0 <= i < |Sort(fields[1..])| ensures Sort(fields[1..])[i].key != fields[0].key {
        SortMembers(fields[1..], Sort(fields[1..])[i]);
      }
      InsertDistinct(fields[0], Sort(fields[1..]));
    }
  }

  /** A sorted list with distinct keys is determined by its members. */
  lemma {:induction false} SortedUnique(a: seq<Field>, b: seq<Field>)
    requires Sorted(a) && Sorted(b) && DistinctKeys(a) && DistinctKeys(b)
    requires forall f :: f in a <==> f in b
    ensures a == b
  {
    assert a != [] ==> a[0] in b;
    assert b != [] ==> b[0] in a;
    if a != [] {
      HeadsAgree(a, b);
      forall f ensures f in a[1..] <==> f in b[1..] {
        TailMember(a, f);
        TailMember(b, f);
      }
      SortedUnique(a[1..], b[1..]);
      assert a == [a[0]] + a[1..] && b == [b[0]] + b[1..];
    }
  }

  lemma TailMember(a: seq<Field>, f: Field)
    requires a != [] && DistinctKeys(a)
    ensures f in a[1..] <==> f in a && f != a[0]
  {
    if f in a && f != a[0] {
      var i :| 0 <= i < |a| && a[i] == f;
      assert a[1..][i - 1] == f;
    }
  }

  lemma HeadsAgree(a: seq<Field>, b: seq<Field>)
    requires a != [] && b != []
    requires Sorted(a) && Sorted(b) && DistinctKeys(a) && DistinctKeys(b)
    requires forall f :: f in a <==> f in b
    ensures a[0] == b[0]
  {
    assert a[0] in b && b[0] in a;
    var i :| 0 <= i < |b| && b[i] == a[0];
    var j :| 0 <= j < |a| && a[j] == b[0];
    if i > 0 && j > 0 { AtMostAntisymmetric(a[0].key, b[0].key); }
  }

  // ---------------------------------------------------------------- the canonical form

  /** stable: keys sorted and undefined made null, at every depth. */
  function Stable(v: Json): Json {
    match v
    case Undefined => Null
    case Null => Null
    case Array(items) => Array(StableItems(items))
    case Object(fields) => Object(Sort(StableFields(fields)))
    case _ => v
  }

  function StableItems(items: seq<Json>): (r: seq<Json>)
    ensures |r| == |items|
    ensures forall i :: 0 <= i < |items| ==> r[i] == Stable(items[i])
  {
    if items == [] then [] else [Stable(items[0])] + StableItems(items[1..])
  }

  function StableFields(fields: seq<Field>): (r: seq<Field>)
    ensures |r| == |fields|
    ensures forall i :: 0 <= i < |fields| ==> r[i] == Field(fields[i].key, Stable(fields[i].value))
  {
    if fields == [] then []
    else [Field(fields[0].key, Stable(fields[0].value))] + StableFields(fields[1..])
  }

  /** The same content: equal up to the order of keys, at any depth. */
  predicate Alike(a: Json, b: Json)
    decreases a, 0
  {
    match (a, b)
    case (Array(xs), Array(ys)) => |xs| == |ys| && forall i :: 0 <= i < |xs| ==> Alike(xs[i], ys[i])
    case (Object(fs), Object(gs)) =>
      && (forall i :: 0 <= i < |fs| ==> Matched(fs[i], gs))
      && (forall j :: 0 <= j < |gs| ==> MatchedBack(fs, gs[j]))
    case _ => a == b || (a in {Undefined, Null} && b in {Undefined, Null})
  }

  predicate Matched(f: Field, gs: seq<Field>)
    decreases f, 0
  {
    exists j :: 0 <= j < |gs| && f.key == gs[j].key && Alike(f.value, gs[j].value)
  }

  predicate MatchedBack(fs: seq<Field>, g: Field)
    decreases fs, 0
  {
    exists i :: 0 <= i < |fs| && fs[i].key == g.key && Alike(fs[i].value, g.value)
  }

  lemma StableFieldsDistinct(fields: seq<Field>)
    requires DistinctKeys(fields)
    ensures DistinctKeys(StableFields(fields))
  {
  }

  /** Sorting makes field lists with the same members equal. */
  lemma SortAgrees(a: seq<Field>, b: seq<Field>)
    requires DistinctKeys(a) && DistinctKeys(b)
    requires forall f :: f in a <==> f in b
    ensures Sort(a) == Sort(b)
  {
    SortSorted(a);
    SortSorted(b);
    SortDistinct(a);
    SortDistinct(b);
    forall f ensures f in Sort(a) <==> f in Sort(b) {
      SortMembers(a, f);
      SortMembers(b, f);
    }
    SortedUnique(Sort(a), Sort(b));
  }

  /**
   * The canonical form forgets exactly the order of keys (and that undefined is
   * not null): two values have the same one if and only if they are alike.
   */
  lemma {:induction false} StableIffAlike(a: Json, b: Json)
    requires WellFormed(a) && WellFormed(b)
    ensures Stable(a) == Stable(b) <==> Alike(a, b)
    decreases a
  {
    hide Stable, Alike, DistinctKeys;
    if a.Array? && b.Array? && |a.items| == |b.items| {
      var xs, ys := a.items, b.items;
      forall i | 0 <= i < |xs| ensures Stable(xs[i]) == Stable(ys[i]) <==> Alike(xs[i], ys[i]) {
        StableIffAlike(xs[i], ys[i]);
      }
      ArraysAgree(xs, ys);
    } else if a.Object? && b.Object? {
      var fs, gs := a.fields, b.fields;
      forall i, j | 0 <= i < |fs| && 0 <= j < |gs|
        ensures Stable(fs[i].value) == Stable(gs[j].value) <==> Alike(fs[i].value, gs[j].value)
      {
        StableIffAlike(fs[i].value, gs[j].value);
      }
      KeysDistinct(a);
      KeysDistinct(b);
      ObjectsAgree(fs, gs);
    } else {
      OthersAgree(a, b);
    }
  }

  lemma KeysDistinct(a: Json)
    requires WellFormed(a) && a.Object?
    ensures DistinctKeys(a.fields)
  {
  }

  lemma ArraysAgree(xs: seq<Json>, ys: seq<Json>)
    requires |xs| == |ys| && forall i :: 0 <= i < |xs| ==> (Stable(xs[i]) == Stable(ys[i]) <==> Alike(xs[i], ys[i]))
    ensures Stable(Array(xs)) == Stable(Array(ys)) <==> Alike(Array(xs), Array(ys))
  {
    assert (forall i :: 0 <= i < |xs| ==> Stable(xs[i]) == Stable(ys[i])) <==> StableItems(xs) == StableItems(ys);
  }

  lemma OthersAgree(a: Json, b: Json)
    requires !(a.Array? && b.Array? && |a.items| == |b.items|) && !(a.Object? && b.Object?)
    ensures Stable(a) == Stable(b) <==> Alike(a, b)
  {
  }

  /** Stable agrees with Alike on the values of two field lists. */
  ghost predicate ValuesAgree(fs: seq<Field>, gs: seq<Field>) {
    forall i, j :: 0 <= i < |fs| && 0 <= j < |gs| ==>
      (Stable(fs[i].value) == Stable(gs[j].value) <==> Alike(fs[i].value, gs[j].value))
  }

  lemma ObjectsAgree(fs: seq<Field>, gs: seq<Field>)
    requires DistinctKeys(fs) && DistinctKeys(gs) && ValuesAgree(fs, gs)
    ensures Stable(Object(fs)) == Stable(Object(gs)) <==> Alike(Object(fs), Object(gs))
  {
    ObjectsSorted(fs, gs);
    hide Alike, ValuesAgree, Sort, Stable, DistinctKeys;
    StableFieldsDistinct(fs);
    StableFieldsDistinct(gs);
    if Sort(StableFields(fs)) == Sort(StableFields(gs)) { SortedAreAlike(fs, gs); }
    if Alike(Object(fs), Object(gs)) {
      forall f ensures f in StableFields(fs) <==> f in StableFields(gs) {
        SameMember(fs, gs, f);
      }
      SortAgrees(StableFields(fs), StableFields(gs));
    }
  }

  lemma ObjectsSorted(fs: seq<Field>, gs: seq<Field>)
    ensures Stable(Object(fs)) == Stable(Object(gs)) <==> Sort(StableFields(fs)) == Sort(StableFields(gs))
  {
    hide Sort, StableFields;
  }

  lemma SortedAreAlike(fs: seq<Field>, gs: seq<Field>)
    requires ValuesAgree(fs, gs) && Sort(StableFields(fs)) == Sort(StableFields(gs))
    ensures Alike(Object(fs), Object(gs))
  {
    hide ValuesAgree, Sort, Stable, Matched, MatchedBack;
    var sf, sg := StableFields(fs), StableFields(gs);
    forall i | 0 <= i < |fs| ensures Matched(fs[i], gs) {
      SortMembers(sf, sf[i]);
      SortMembers(sg, sf[i]);
      MemberMatched(fs, gs, i);
    }
    forall j | 0 <= j < |gs| ensures MatchedBack(fs, gs[j]) {
      SortMembers(sf, sg[j]);
      SortMembers(sg, sg[j]);
      MemberMatchedBack(fs, gs, j);
    }
  }

  lemma MemberMatched(fs: seq<Field>, gs: seq<Field>, i: nat)
    requires ValuesAgree(fs, gs) && i < |fs| && StableFields(fs)[i] in StableFields(gs)
    ensures Matched(fs[i], gs)
  {
    var j :| 0 <= j < |gs| && StableFields(gs)[j] == StableFields(fs)[i];
    assert Stable(fs[i].value) == Stable(gs[j].value);
  }

  lemma MemberMatchedBack(fs: seq<Field>, gs: seq<Field>, j: nat)
    requires ValuesAgree(fs, gs) && j < |gs| && StableFields(gs)[j] in StableFields(fs)
    ensures MatchedBack(fs, gs[j])
  {
    var i :| 0 <= i < |fs| && StableFields(fs)[i] == StableFields(gs)[j];
    assert Stable(fs[i].value) == Stable(gs[j].value);
  }

  lemma SameMember(fs: seq<Field>, gs: seq<Field>, f: Field)
    requires ValuesAgree(fs, gs) && Alike(Object(fs), Object(gs))
    ensures f in StableFields(fs) <==> f in StableFields(gs)
  {
    if f in StableFields(fs) {
      var i :| 0 <= i < |fs| && StableFields(fs)[i] == f;
      assert Matched(fs[i], gs);
      MatchedMember(fs, gs, i);
    }
    if f in StableFields(gs) {
      var j :| 0 <= j < |gs| && StableFields(gs)[j] == f;
      assert MatchedBack(fs, gs[j]);
      MatchedBackMember(fs, gs, j);
    }
  }

  lemma MatchedMember(fs: seq<Field>, gs: seq<Field>, i: nat)
    requires ValuesAgree(fs, gs) && i < |fs| && Matched(fs[i], gs)
    ensures StableFields(fs)[i] in StableFields(gs)
  {
    var j :| 0 <= j < |gs| && fs[i].key == gs[j].key && Alike(fs[i].value, gs[j].value);
    assert StableFields(gs)[j] == StableFields(fs)[i];
  }

  lemma MatchedBackMember(fs: seq<Field>, gs: seq<Field>, j: nat)
    requires ValuesAgree(fs, gs) && j < |gs| && MatchedBack(fs, gs[j])
    ensures StableFields(gs)[j] in StableFields(fs)
  {
    var i :| 0 <= i < |fs| && fs[i].key == gs[j].key && Alike(fs[i].value, gs[j].value);
    assert StableFields(fs)[i] == StableFields(gs)[j];
  }

  // ---------------------------------------------------------------- redaction

  const NEVER_RECORDED := ["secret", "hash", "password", "pin", "token", "apiKey"]
  const NOT_RECORDED := Str("[not recorded]")
  const TOO_DEEP := Str("[too deeply nested to record]")
  const MAX_VALUE := 8192

  /** What stands where characters were cut off. */
  function Note(k: nat): string {
    "\U{2026} [" + Decimal(k) + " more characters not recorded]"
  }

  /** redact: secrets blanked, long texts cut, nothing below the ninth level. */
  function Redact(v: Json, depth: nat): Json
    decreases v
  {
    if depth > 8 then TOO_DEEP
    else
      match v
      case Array(items) => Array(RedactItems(items, depth + 1))
      case Object(fields) => Object(RedactFields(fields, depth + 1))
      case Str(s) =>
        if |s| > MAX_VALUE
        then Str(s[..MAX_VALUE] + Note(|s| - MAX_VALUE))
        else v
      case _ => v
  }

  function RedactItems(items: seq<Json>, depth: nat): (r: seq<Json>)
    ensures |r| == |items|
    ensures forall i :: 0 <= i < |items| ==> r[i] == Redact(items[i], depth)
  {
    if items == [] then [] else [Redact(items[0], depth)] + RedactItems(items[1..], depth)
  }

  function RedactFields(fields: seq<Field>, depth: nat): (r: seq<Field>)
    ensures |r| == |fields|
    ensures forall i :: 0 <= i < |fields| ==>
      r[i] == Field(fields[i].key,
                    if fields[i].key in NEVER_RECORDED then NOT_RECORDED else Redact(fields[i].value, depth))
  {
    if fields == [] then []
    else
      var f := fields[0];
      [Field(f.key, if f.key in NEVER_RECORDED then NOT_RECORDED else Redact(f.value, depth))]
      + RedactFields(fields[1..], depth)
  }

  /** No field with a forbidden name holds anything, and nothing is nested deeper than the given levels. */
  predicate Clean(v: Json, levels: nat)
    decreases v, 0
  {
    if levels == 0 then v == TOO_DEEP
    else
      match v
      case Array(items) => forall i :: 0 <= i < |items| ==> Clean(items[i], levels - 1)
      case Object(fields) => forall i :: 0 <= i < |fields| ==> CleanField(fields[i], levels - 1)
      case _ => true
  }

  /** Whatever is redacted is clean, at every depth. */
  lemma {:induction false} RedactCleans(v: Json, depth: nat)
    requires depth <= 9
    ensures Clean(Redact(v, depth), 9 - depth)
    decreases v
  {
    hide Redact, CleanField, NOT_RECORDED;
    if depth <= 8 {
      RedactParts(v, depth);
      match v
      case Array(items) => RedactCleansItems(items, depth + 1);
      case Object(fields) => RedactCleansFields(fields, depth + 1);
      case _ =>
    } else {
      DeepIsBlanked(v, depth);
    }
  }

  lemma RedactParts(v: Json, depth: nat)
    requires depth <= 8
    ensures match v
            case Array(items) => Redact(v, depth) == Array(RedactItems(items, depth + 1))
            case Object(fields) => Redact(v, depth) == Object(RedactFields(fields, depth + 1))
            case _ => !Redact(v, depth).Array? && !Redact(v, depth).Object?
  {
    hide Note;
  }

  lemma DeepIsBlanked(v: Json, depth: nat)
    requires depth > 8
    ensures Redact(v, depth) == TOO_DEEP
  {
  }

  lemma {:induction false} RedactCleansItems(items: seq<Json>, depth: nat)
    requires depth <= 9
    ensures forall i :: 0 <= i < |items| ==> Clean(RedactItems(items, depth)[i], 9 - depth)
    decreases items
  {
    hide Redact, Clean;
    if items != [] {
      RedactCleans(items[0], depth);
      RedactCleansItems(items[1..], depth);
    }
  }

  predicate CleanField(f: Field, levels: nat)
    decreases f, 0
  {
    if f.key in NEVER_RECORDED then f.value == NOT_RECORDED else Clean(f.value, levels)
  }

  lemma {:induction false} RedactCleansFields(fields: seq<Field>, depth: nat)
    requires depth <= 9
    ensures forall i :: 0 <= i < |fields| ==> CleanField(RedactFields(fields, depth)[i], 9 - depth)
    decreases fields
  {
    hide Redact, Clean;
    if fields != [] {
      RedactCleans(fields[0].value, depth);
      RedactCleansFields(fields[1..], depth);
    }
  }

  /** A secret is blanked whatever it is, at every depth, and nothing else is. */
  lemma SecretsBlanked(fields: seq<Field>, depth: nat, i: nat)
    requires i < |fields|
    ensures var f := RedactFields(fields, depth)[i];
            && f.key == fields[i].key
            && f.value == if f.key in {"password", "hash", "secret", "pin", "token", "apiKey"}
                          then Str("[not recorded]") else Redact(fields[i].value, depth)
  {
    hide Redact;
  }

  lemma DeepBlanked(v: Json, depth: nat)
    requires depth >= 9
    ensures Redact(v, depth) == Str("[too deeply nested to record]")
  {
  }

  /** A text is cut after 8192 characters, and how many were cut stands behind them. */
  lemma TextCut(s: string, depth: nat)
    requires depth <= 8
    ensures |s| <= 8192 ==> Redact(Str(s), depth) == Str(s)
    ensures |s| > 8192 ==>
      Redact(Str(s), depth) == Str(s[..8192] + "\U{2026} [" + Decimal(|s| - 8192) + " more characters not recorded]")
  {
    if |s| > 8192 { NoteBehind(s[..8192], |s| - 8192); }
    hide Note, Decimal;
  }

  lemma NoteBehind(s: string, k: nat)
    ensures s + Note(k) == s + "\U{2026} [" + Decimal(k) + " more characters not recorded]"
  {
  }

  // ---------------------------------------------------------------- redacting again

  /** A text that redaction does not cut, or that is cut already and says so in 35 characters. */
  predicate Settled(s: string) {
    |s| <= MAX_VALUE || s[MAX_VALUE..] == Note(35)
  }

  /** Every text outside the forbidden fields is settled, at every depth. */
  predicate AllSettled(v: Json)
    decreases v, 0
  {
    match v
    case Str(s) => Settled(s)
    case Array(items) => forall i :: 0 <= i < |items| ==> AllSettled(items[i])
    case Object(fields) => forall i :: 0 <= i < |fields| ==> FieldSettled(fields[i])
    case _ => true
  }

  predicate FieldSettled(f: Field)
    decreases f, 0
  {
    f.key in NEVER_RECORDED || AllSettled(f.value)
  }

  /** Redacting what was redacted before leaves it as it is if and only if every text in it is settled. */
  lemma {:induction false} RedactAgain(v: Json, depth: nat)
    requires depth <= 9 && Clean(v, 9 - depth)
    ensures Redact(v, depth) == v <==> AllSettled(v)
    decreases v
  {
    hide Note, Settled, FieldSettled, CleanField, NOT_RECORDED;
    if depth == 9 {
      TooDeepIsSettled();
    } else {
      match v
      case Str(s) => RedactText(s, depth);
      case Array(items) => RedactItemsAgain(items, depth + 1);
      case Object(fields) => RedactFieldsAgain(fields, depth + 1);
      case _ =>
    }
  }

  lemma TooDeepIsSettled()
    ensures AllSettled(TOO_DEEP)
  {
  }

  lemma {:induction false} RedactItemsAgain(items: seq<Json>, depth: nat)
    requires depth <= 9 && forall i :: 0 <= i < |items| ==> Clean(items[i], 9 - depth)
    ensures RedactItems(items, depth) == items <==> forall i :: 0 <= i < |items| ==> AllSettled(items[i])
    decreases items
  {
    hide Redact, Clean, AllSettled;
    var again := RedactItems(items, depth);
    forall i | 0 <= i < |items| ensures again[i] == items[i] <==> AllSettled(items[i]) {
      RedactAgain(items[i], depth);
    }
    SameItems(again, items);
  }

  lemma SameItems<T>(a: seq<T>, b: seq<T>)
    requires |a| == |b|
    ensures a == b <==> forall i :: 0 <= i < |a| ==> a[i] == b[i]
  {
  }

  lemma {:induction false} RedactFieldsAgain(fields: seq<Field>, depth: nat)
    requires depth <= 9 && forall i :: 0 <= i < |fields| ==> CleanField(fields[i], 9 - depth)
    ensures RedactFields(fields, depth) == fields <==> forall i :: 0 <= i < |fields| ==> FieldSettled(fields[i])
    decreases fields
  {
    hide Redact, Clean, AllSettled;
    var again := RedactFields(fields, depth);
    forall i | 0 <= i < |fields| ensures again[i] == fields[i] <==> FieldSettled(fields[i]) {
      if fields[i].key !in NEVER_RECORDED { RedactAgain(fields[i].value, depth); }
    }
    SameItems(again, fields);
  }

  /** A text is left as it is if and only if it is settled. */
  lemma RedactText(s: string, depth: nat)
    requires depth <= 8
    ensures Redact(Str(s), depth) == Str(s) <==> Settled(s)
  {
    hide Note;
    if |s| > MAX_VALUE {
      var head, tail := s[..MAX_VALUE], s[MAX_VALUE..];
      assert s == head + tail;
      assert head + Note(|tail|) == s <==> Note(|tail|) == tail by {
        assert (head + Note(|tail|))[MAX_VALUE..] == Note(|tail|);
      }
      NoteLength(|tail|);
      NoteLength(35);
    }
  }

  /** A text cut twice says how long its first note was. */
  lemma RedactTwice(s: string, depth: nat)
    requires depth <= 8 && |s| > MAX_VALUE
    ensures Redact(Redact(Str(s), depth), depth) == Str(s[..MAX_VALUE] + Note(|Note(|s| - MAX_VALUE)|))
  {
    hide Note;
    NoteNotEmpty(|s| - MAX_VALUE);
    var cut := s[..MAX_VALUE] + Note(|s| - MAX_VALUE);
    assert Redact(Str(s), depth) == Str(cut);
    assert cut[..MAX_VALUE] == s[..MAX_VALUE];
  }

  lemma NoteNotEmpty(k: nat)
    ensures |Note(k)| > 0
  {
  }

  /** The only count whose note is as long as the count says is 35. */
  lemma NoteLength(k: nat)
    ensures |Note(k)| == k <==> k == 35
  {
    DecimalLength(k);
  }

  lemma {:induction false} DecimalLength(k: nat)
    ensures |Decimal(k)| <= 1 + k / 10 && (10 <= k < 100 ==> |Decimal(k)| == 2)
  {
    if k >= 10 { DecimalLength(k / 10); }
  }
  // ---------------------------------------------------------------- which values redaction settles at once

  /** Every text that redaction looks at is short, or too long by exactly 35: its note then says 35, and is 35 long. */
  predicate Survives(v: Json, depth: nat)
    decreases v, 0
  {
    depth > 8 ||
    match v
    case Str(s) => |s| <= MAX_VALUE || |s| == MAX_VALUE + 35
    case Array(items) => forall i :: 0 <= i < |items| ==> Survives(items[i], depth + 1)
    case Object(fields) => forall i :: 0 <= i < |fields| ==> FieldSurvives(fields[i], depth + 1)
    case _ => true
  }

  predicate FieldSurvives(f: Field, depth: nat)
    decreases f, 0
  {
    f.key in NEVER_RECORDED || Survives(f.value, depth)
  }

  lemma NoteInjective(k: nat, n: nat)
    requires Note(k) == Note(n)
    ensures k == n
  {
    var start, end := "\U{2026} [", " more characters not recorded]";
    NoteMiddle(start, Decimal(k), end);
    NoteMiddle(start, Decimal(n), end);
    DecimalInjective(k, n);
  }

  lemma NoteMiddle(start: string, middle: string, end: string)
    ensures var note := start + middle + end; middle == note[|start|..|note| - |end|]
  {
  }

  /** A cut text is settled if and only if 35 characters were cut. */
  lemma CutSettled(s: string)
    requires |s| > MAX_VALUE
    ensures Settled(s[..MAX_VALUE] + Note(|s| - MAX_VALUE)) <==> |s| == MAX_VALUE + 35
  {
    hide Note;
    var k := |s| - MAX_VALUE;
    NoteNotEmpty(k);
    assert (s[..MAX_VALUE] + Note(k))[MAX_VALUE..] == Note(k);
    if Note(k) == Note(35) { NoteInjective(k, 35); }
  }

  /** What redaction makes of a value is settled, at every depth, if and only if the value survives it. */
  lemma {:induction false} RedactedSettled(v: Json, depth: nat)
    ensures AllSettled(Redact(v, depth)) <==> Survives(v, depth)
    decreases v
  {
    hide Note, Settled, FieldSettled, FieldSurvives;
    if depth > 8 {
      TooDeepIsSettled();
    } else {
      match v
      case Str(s) => if |s| > MAX_VALUE { CutSettled(s); } else { ShortIsSettled(s); }
      case Array(items) =>
        var redacted := RedactItems(items, depth + 1);
        forall i | 0 <= i < |items| ensures AllSettled(redacted[i]) <==> Survives(items[i], depth + 1) {
          RedactedSettled(items[i], depth + 1);
        }
      case Object(fields) =>
        var redacted := RedactFields(fields, depth + 1);
        forall i | 0 <= i < |fields| ensures FieldSettled(redacted[i]) <==> FieldSurvives(fields[i], depth + 1) {
          RedactedSettled(fields[i].value, depth + 1);
          RedactedField(fields[i], redacted[i], depth + 1);
        }
      case _ =>
    }
  }

  lemma ShortIsSettled(s: string)
    requires |s| <= MAX_VALUE
    ensures Settled(s)
  {
  }

  lemma RedactedField(f: Field, g: Field, depth: nat)
    requires g.key == f.key && (f.key !in NEVER_RECORDED ==> g.value == Redact(f.value, depth))
    requires AllSettled(Redact(f.value, depth)) <==> Survives(f.value, depth)
    ensures FieldSettled(g) <==> FieldSurvives(f, depth)
  {
    hide Redact, AllSettled, Survives, NEVER_RECORDED;
  }

  /** Redacting twice is redacting once, if and only if the value survives redaction. */
  lemma RedactIdempotentIff(v: Json, depth: nat)
    requires depth <= 9
    ensures Redact(Redact(v, depth), depth) == Redact(v, depth) <==> Survives(v, depth)
  {
    RedactCleans(v, depth);
    RedactAgain(Redact(v, depth), depth);
    RedactedSettled(v, depth);
  }
}
