// The task registry: a Redis hash from task to item and one Redis set of tasks per
// item, updated by several processes in small atomic steps.
module Tasks {
  import opened Options

  type Id = string
  type Item = string

  /** What Redis holds. A task without an item maps to ""; a set that is not there is empty. */
  datatype Store = Store(hash: map<Id, Item>, sets: map<Item, set<Id>>) {
    function Members(item: Item): set<Id> {
      if item in sets then sets[item] else {}
    }

    predicate Has(item: Item, t: Id) {
      t in Members(item)
    }

    /** hset, and sadd if there is an item. */
    function Saved(t: Id, item: Item): Store {
      Store(hash[t := item], if item == "" then sets else sets[item := Members(item) + {t}])
    }

    /** hdel, and srem if there is an item; Redis drops a set that becomes empty. */
    function Dropped(t: Id, item: Item): Store {
      Store(hash - {t}, if item == "" then sets
                        else if Members(item) - {t} == {} then sets - {item}
                        else sets[item := Members(item) - {t}])
    }

    function Deleted(item: Item): Store {
      Store(hash, sets - {item})
    }

    function Lookup(t: Id): Item {
      if t in hash then hash[t] else ""
    }
  }

  // ------------------------------------------------------------ the commands

  /** The Redis server, as the handlers use it. */
  class Redis {
    var hash: map<Id, Item>
    var sets: map<Item, set<Id>>

    ghost function View(): Store
      reads this
    {
      Store(hash, sets)
    }

    constructor ()
      ensures View() == Store(map[], map[])
    {
      hash, sets := map[], map[];
    }

    function Card(item: Item): (n: nat)
      reads this
      ensures n == |View().Members(item)|
    {
      if item in sets then |sets[item]| else 0
    }

    /** redis_save_task: one transaction. */
    method SaveTask(t: Id, item: Item)
      modifies this
      ensures View() == old(View()).Saved(t, item)
    {
      hash := hash[t := item];
      if item != "" {
        sets := sets[item := (if item in sets then sets[item] else {}) + {t}];
      }
    }

    /** The transaction that redis_cleanup_task begins with. */
    method DropTask(t: Id, item: Item)
      modifies this
      ensures View() == old(View()).Dropped(t, item)
    {
      hash := hash - {t};
      if item != "" {
        var rest := (if item in sets then sets[item] else {}) - {t};
        sets := if rest == {} then sets - {item} else sets[item := rest];
      }
    }

    method DeleteSet(item: Item)
      modifies this
      ensures View() == old(View()).Deleted(item)
    {
      sets := sets - {item};
    }

    /** redis_cleanup_task, when nothing else runs between its steps. */
    method CleanupTask(t: Id, item: Item)
      modifies this
      ensures View() == old(View()).Dropped(t, item)
    {
      DropTask(t, item);
      if item != "" && Card(item) == 0 {
        EmptySetIsAbsent(old(View()), t, item);
        DeleteSet(item);
      }
    }

    /** stop_task, when nothing else runs between its steps. */
    method StopTask(t: Id)
      modifies this
      ensures View() == old(View()).Dropped(t, old(View()).Lookup(t))
    {
      var item := if t in hash then hash[t] else "";
      CleanupTask(t, item);
    }
  }

  /** Deleting a set that the removal emptied changes nothing. */
  lemma EmptySetIsAbsent(s: Store, t: Id, item: Item)
    requires item != "" && |s.Dropped(t, item).Members(item)| == 0
    ensures s.Dropped(t, item).Deleted(item) == s.Dropped(t, item)
  {
    assert s.Dropped(t, item).Members(item) == {};
    assert item !in s.Dropped(t, item).sets;
  }

  // ------------------------------------------------------------ interleaved runs

  /** Where a cleanup or a stop has got to: the atomic step it takes next. */
  datatype Stage = Looking(t: Id) | Dropping(t: Id, item: Item) | Counting(item: Item) | Deleting(item: Item)

  datatype State = State(store: Store, saved: set<Id>, running: map<nat, Stage>)

  datatype Step = Save(t: Id) | Stop(process: nat, t: Id) | Clean(process: nat, t: Id) | Advance(process: nat)

  const START := State(Store(map[], map[]), {}, map[])

  /** A process that starts has a name of its own; one that advances is running. */
  predicate Possible(s: State, step: Step) {
    match step
    case Save(_) => true
    case Stop(p, _) => p !in s.running
    case Clean(p, _) => p !in s.running
    case Advance(p) => p in s.running
  }

  /** No task is saved twice. */
  predicate Once(s: State, step: Step) {
    step.Save? ==> step.t !in s.saved
  }

  /** Only a saved task is stopped. */
  predicate StopsSaved(s: State, step: Step) {
    step.Stop? ==> step.t in s.saved
  }

  /** A task's save and its own cleanup name the item it was created for. */
  function Next(itemOf: Id -> Item, s: State, step: Step): State
    requires Possible(s, step)
  {
    match step
    case Save(t) => s.(store := s.store.Saved(t, itemOf(t)), saved := s.saved + {t})
    case Stop(p, t) => s.(running := s.running[p := Looking(t)])
    case Clean(p, t) => s.(running := s.running[p := Dropping(t, itemOf(t))])
    case Advance(p) =>
      match s.running[p]
      case Looking(t) => s.(running := s.running[p := Dropping(t, s.store.Lookup(t))])
      case Dropping(t, item) =>
        s.(store := s.store.Dropped(t, item),
           running := if item == "" then s.running - {p} else s.running[p := Counting(item)])
      case Counting(item) =>
        s.(running := if |s.store.Members(item)| == 0 then s.running[p := Deleting(item)] else s.running - {p})
      case Deleting(item) =>
        s.(store := s.store.Deleted(item), running := s.running - {p})
  }

  /** The state after a run that saves each task once, if the run can happen. */
  function After(itemOf: Id -> Item, steps: seq<Step>): Option<State> {
    if steps == [] then Some(START)
    else
      var k := |steps| - 1;
      match After(itemOf, steps[..k])
      case None => None
      case Some(s) => if Possible(s, steps[k]) && Once(s, steps[k]) then Some(Next(itemOf, s, steps[k])) else None
  }

  /** Every stop in the run is of a task saved before. */
  ghost predicate Orderly(itemOf: Id -> Item, steps: seq<Step>)
    requires After(itemOf, steps).Some?
  {
    steps == [] ||
    var k := |steps| - 1;
    Orderly(itemOf, steps[..k]) && StopsSaved(After(itemOf, steps[..k]).value, steps[k])
  }

  // ------------------------------------------------------------ what is listed

  /** The hash maps saved tasks only, each to its own item. */
  ghost predicate OwnItems(itemOf: Id -> Item, s: State) {
    forall t :: t in s.store.hash ==> t in s.saved && s.store.hash[t] == itemOf(t)
  }

  /** The step is the one that takes the task off the hash. */
  predicate Drops(s: State, step: Step, t: Id) {
    step.Advance? && step.process in s.running && s.running[step.process].Dropping? && s.running[step.process].t == t
  }

  lemma StepLists(itemOf: Id -> Item, s: State, step: Step, t: Id)
    requires OwnItems(itemOf, s) && Possible(s, step)
    ensures var next := Next(itemOf, s, step);
            && OwnItems(itemOf, next)
            && (t in next.store.hash <==> step == Save(t) || (t in s.store.hash && !Drops(s, step, t)))
            && (t in next.saved <==> step == Save(t) || t in s.saved)
  {
  }

  lemma {:induction false} RunOwnsItems(itemOf: Id -> Item, steps: seq<Step>)
    requires After(itemOf, steps).Some?
    ensures OwnItems(itemOf, After(itemOf, steps).value)
  {
    hide Next, OwnItems;
    if steps == [] {
      StartOwnsItems(itemOf);
    } else {
      var k := |steps| - 1;
      RunOwnsItems(itemOf, steps[..k]);
      StepLists(itemOf, After(itemOf, steps[..k]).value, steps[k], "");
    }
  }

  lemma StartOwnsItems(itemOf: Id -> Item)
    ensures OwnItems(itemOf, START)
  {
  }

  /** The task has been dropped since it was saved. */
  ghost predicate DroppedSinceSave(itemOf: Id -> Item, steps: seq<Step>, t: Id)
    requires After(itemOf, steps).Some?
  {
    steps != [] &&
    var k := |steps| - 1;
    steps[k] != Save(t) &&
    (Drops(After(itemOf, steps[..k]).value, steps[k], t) || DroppedSinceSave(itemOf, steps[..k], t))
  }

  /** In every run a task is listed if and only if it has been saved and not been dropped since. */
  lemma {:induction false} ListedUntilDropped(itemOf: Id -> Item, steps: seq<Step>, t: Id)
    requires After(itemOf, steps).Some?
    ensures var s := After(itemOf, steps).value;
            t in s.store.hash <==> t in s.saved && !DroppedSinceSave(itemOf, steps, t)
  {
    hide Next, OwnItems, Drops;
    if steps != [] {
      var k := |steps| - 1;
      RunOwnsItems(itemOf, steps[..k]);
      StepLists(itemOf, After(itemOf, steps[..k]).value, steps[k], t);
      ListedUntilDropped(itemOf, steps[..k], t);
    }
  }

  // ------------------------------------------------------------ members are mapped

  /** A task in an item's set is mapped to that item. */
  ghost predicate MembersMapped(s: Store) {
    forall item, t :: s.Has(item, t) ==> item != "" && t in s.hash && s.hash[t] == item
  }

  /** A task is taken off the hash, but not off the set of the item it is mapped to. */
  predicate Strands(s: State, step: Step) {
    step.Advance? && step.process in s.running &&
    match s.running[step.process]
    case Dropping(t, item) => t in s.store.hash && s.store.hash[t] != item && s.store.Has(s.store.hash[t], t)
    case _ => false
  }

  lemma MembersChange(s: Store, t: Id, item: Item, other: Item)
    ensures s.Saved(t, item).Members(other) ==
      if other == item && item != "" then s.Members(other) + {t} else s.Members(other)
    ensures s.Dropped(t, item).Members(other) ==
      if other == item && item != "" then s.Members(other) - {t} else s.Members(other)
    ensures s.Deleted(item).Members(other) == if other == item then {} else s.Members(other)
  {
  }

  lemma SavedIsMapped(s: Store, t: Id, item: Item)
    requires MembersMapped(s) && t !in s.hash
    ensures MembersMapped(s.Saved(t, item))
  {
    var next := s.Saved(t, item);
    forall other, u | next.Has(other, u) ensures other != "" && u in next.hash && next.hash[u] == other {
      MembersChange(s, t, item, other);
      if u != t || other != item || item == "" { assert s.Has(other, u); }
    }
  }

  /** Dropping a task leaves members mapped unless it leaves the task in the set of its item. */
  lemma DroppedIsMapped(s: Store, t: Id, item: Item)
    requires MembersMapped(s)
    ensures MembersMapped(s.Dropped(t, item)) <==> !(t in s.hash && s.hash[t] != item && s.Has(s.hash[t], t))
  {
    var next := s.Dropped(t, item);
    if t in s.hash && s.hash[t] != item && s.Has(s.hash[t], t) {
      MembersChange(s, t, item, s.hash[t]);
      assert next.Has(s.hash[t], t);
    } else {
      forall other, u | next.Has(other, u) ensures other != "" && u in next.hash && next.hash[u] == other {
        MembersChange(s, t, item, other);
        assert s.Has(other, u);
      }
    }
  }

  lemma DeletedIsMapped(s: Store, item: Item)
    requires MembersMapped(s)
    ensures MembersMapped(s.Deleted(item))
  {
    forall other, u | s.Deleted(item).Has(other, u) ensures other != "" && u in s.hash && s.hash[u] == other {
      MembersChange(s, "", item, other);
      assert s.Has(other, u);
    }
  }

  /** From mapped members, a step leaves mapped members unless it strands one. */
  lemma StepIsMapped(itemOf: Id -> Item, s: State, step: Step)
    requires OwnItems(itemOf, s) && MembersMapped(s.store) && Possible(s, step) && Once(s, step)
    ensures MembersMapped(Next(itemOf, s, step).store) <==> !Strands(s, step)
  {
    hide MembersMapped;
    match step {
      case Save(t) => SavedIsMapped(s.store, t, itemOf(t));
      case Advance(p) =>
        match s.running[p] {
          case Dropping(t, item) => DroppedIsMapped(s.store, t, item);
          case Deleting(item) => DeletedIsMapped(s.store, item);
          case _ =>
        }
      case _ =>
    }
  }

  ghost predicate AlwaysMapped(itemOf: Id -> Item, steps: seq<Step>)
    requires After(itemOf, steps).Some?
  {
    steps == [] || (MembersMapped(After(itemOf, steps).value.store) && AlwaysMapped(itemOf, steps[..|steps| - 1]))
  }

  ghost predicate NeverStrands(itemOf: Id -> Item, steps: seq<Step>)
    requires After(itemOf, steps).Some?
  {
    steps == [] ||
    var k := |steps| - 1;
    NeverStrands(itemOf, steps[..k]) && !Strands(After(itemOf, steps[..k]).value, steps[k])
  }

  /**
   * Whenever stops come: the members of each set are mapped to its item throughout a
   * run if and only if no removal in it strands one.
   */
  lemma {:induction false} MappedThroughout(itemOf: Id -> Item, steps: seq<Step>)
    requires After(itemOf, steps).Some?
    ensures AlwaysMapped(itemOf, steps) <==> NeverStrands(itemOf, steps)
    ensures AlwaysMapped(itemOf, steps) ==> MembersMapped(After(itemOf, steps).value.store)
  {
    hide Next, OwnItems, MembersMapped, Strands;
    if steps == [] {
      StartIsMapped();
    } else {
      var k := |steps| - 1;
      MappedThroughout(itemOf, steps[..k]);
      if AlwaysMapped(itemOf, steps[..k]) {
        RunOwnsItems(itemOf, steps[..k]);
        StepIsMapped(itemOf, After(itemOf, steps[..k]).value, steps[k]);
      }
    }
  }

  lemma StartIsMapped()
    ensures MembersMapped(START.store)
  {
  }

  // ------------------------------------------------------------ which schedules strand a member

  /** The step is one that deletes the item's set. */
  predicate Clears(s: State, step: Step, item: Item) {
    step.Advance? && step.process in s.running && s.running[step.process] == Deleting(item)
  }

  /** The set of the task's item has been deleted since the task was saved. */
  ghost predicate ClearedSinceSave(itemOf: Id -> Item, steps: seq<Step>, t: Id)
    requires After(itemOf, steps).Some?
  {
    steps != [] &&
    var k := |steps| - 1;
    steps[k] != Save(t) &&
    (Clears(After(itemOf, steps[..k]).value, steps[k], itemOf(t)) || ClearedSinceSave(itemOf, steps[..k], t))
  }

  /** The last thing the process did was to look the task up, and the task had not been saved by then. */
  ghost predicate LookedEarly(itemOf: Id -> Item, steps: seq<Step>, p: nat, t: Id)
    requires After(itemOf, steps).Some?
  {
    steps != [] &&
    var k := |steps| - 1;
    var s := After(itemOf, steps[..k]).value;
    if steps[k] == Advance(p) then p in s.running && s.running[p] == Looking(t) && t !in s.saved
    else LookedEarly(itemOf, steps[..k], p, t)
  }

  /** The step drops the task on a lookup made before its save, and nothing has removed the task since the save. */
  ghost predicate DropsOnEarlyLook(itemOf: Id -> Item, steps: seq<Step>, step: Step, t: Id)
    requires After(itemOf, steps).Some?
  {
    && step.Advance? && LookedEarly(itemOf, steps, step.process, t)
    && itemOf(t) != "" && Save(t) in steps
    && !DroppedSinceSave(itemOf, steps, t) && !ClearedSinceSave(itemOf, steps, t)
  }

  lemma {:induction false} SavedAreSaves(itemOf: Id -> Item, steps: seq<Step>, t: Id)
    requires After(itemOf, steps).Some?
    ensures t in After(itemOf, steps).value.saved <==> Save(t) in steps
  {
    hide Next, OwnItems;
    if steps != [] {
      var k := |steps| - 1;
      SavedAreSaves(itemOf, steps[..k], t);
      RunOwnsItems(itemOf, steps[..k]);
      StepLists(itemOf, After(itemOf, steps[..k]).value, steps[k], t);
      assert steps == steps[..k] + [steps[k]];
    }
  }

  lemma SaveMakesMember(itemOf: Id -> Item, s: State, t: Id)
    ensures Next(itemOf, s, Save(t)).store.Has(itemOf(t), t) <==> itemOf(t) != "" || s.store.Has(itemOf(t), t)
  {
  }

  lemma StepKeepsMember(itemOf: Id -> Item, s: State, step: Step, t: Id)
    requires OwnItems(itemOf, s) && Possible(s, step) && step != Save(t) && !Drops(s, step, t)
    ensures Next(itemOf, s, step).store.Has(itemOf(t), t) <==>
            s.store.Has(itemOf(t), t) && !Clears(s, step, itemOf(t))
  {
    match step {
      case Save(u) => MembersChange(s.store, u, itemOf(u), itemOf(t));
      case Advance(p) =>
        match s.running[p] {
          case Dropping(u, item) => MembersChange(s.store, u, item, itemOf(t));
          case Deleting(item) => MembersChange(s.store, t, item, itemOf(t));
          case _ =>
        }
      case _ =>
    }
  }

  /** A listed task is in the set of its item if and only if the set has not been deleted since the task was saved. */
  lemma {:induction false} MemberUntilCleared(itemOf: Id -> Item, steps: seq<Step>, t: Id)
    requires After(itemOf, steps).Some? && itemOf(t) != "" && t in After(itemOf, steps).value.store.hash
    ensures After(itemOf, steps).value.store.Has(itemOf(t), t) <==> !ClearedSinceSave(itemOf, steps, t)
  {
    hide Next, OwnItems, Drops, Clears, Store.Has;
    if steps != [] {
      var k := |steps| - 1;
      var s := After(itemOf, steps[..k]).value;
      RunOwnsItems(itemOf, steps[..k]);
      StepLists(itemOf, s, steps[k], t);
      if steps[k] == Save(t) {
        SaveMakesMember(itemOf, s, t);
      } else {
        MemberUntilCleared(itemOf, steps[..k], t);
        StepKeepsMember(itemOf, s, steps[k], t);
      }
    }
  }

  /** A pending removal names the task's own item, unless the lookup was early or the task is gone for good. */
  predicate PendingFits(itemOf: Id -> Item, s: State, p: nat, t: Id, early: bool) {
    && (early ==> p in s.running && s.running[p] == Dropping(t, ""))
    && (p in s.running && s.running[p].Dropping? && s.running[p].t == t ==>
          var item := s.running[p].item;
          item == itemOf(t) || (item == "" && (early || (t in s.saved && t !in s.store.hash))))
  }

  lemma StepPendingFits(itemOf: Id -> Item, s: State, step: Step, p: nat, t: Id, early: bool)
    requires OwnItems(itemOf, s) && Possible(s, step) && Once(s, step) && PendingFits(itemOf, s, p, t, early)
    ensures PendingFits(itemOf, Next(itemOf, s, step), p, t,
                        if step == Advance(p) then s.running[p] == Looking(t) && t !in s.saved else early)
  {
    StepLists(itemOf, s, step, t);
  }

  lemma {:induction false} RunPendingFits(itemOf: Id -> Item, steps: seq<Step>, p: nat, t: Id)
    requires After(itemOf, steps).Some?
    ensures PendingFits(itemOf, After(itemOf, steps).value, p, t, LookedEarly(itemOf, steps, p, t))
  {
    hide Next, OwnItems, PendingFits;
    if steps == [] {
      StartPendingFits(itemOf, p, t);
    } else {
      var k := |steps| - 1;
      RunOwnsItems(itemOf, steps[..k]);
      RunPendingFits(itemOf, steps[..k], p, t);
      StepPendingFits(itemOf, After(itemOf, steps[..k]).value, steps[k], p, t, LookedEarly(itemOf, steps[..k], p, t));
    }
  }

  lemma StartPendingFits(itemOf: Id -> Item, p: nat, t: Id)
    ensures PendingFits(itemOf, START, p, t, false)
  {
  }

  /** A step strands a member if and only if it drops some task on a lookup made before its save. */
  lemma StrandsIff(itemOf: Id -> Item, steps: seq<Step>, step: Step)
    requires After(itemOf, steps).Some? && Possible(After(itemOf, steps).value, step)
    ensures Strands(After(itemOf, steps).value, step) <==> exists t :: DropsOnEarlyLook(itemOf, steps, step, t)
  {
    hide Next, After, OwnItems, Strands, LookedEarly, DroppedSinceSave, ClearedSinceSave;
    var s := After(itemOf, steps).value;
    if t :| DropsOnEarlyLook(itemOf, steps, step, t) {
      EarlyLookStrands(itemOf, steps, step, t);
    }
    if Strands(s, step) {
      StrandedWasEarly(itemOf, steps, step);
    }
  }

  lemma EarlyLookStrands(itemOf: Id -> Item, steps: seq<Step>, step: Step, t: Id)
    requires After(itemOf, steps).Some? && DropsOnEarlyLook(itemOf, steps, step, t)
    ensures Strands(After(itemOf, steps).value, step)
  {
    hide Next, After, OwnItems, LookedEarly, DroppedSinceSave, ClearedSinceSave, Store.Has;
    RunPendingFits(itemOf, steps, step.process, t);
    SavedAreSaves(itemOf, steps, t);
    ListedUntilDropped(itemOf, steps, t);
    RunOwnsItems(itemOf, steps);
    OwnItem(itemOf, After(itemOf, steps).value, t);
    MemberUntilCleared(itemOf, steps, t);
  }

  lemma OwnItem(itemOf: Id -> Item, s: State, t: Id)
    requires OwnItems(itemOf, s) && t in s.store.hash
    ensures t in s.saved && s.store.hash[t] == itemOf(t)
  {
  }

  lemma StrandedWasEarly(itemOf: Id -> Item, steps: seq<Step>, step: Step)
    requires After(itemOf, steps).Some? && Strands(After(itemOf, steps).value, step)
    ensures exists t :: DropsOnEarlyLook(itemOf, steps, step, t)
  {
    hide Next, After, OwnItems, LookedEarly, DroppedSinceSave, ClearedSinceSave, Store.Has;
    var s := After(itemOf, steps).value;
    var t := s.running[step.process].t;
    RunPendingFits(itemOf, steps, step.process, t);
    RunOwnsItems(itemOf, steps);
    OwnItem(itemOf, s, t);
    SavedAreSaves(itemOf, steps, t);
    ListedUntilDropped(itemOf, steps, t);
    MemberUntilCleared(itemOf, steps, t);
    assert DropsOnEarlyLook(itemOf, steps, step, t);
  }

  /** No step of the run drops a task on a lookup made before its save. */
  ghost predicate NoEarlyLookDrops(itemOf: Id -> Item, steps: seq<Step>)
    requires After(itemOf, steps).Some?
  {
    steps == [] ||
    var k := |steps| - 1;
    NoEarlyLookDrops(itemOf, steps[..k]) && !exists t :: DropsOnEarlyLook(itemOf, steps[..k], steps[k], t)
  }

  lemma {:induction false} NeverStrandsIff(itemOf: Id -> Item, steps: seq<Step>)
    requires After(itemOf, steps).Some?
    ensures NeverStrands(itemOf, steps) <==> NoEarlyLookDrops(itemOf, steps)
  {
    hide Next, Strands, DropsOnEarlyLook;
    if steps != [] {
      var k := |steps| - 1;
      NeverStrandsIff(itemOf, steps[..k]);
      StrandsIff(itemOf, steps[..k], steps[k]);
    }
  }

  /**
   * Read off the schedule: the members of each set are mapped to its item throughout a
   * run if and only if no stop that looked a task up before its save drops it after,
   * while the task is listed still and its item's set has not been deleted since.
   */
  lemma MappedIffNoEarlyLook(itemOf: Id -> Item, steps: seq<Step>)
    requires After(itemOf, steps).Some?
    ensures AlwaysMapped(itemOf, steps) <==> NoEarlyLookDrops(itemOf, steps)
  {
    hide After, AlwaysMapped, NeverStrands, NoEarlyLookDrops;
    MappedThroughout(itemOf, steps);
    NeverStrandsIff(itemOf, steps);
  }

  // ------------------------------------------------------------ orderly runs

  /** A pending removal names the task's own item, or the task is already gone for good. */
  predicate StageFits(itemOf: Id -> Item, s: State, stage: Stage) {
    match stage
    case Looking(t) => t in s.saved
    case Dropping(t, item) => item == itemOf(t) || (item == "" && t in s.saved && t !in s.store.hash)
    case _ => true
  }

  ghost predicate StagesFit(itemOf: Id -> Item, s: State) {
    forall p :: p in s.running ==> StageFits(itemOf, s, s.running[p])
  }

  lemma StageStaysFit(itemOf: Id -> Item, s: State, step: Step, p: nat)
    requires OwnItems(itemOf, s) && StagesFit(itemOf, s) && Possible(s, step) && Once(s, step) && StopsSaved(s, step)
    requires p in Next(itemOf, s, step).running
    ensures StageFits(itemOf, Next(itemOf, s, step), Next(itemOf, s, step).running[p])
  {
  }

  lemma StepStaysFit(itemOf: Id -> Item, s: State, step: Step)
    requires OwnItems(itemOf, s) && StagesFit(itemOf, s) && Possible(s, step) && Once(s, step) && StopsSaved(s, step)
    ensures StagesFit(itemOf, Next(itemOf, s, step)) && !Strands(s, step)
  {
    forall p | p in Next(itemOf, s, step).running
      ensures StageFits(itemOf, Next(itemOf, s, step), Next(itemOf, s, step).running[p])
    {
      StageStaysFit(itemOf, s, step, p);
    }
    hide Next;
  }

  lemma {:induction false} OrderlyRun(itemOf: Id -> Item, steps: seq<Step>)
    requires After(itemOf, steps).Some? && Orderly(itemOf, steps)
    ensures StagesFit(itemOf, After(itemOf, steps).value) && NeverStrands(itemOf, steps)
  {
    hide Next, OwnItems, StagesFit, Strands;
    if steps == [] {
      StartFits(itemOf);
    } else {
      var k := |steps| - 1;
      OrderlyRun(itemOf, steps[..k]);
      RunOwnsItems(itemOf, steps[..k]);
      StepStaysFit(itemOf, After(itemOf, steps[..k]).value, steps[k]);
    }
  }

  lemma StartFits(itemOf: Id -> Item)
    ensures StagesFit(itemOf, START)
  {
  }

  /** In every orderly interleaving, a task in an item's set is mapped to that item. */
  lemma RunIsSafe(itemOf: Id -> Item, steps: seq<Step>)
    requires After(itemOf, steps).Some? && Orderly(itemOf, steps)
    ensures MembersMapped(After(itemOf, steps).value.store)
  {
    hide After, Orderly, MembersMapped, AlwaysMapped, NeverStrands;
    OrderlyRun(itemOf, steps);
    MappedThroughout(itemOf, steps);
  }

  /** A saved task that is no longer listed never comes back, and after an orderly run it is in no set. */
  lemma {:induction false} GoneForGood(itemOf: Id -> Item, steps: seq<Step>, n: nat, t: Id)
    requires n <= |steps| && After(itemOf, steps[..n]).Some? && After(itemOf, steps).Some?
    requires t in After(itemOf, steps[..n]).value.saved && t !in After(itemOf, steps[..n]).value.store.hash
    ensures var s := After(itemOf, steps).value;
            && t in s.saved && t !in s.store.hash
            && (Orderly(itemOf, steps) ==> forall item :: !s.store.Has(item, t))
  {
    hide Next, OwnItems, MembersMapped, Orderly;
    if n == |steps| {
      assert steps[..n] == steps;
    } else {
      var k := |steps| - 1;
      assert steps[..k][..n] == steps[..n];
      GoneForGood(itemOf, steps[..k], n, t);
      RunOwnsItems(itemOf, steps[..k]);
      StepLists(itemOf, After(itemOf, steps[..k]).value, steps[k], t);
    }
    if Orderly(itemOf, steps) {
      RunIsSafe(itemOf, steps);
      NotListedNowhere(After(itemOf, steps).value.store, t);
    }
  }

  lemma NotListedNowhere(s: Store, t: Id)
    requires MembersMapped(s) && t !in s.hash
    ensures forall item :: !s.Has(item, t)
  {
  }

  // ------------------------------------------------------------ exactness

  /** Every mapped task is in its item's set, so each set is exactly what the hash says. */
  ghost predicate Exact(s: Store) {
    forall t :: t in s.hash && s.hash[t] != "" ==> t in s.Members(s.hash[t])
  }

  /** A set is about to be deleted though it has members again. */
  predicate Loses(s: State, step: Step) {
    step.Advance? && step.process in s.running && s.running[step.process].Deleting? &&
    s.store.Members(s.running[step.process].item) != {}
  }

  lemma ExactSets(s: Store, item: Item, t: Id)
    requires MembersMapped(s) && Exact(s) && item != ""
    ensures s.Has(item, t) <==> t in s.hash && s.hash[t] == item
  {
  }

  lemma SavedIsExact(s: Store, t: Id, item: Item)
    requires Exact(s)
    ensures Exact(s.Saved(t, item))
  {
    forall u | u in s.Saved(t, item).hash && s.Saved(t, item).hash[u] != ""
      ensures u in s.Saved(t, item).Members(s.Saved(t, item).hash[u])
    {
      MembersChange(s, t, item, s.Saved(t, item).hash[u]);
    }
  }

  lemma DroppedIsExact(s: Store, t: Id, item: Item)
    requires Exact(s)
    ensures Exact(s.Dropped(t, item))
  {
    forall u | u in s.Dropped(t, item).hash && s.hash[u] != "" ensures u in s.Dropped(t, item).Members(s.hash[u]) {
      MembersChange(s, t, item, s.hash[u]);
    }
  }

  lemma DeletedIsExact(s: Store, item: Item)
    requires Exact(s) && MembersMapped(s)
    ensures Exact(s.Deleted(item)) <==> s.Members(item) == {}
  {
    forall u | u in s.hash && s.hash[u] != "" && s.Members(item) == {} ensures u in s.Deleted(item).Members(s.hash[u]) {
      MembersChange(s, u, item, s.hash[u]);
    }
    if s.Members(item) != {} {
      var t :| t in s.Members(item);
      assert s.Has(item, t);
      MembersChange(s, t, item, item);
    }
  }

  /** From exact sets, a step leaves exact sets unless it deletes a set that has members. */
  lemma StepIsExact(itemOf: Id -> Item, s: State, step: Step)
    requires MembersMapped(s.store) && Exact(s.store) && Possible(s, step)
    ensures Exact(Next(itemOf, s, step).store) <==> !Loses(s, step)
  {
    hide MembersMapped, Exact;
    match step {
      case Save(t) => SavedIsExact(s.store, t, itemOf(t));
      case Advance(p) =>
        match s.running[p] {
          case Dropping(t, item) => DroppedIsExact(s.store, t, item);
          case Deleting(item) => DeletedIsExact(s.store, item);
          case _ =>
        }
      case _ =>
    }
  }

  ghost predicate AlwaysExact(itemOf: Id -> Item, steps: seq<Step>)
    requires After(itemOf, steps).Some?
  {
    steps == [] || (Exact(After(itemOf, steps).value.store) && AlwaysExact(itemOf, steps[..|steps| - 1]))
  }

  ghost predicate NeverLoses(itemOf: Id -> Item, steps: seq<Step>)
    requires After(itemOf, steps).Some?
  {
    steps == [] ||
    var k := |steps| - 1;
    NeverLoses(itemOf, steps[..k]) && !Loses(After(itemOf, steps[..k]).value, steps[k])
  }

  /** The sets are exact throughout an orderly run if and only if no deletion in it finds members. */
  lemma {:induction false} ExactThroughout(itemOf: Id -> Item, steps: seq<Step>)
    requires After(itemOf, steps).Some? && Orderly(itemOf, steps)
    ensures AlwaysExact(itemOf, steps) <==> NeverLoses(itemOf, steps)
    ensures AlwaysExact(itemOf, steps) ==> Exact(After(itemOf, steps).value.store)
  {
    hide Next, MembersMapped, Exact, Loses;
    if steps == [] {
      StartIsExact();
    } else {
      var k := |steps| - 1;
      ExactThroughout(itemOf, steps[..k]);
      if AlwaysExact(itemOf, steps[..k]) {
        RunIsSafe(itemOf, steps[..k]);
        StepIsExact(itemOf, After(itemOf, steps[..k]).value, steps[k]);
      }
    }
  }

  lemma StartIsExact()
    ensures Exact(START.store)
  {
  }

  /** No task is saved for an item while some process is between counting its set and deleting it. */
  ghost predicate Undisturbed(itemOf: Id -> Item, steps: seq<Step>)
    requires After(itemOf, steps).Some?
  {
    steps == [] ||
    var k := |steps| - 1;
    && Undisturbed(itemOf, steps[..k])
    && (steps[k].Save? ==> !DeletionPending(After(itemOf, steps[..k]).value, itemOf(steps[k].t)))
  }

  ghost predicate DeletionPending(s: State, item: Item) {
    exists p :: p in s.running && s.running[p] == Deleting(item)
  }

  ghost predicate PendingEmpty(s: State) {
    forall p :: p in s.running && s.running[p].Deleting? ==> s.store.Members(s.running[p].item) == {}
  }

  lemma StepKeepsPendingEmpty(itemOf: Id -> Item, s: State, step: Step)
    requires PendingEmpty(s) && Possible(s, step)
    requires step.Save? ==> !DeletionPending(s, itemOf(step.t))
    ensures PendingEmpty(Next(itemOf, s, step))
  {
    var next := Next(itemOf, s, step);
    forall p | p in next.running && next.running[p].Deleting? ensures next.store.Members(next.running[p].item) == {} {
      var item := next.running[p].item;
      match step {
        case Save(t) => MembersChange(s.store, t, itemOf(t), item);
        case Advance(q) =>
          match s.running[q] {
            case Dropping(t, i) => MembersChange(s.store, t, i, item);
            case Deleting(i) => MembersChange(s.store, "", i, item);
            case _ =>
          }
        case _ =>
      }
    }
  }

  lemma {:induction false} UndisturbedNeverLoses(itemOf: Id -> Item, steps: seq<Step>)
    requires After(itemOf, steps).Some? && Undisturbed(itemOf, steps)
    ensures NeverLoses(itemOf, steps) && PendingEmpty(After(itemOf, steps).value)
  {
    hide Next, DeletionPending;
    if steps != [] {
      var k := |steps| - 1;
      UndisturbedNeverLoses(itemOf, steps[..k]);
      StepKeepsPendingEmpty(itemOf, After(itemOf, steps[..k]).value, steps[k]);
    }
  }

  /** If no save slips in between, each item's set is exactly the tasks the hash maps to it. */
  lemma UndisturbedIsExact(itemOf: Id -> Item, steps: seq<Step>, item: Item, t: Id)
    requires After(itemOf, steps).Some? && Orderly(itemOf, steps) && Undisturbed(itemOf, steps) && item != ""
    ensures var s := After(itemOf, steps).value.store;
            s.Has(item, t) <==> t in s.hash && s.hash[t] == item
  {
    hide After, Orderly, MembersMapped, Exact, Undisturbed, NeverLoses, AlwaysExact;
    UndisturbedNeverLoses(itemOf, steps);
    ExactThroughout(itemOf, steps);
    RunIsSafe(itemOf, steps);
    ExactSets(After(itemOf, steps).value.store, item, t);
  }

  // ------------------------------------------------------------ runs that go wrong

  /** The run is possible and orderly, and leads to the state. */
  ghost predicate Leads(itemOf: Id -> Item, steps: seq<Step>, s: State) {
    After(itemOf, steps) == Some(s) && Orderly(itemOf, steps)
  }

  lemma Extend(itemOf: Id -> Item, steps: seq<Step>, step: Step, s: State, next: State)
    requires Leads(itemOf, steps, s) && Possible(s, step) && Once(s, step) && StopsSaved(s, step)
    requires Next(itemOf, s, step) == next
    ensures Leads(itemOf, steps + [step], next)
  {
    hide Next;
    assert (steps + [step])[..|steps|] == steps;
  }

  lemma NothingDone(itemOf: Id -> Item)
    ensures Leads(itemOf, [], START)
  {
  }

  /** One task is saved and removed, and its set found empty. */
  lemma SetFoundEmpty(itemOf: Id -> Item, item: Item) returns (steps: seq<Step>)
    requires item != "" && itemOf("a") == item
    ensures Leads(itemOf, steps, State(Store(map[], map[]), {"a"}, map[0 := Deleting(item)]))
  {
    hide Leads;
    var none := Store(map[], map[]);
    var one := Store(map["a" := item], map[item := {"a"}]);
    assert none.Saved("a", item) == one;
    assert one.Dropped("a", item) == none;
    hide Store.Saved, Store.Dropped;
    NothingDone(itemOf);
    var s0, s1 := State(one, {"a"}, map[]), State(one, {"a"}, map[0 := Dropping("a", item)]);
    var s2, s3 := State(none, {"a"}, map[0 := Counting(item)]), State(none, {"a"}, map[0 := Deleting(item)]);
    Extend(itemOf, [], Save("a"), START, s0);
    steps := [] + [Save("a")];
    Extend(itemOf, steps, Clean(0, "a"), s0, s1);
    steps := steps + [Clean(0, "a")];
    Extend(itemOf, steps, Advance(0), s1, s2);
    steps := steps + [Advance(0)];
    Extend(itemOf, steps, Advance(0), s2, s3);
    steps := steps + [Advance(0)];
  }

  /** A save between the count and the deletion leaves a mapped task out of its item's set. */
  lemma LostMember(itemOf: Id -> Item, item: Item)
    requires item != "" && itemOf("a") == item && itemOf("b") == item
    ensures exists steps, s :: && Leads(itemOf, steps, s)
                               && "b" in s.store.hash && s.store.hash["b"] == item && "b" !in s.store.Members(item)
  {
    hide Leads;
    var none, other := Store(map[], map[]), Store(map["b" := item], map[item := {"b"}]);
    var lost := Store(map["b" := item], map[]);
    assert none.Members(item) + {"b"} == {"b"};
    assert none.Saved("b", item) == other;
    assert other.Deleted(item) == lost;
    hide Store.Saved, Store.Deleted;
    var steps := SetFoundEmpty(itemOf, item);
    var pending := map[0 := Deleting(item)];
    Extend(itemOf, steps, Save("b"), State(none, {"a"}, pending), State(other, {"a", "b"}, pending));
    steps := steps + [Save("b")];
    Extend(itemOf, steps, Advance(0), State(other, {"a", "b"}, pending), State(lost, {"a", "b"}, map[]));
  }

  /** A task whose cleanup drops it before its save stays listed, with nothing left to remove it. */
  lemma FinishedStaysListed(itemOf: Id -> Item, t: Id)
    ensures exists steps, s :: Leads(itemOf, steps, s) && t in s.store.hash && s.running == map[]
  {
    hide Leads;
    var item, none := itemOf(t), Store(map[], map[]);
    assert none.Dropped(t, item) == none && none.Deleted(item) == none;
    hide Store.Saved, Store.Dropped, Store.Deleted;
    NothingDone(itemOf);
    var s0, s1 := State(none, {}, map[0 := Dropping(t, item)]), State(none, {}, map[0 := Counting(item)]);
    Extend(itemOf, [], Clean(0, t), START, s0);
    var steps := [] + [Clean(0, t)];
    if item == "" {
      Extend(itemOf, steps, Advance(0), s0, START);
      steps := steps + [Advance(0)];
    } else {
      Extend(itemOf, steps, Advance(0), s0, s1);
      steps := steps + [Advance(0)];
      Extend(itemOf, steps, Advance(0), s1, State(none, {}, map[0 := Deleting(item)]));
      steps := steps + [Advance(0)];
      Extend(itemOf, steps, Advance(0), State(none, {}, map[0 := Deleting(item)]), START);
      steps := steps + [Advance(0)];
    }
    Saves(itemOf, t);
    Extend(itemOf, steps, Save(t), START, Next(itemOf, START, Save(t)));
  }

  lemma Saves(itemOf: Id -> Item, t: Id)
    ensures var s := Next(itemOf, START, Save(t)); t in s.store.hash && s.running == map[]
  {
  }

  /** A stop that looks up before the save ends with a member the hash does not map. */
  lemma StopBeforeSave(itemOf: Id -> Item, t: Id)
    requires itemOf(t) != ""
    ensures var steps := [Stop(0, t), Advance(0), Save(t), Advance(0)];
            && After(itemOf, steps).Some? && !Orderly(itemOf, steps)
            && (var s := After(itemOf, steps).value;
                t in s.store.Members(itemOf(t)) && t !in s.store.hash && s.running == map[])
  {
    var item := itemOf(t);
    var s1, s2 := State(START.store, {}, map[0 := Looking(t)]), State(START.store, {}, map[0 := Dropping(t, "")]);
    var saved := START.store.Saved(t, item);
    var s3, s4 := State(saved, {t}, map[0 := Dropping(t, "")]), State(saved.Dropped(t, ""), {t}, map[]);
    assert t in s4.store.Members(item) && t !in s4.store.hash;
    hide Store.Saved, Store.Dropped;
    var r1, r2, r3 := [Stop(0, t)], [Stop(0, t), Advance(0)], [Stop(0, t), Advance(0), Save(t)];
    Continue(itemOf, [], Stop(0, t), START, s1);
    assert [] + [Stop(0, t)] == r1;
    Continue(itemOf, r1, Advance(0), s1, s2);
    assert r1 + [Advance(0)] == r2;
    Continue(itemOf, r2, Save(t), s2, s3);
    assert r2 + [Save(t)] == r3;
    Continue(itemOf, r3, Advance(0), s3, s4);
    assert r3 + [Advance(0)] == [Stop(0, t), Advance(0), Save(t), Advance(0)];
  }

  lemma Continue(itemOf: Id -> Item, steps: seq<Step>, step: Step, s: State, next: State)
    requires After(itemOf, steps) == Some(s) && Possible(s, step) && Once(s, step) && Next(itemOf, s, step) == next
    ensures After(itemOf, steps + [step]) == Some(next)
    ensures !StopsSaved(s, step) || !Orderly(itemOf, steps) ==> !Orderly(itemOf, steps + [step])
  {
    hide Next;
    assert (steps + [step])[..|steps|] == steps;
  }
}
