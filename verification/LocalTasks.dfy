// The tasks of one process: the module-level dictionaries `tasks` and `item_tasks`.
module LocalTasks {
  import opened Options

  type Id = string
  type Handle = int

  /** An item identifier as create_task takes it: it may be absent, and "" counts as absent when cleaning up. */
  type Item = Option<string>

  predicate Named(item: Item) {
    item.Some? && item.value != ""
  }

  datatype Tables = Tables(tasks: map<Id, Handle>, items: map<Item, seq<Id>>) {
    function Listed(item: Item): seq<Id> {
      if item in items then items[item] else []
    }
  }

  /** list.remove: without its first occurrence. */
  function Removed(s: seq<Id>, t: Id): seq<Id> {
    if s == [] then [] else if s[0] == t then s[1..] else [s[0]] + Removed(s[1..], t)
  }

  function Created(s: Tables, t: Id, handle: Handle, item: Item): Tables {
    Tables(s.tasks[t := handle], s.items[item := s.Listed(item) + [t]])
  }

  function Cleaned(s: Tables, t: Id, item: Item): Tables {
    Tables(s.tasks - {t},
           if !Named(item) || t !in s.Listed(item) then s.items
           else if Removed(s.Listed(item), t) == [] then s.items - {item}
           else s.items[item := Removed(s.Listed(item), t)])
  }

  class Process {
    var tasks: map<Id, Handle>
    var items: map<Item, seq<Id>>

    ghost function View(): Tables
      reads this
    {
      Tables(tasks, items)
    }

    /** The dictionary updates of create_task. */
    method CreateTask(t: Id, handle: Handle, item: Item)
      modifies this
      ensures View() == Created(old(View()), t, handle, item)
    {
      tasks := tasks[t := handle];
      if item in items && items[item] != [] {
        items := items[item := items[item] + [t]];
      } else {
        assert old(View()).Listed(item) + [t] == [t];
        items := items[item := [t]];
      }
    }

    /** The dictionary updates of cleanup_task. */
    method CleanupTask(t: Id, item: Item)
      modifies this
      ensures View() == Cleaned(old(View()), t, item)
    {
      tasks := tasks - {t};
      if Named(item) && item in items && t in items[item] {
        items := items[item := Removed(items[item], t)];
        if items[item] == [] { items := items - {item}; }
      }
    }
  }

  /** Only the first occurrence goes: what stands before it and behind it stays, in order. */
  lemma {:induction false} RemovedFrom(a: seq<Id>, t: Id, b: seq<Id>)
    requires t !in a
    ensures Removed(a + [t] + b, t) == a + b
  {
    var s := a + [t] + b;
    if a == [] {
      assert s[0] == t && s[1..] == b && a + b == b;
    } else {
      assert s[1..] == a[1..] + [t] + b;
      RemovedFrom(a[1..], t, b);
      assert a + b == [a[0]] + (a[1..] + b);
    }
  }

  /** Cleaning up a new task restores both tables, if it was created for a named item... */
  lemma CleanupUndoesCreate(s: Tables, t: Id, handle: Handle, item: Item)
    requires t !in s.tasks && t !in s.Listed(item) && (item in s.items ==> s.items[item] != [])
    ensures Cleaned(Created(s, t, handle, item), t, item) == s <==> item.Some? && item.value != ""
    ensures item.None? || item.value == "" ==>
      Cleaned(Created(s, t, handle, item), t, item).Listed(item) == s.Listed(item) + [t]
  {
    var next := Created(s, t, handle, item);
    assert next.tasks - {t} == s.tasks;
    RemovedFrom(s.Listed(item), t, []);
    assert s.Listed(item) + [t] + [] == s.Listed(item) + [t] && s.Listed(item) + [] == s.Listed(item);
    assert next.Listed(item) == s.Listed(item) + [t];
    if Named(item) {
      if item in s.items {
        assert next.items[item := s.items[item]] == s.items;
      } else {
        assert next.items - {item} == s.items;
      }
    }
  }

  /** Cleaning up a task of a named item takes it alone off the list, and the others keep their order. */
  lemma CleanupTakesOne(s: Tables, t: Id, item: Item, a: seq<Id>, b: seq<Id>)
    requires item.Some? && item.value != "" && s.Listed(item) == a + [t] + b && t !in a
    ensures Cleaned(s, t, item).Listed(item) == a + b && Cleaned(s, t, item).tasks == s.tasks - {t}
    ensures item in Cleaned(s, t, item).items <==> a + b != []
    ensures forall other :: other != item ==> Cleaned(s, t, item).Listed(other) == s.Listed(other)
  {
    RemovedFrom(a, t, b);
    assert t in s.Listed(item);
  }

  datatype Op = Create(t: Id, handle: Handle, item: Item) | Cleanup(t: Id, item: Item)

  function Run(s: Tables, ops: seq<Op>): Tables {
    if ops == [] then s
    else
      var before, op := Run(s, ops[..|ops| - 1]), ops[|ops| - 1];
      match op
      case Create(t, handle, item) => Created(before, t, handle, item)
      case Cleanup(t, item) => Cleaned(before, t, item)
  }

  /** The tasks created without a named item, in order. */
  function Nameless(ops: seq<Op>, item: Item): seq<Id> {
    if ops == [] then []
    else
      var op := ops[|ops| - 1];
      Nameless(ops[..|ops| - 1], item) + if op.Create? && op.item == item then [op.t] else []
  }

  /** ...but a list kept for tasks without a named item only ever grows: nothing takes a finished task off it. */
  lemma {:induction false} NamelessNeverLeave(s: Tables, ops: seq<Op>, item: Item)
    requires item.None? || item.value == ""
    ensures Run(s, ops).Listed(item) == s.Listed(item) + Nameless(ops, item)
  {
    if ops == [] {
      assert s.Listed(item) + [] == s.Listed(item);
    } else {
      NamelessNeverLeave(s, ops[..|ops| - 1], item);
    }
  }
}
