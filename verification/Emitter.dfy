/**
 The representation events.js keeps: no entry for no listener, a bare function for
 one, an array for two or more, and a count of the types present.
 */
module Emitter {
  import opened EmitterSpec

  datatype Entry = Single(listener: Listener) | Several(listeners: seq<Listener>)

  function EntryList(e: Entry): seq<Listener>
  {
    match e
    case Single(l) => [l]
    case Several(ls) => ls
  }

  predicate Canonical(e: Entry) { e.Several? ==> |e.listeners| >= 2 }

  function Abstract(events: map<string, Entry>): Lists { map t | t in events :: EntryList(events[t]) }

  predicate Proper(events: map<string, Entry>) { forall t :: t in events ==> Canonical(events[t]) }

  lemma PutEntry(events: map<string, Entry>, t: string, e: Entry)
    requires Proper(events) && Canonical(e)
    ensures Proper(events[t := e])
    ensures Abstract(events[t := e]) == Put(Abstract(events), t, EntryList(e))
    ensures |events[t := e]| == |events| + if t in events then 0 else 1
  {
    KeyCount(events, t, e);
    assert |EntryList(e)| > 0;
    var lists := Abstract(events);
    assert Put(lists, t, EntryList(e)) == lists[t := EntryList(e)];
    hide Put, EntryList;
  }

  lemma KeyCount(events: map<string, Entry>, t: string, e: Entry)
    ensures |events[t := e]| == |events| + if t in events then 0 else 1
  {
    var m := events[t := e];
    assert m.Keys == events.Keys + {t};
    assert |m.Keys| == |events.Keys| + if t in events then 0 else 1;
  }

  lemma DropEntry(events: map<string, Entry>, t: string)
    requires Proper(events) && t in events
    ensures Proper(events - {t})
    ensures Abstract(events - {t}) == Put(Abstract(events), t, [])
    ensures |events - {t}| == |events| - 1
  {
    var m := events - {t};
    assert m.Keys == events.Keys - {t};
    assert |m.Keys| == |events.Keys| - 1;
  }

  lemma SameList(events: map<string, Entry>, t: string)
    requires Proper(events)
    ensures Put(Abstract(events), t, ListOf(Abstract(events), t)) == Abstract(events)
  {
    if t in events {
      assert EntryList(events[t]) != [];
    }
  }

  class EventEmitter {
    var events: map<string, Entry>
    var eventsCount: int
    var frames: seq<seq<Listener>>  // emissions in progress, innermost last
    var fired: set<Listener>
    var log: seq<Listener>

    ghost predicate Valid()
      reads this
    {
      Proper(events) && eventsCount == |events|
    }

    // The plain lists this stands for.
    ghost function Model(): State
      reads this
    {
      State(Abstract(events), frames, fired, log)
    }

    constructor ()
      ensures Valid() && Model() == Start()
    {
      events, eventsCount, frames, fired, log := map[], 0, [], {}, [];
    }

    // `_addListener`.
    method AddListener(t: string, listener: Listener, prepend: bool)
      requires Valid()
      modifies this`events, this`eventsCount
      ensures Valid() && Model() == Step(old(Model()), Add(t, listener, prepend))
    {
      hide Abstract, Proper, Put;
      Lookup(events, t);
      var e;
      if t !in events {
        e := Single(listener);
        PutEntry(events, t, e);
        eventsCount := eventsCount + 1;
      } else {
        match events[t] {
          case Single(existing) => e := Several(if prepend then [listener, existing] else [existing, listener]);
          case Several(existing) => e := Several(if prepend then [listener] + existing else existing + [listener]);
        }
        PutEntry(events, t, e);
      }
      assert EntryList(e) == Insert(ListOf(Abstract(events), t), listener, prepend);
      events := events[t := e];
    }

    // `removeListener`: the last match goes; one listener left is stored bare.
    method RemoveListener(t: string, listener: Listener)
      requires Valid()
      modifies this`events, this`eventsCount
      ensures Valid() && Model() == Step(old(Model()), Remove(t, listener))
    {
      hide Abstract, Proper, Put, RemoveLast;
      Lookup(events, t);
      SameList(events, t);
      if t !in events {
        RemoveAbsent([], listener);
        return;
      }
      match events[t]
      case Single(l) =>
        RemoveOne(l, listener);
        if Matches(l, listener) {
          DropType(t);
        }
      case Several(list) =>
        var position := |list| - 1;
        while position >= 0 && !Matches(list[position], listener)
          invariant -1 <= position < |list|
          invariant forall i :: position < i < |list| ==> !Matches(list[i], listener)
        {
          position := position - 1;
        }
        if position < 0 {
          RemoveAbsent(list, listener);
          return;
        }
        RemoveAt(list, listener, position);
        var rest := if position == 0 then list[1..] else list[..position] + list[position + 1..];
        var e := if |rest| == 1 then Single(rest[0]) else Several(rest);
        PutEntry(events, t, e);
        assert EntryList(e) == RemoveLast(list, listener);
        events := events[t := e];
    }

    // The only listener of a type goes, and the type with it.
    method DropType(t: string)
      requires Valid() && t in events
      modifies this`events, this`eventsCount
      ensures Valid() && Abstract(events) == Put(old(Abstract(events)), t, [])
    {
      DropEntry(events, t);
      eventsCount := eventsCount - 1;
      events := if eventsCount == 0 then map[] else events - {t};
      assert old(events - {t}) == map[] || eventsCount != 0;
    }

    // `removeAllListeners()`.
    method RemoveAllListeners()
      requires Valid()
      modifies this`events, this`eventsCount
      ensures Valid() && Model() == Step(old(Model()), RemoveAll)
    {
      events, eventsCount := map[], 0;
    }

    // `removeAllListeners(type)`.
    method RemoveAllOf(t: string)
      requires Valid()
      modifies this`events, this`eventsCount
      ensures Valid() && Model() == Step(old(Model()), RemoveType(t))
    {
      if t in events {
        DropType(t);
      }
    }

    // `emit` up to its first call: the listeners to be called are fixed now.
    method BeginEmit(t: string) returns (handled: bool)
      requires Valid()
      modifies this`frames
      ensures Valid() && Model() == Step(old(Model()), Emit(t))
      ensures handled == (ListOf(Abstract(events), t) != [])
    {
      handled := t in events;
      if handled {
        assert EntryList(events[t]) != [];
        match events[t]
        case Single(l) => frames := frames + [[l]];
        case Several(ls) => frames := frames + [ls];
      }
    }

    // A call of a listener: `onceWrapper` for wrappers.
    method Invoke(l: Listener)
      requires Valid()
      modifies this
      ensures Valid() && Model() == EmitterSpec.Invoke(old(Model()), l)
      decreases l
    {
      hide Abstract, Proper, Put, RemoveLast, ListOf;
      match l
      case Plain(_) => log := log + [l];
      case Once(_, inner, event) =>
        if l !in fired {
          RemoveListener(event, l);
          fired := fired + {l};
          log := log + [l];
          Invoke(inner);
        }
    }

    // One call of the innermost emission, or its return.
    method CallNext()
      requires Valid()
      modifies this
      ensures Valid() && Model() == Step(old(Model()), Call)
    {
      hide Abstract, Proper, EmitterSpec.Invoke;
      if |frames| == 0 {
        return;
      }
      var n := |frames| - 1;
      var pending := frames[n];
      if pending == [] {
        frames := frames[..n];
        return;
      }
      frames := frames[..n] + [pending[1..]];
      Invoke(pending[0]);
    }

    method Perform(a: Action)
      requires Valid()
      modifies this
      ensures Valid() && Model() == Step(old(Model()), a)
    {
      hide Abstract, Proper, Put, RemoveLast, ListOf, EmitterSpec.CallNext;
      match a
      case Add(t, l, prepend) => AddListener(t, l, prepend);
      case Remove(t, l) => RemoveListener(t, l);
      case RemoveAll => RemoveAllListeners();
      case RemoveType(t) => RemoveAllOf(t);
      case Emit(t) => var handled := BeginEmit(t);
      case Call => CallNext();
    }

    // Every run of the representation is a run of the plain lists.
    method Execute(actions: seq<Action>)
      requires Valid()
      modifies this
      ensures Valid() && Model() == Run(old(Model()), actions)
    {
      hide Abstract, Proper, Step;
      var i := 0;
      assert actions[0..] == actions;
      while i < |actions|
        invariant i <= |actions| && Valid()
        invariant Run(Model(), actions[i..]) == Run(old(Model()), actions)
      {
        assert actions[i..][1..] == actions[i + 1..];
        Perform(actions[i]);
        i := i + 1;
      }
    }
  }

  // Absent for no listener, bare for one, an array for more.
  lemma Lookup(events: map<string, Entry>, t: string)
    requires Proper(events)
    ensures ListOf(Abstract(events), t) == if t in events then EntryList(events[t]) else []
    ensures t in events ==> Canonical(events[t])
    ensures t !in events <==> |ListOf(Abstract(events), t)| == 0
    ensures t in events && events[t].Single? <==> |ListOf(Abstract(events), t)| == 1
    ensures t in events && events[t].Several? <==> |ListOf(Abstract(events), t)| >= 2
  { }

  lemma RemoveOne(l: Listener, x: Listener)
    ensures RemoveLast([l], x) == if Matches(l, x) then [] else [l]
  {
    assert [l][..0] == [];
  }
}
