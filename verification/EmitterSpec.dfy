/**
 Event emitters as a plain map from types to listener lists, with emissions in
 progress as a stack of the listeners still to be called.
 */
module EmitterSpec {

  // A function, or the wrapper `once` makes of one; wrappers know their type.
  datatype Listener = Plain(id: nat) | Once(id: nat, inner: Listener, event: string)

  type Lists = map<string, seq<Listener>>

  // `fired` are the wrappers that ran, `log` the functions run, wrappers by themselves.
  datatype State = State(lists: Lists, frames: seq<seq<Listener>>, fired: set<Listener>, log: seq<Listener>)

  datatype Action =
    | Add(event: string, listener: Listener, prepend: bool)
    | Remove(event: string, listener: Listener)
    | RemoveAll
    | RemoveType(event: string)
    | Emit(event: string)
    | Call

  function ListOf(lists: Lists, event: string): seq<Listener> { if event in lists then lists[event] else [] }

  // Types without listeners are absent.
  function Put(lists: Lists, event: string, list: seq<Listener>): Lists
  {
    if list == [] then lists - {event} else lists[event := list]
  }

  predicate Matches(l: Listener, x: Listener) { l == x || (l.Once? && l.inner == x) }

  // The list without the last match of x.
  function RemoveLast(list: seq<Listener>, x: Listener): seq<Listener>
  {
    if list == [] then []
    else
      var n := |list| - 1;
      if Matches(list[n], x) then list[..n] else RemoveLast(list[..n], x) + [list[n]]
  }

  function Insert(list: seq<Listener>, l: Listener, prepend: bool): seq<Listener>
  {
    if prepend then [l] + list else list + [l]
  }

  // A function runs; a wrapper removes itself and then calls what it wraps, unless it
  // has fired.
  function Invoke(s: State, l: Listener): State
    decreases l
  {
    match l
    case Plain(_) => s.(log := s.log + [l])
    case Once(_, inner, event) => if l in s.fired then s else Invoke(Fired(s, l), inner)
  }

  function Fired(s: State, l: Listener): State
    requires l.Once?
  {
    s.(lists := Put(s.lists, l.event, RemoveLast(ListOf(s.lists, l.event), l)), fired := s.fired + {l}, log := s.log + [l])
  }

  // The newest emission calls its next listener, or returns.
  function CallNext(s: State): State
  {
    var n := |s.frames| - 1;
    if n < 0 then s
    else if s.frames[n] == [] then s.(frames := s.frames[..n])
    else
      Invoke(s.(frames := s.frames[..n] + [s.frames[n][1..]]), s.frames[n][0])
  }

  function Step(s: State, a: Action): State
  {
    match a
    case Add(event, l, prepend) => s.(lists := Put(s.lists, event, Insert(ListOf(s.lists, event), l, prepend)))
    case Remove(event, x) => s.(lists := Put(s.lists, event, RemoveLast(ListOf(s.lists, event), x)))
    case RemoveAll => s.(lists := map[])
    case RemoveType(event) => s.(lists := Put(s.lists, event, []))
    case Emit(event) => if event in s.lists then s.(frames := s.frames + [ListOf(s.lists, event)]) else s
    case Call => CallNext(s)
  }

  function Run(s: State, actions: seq<Action>): State
    decreases |actions|
  {
    if actions == [] then s else Run(Step(s, actions[0]), actions[1..])
  }

  function Start(): State { State(map[], [], {}, []) }

  // ---------------------------------------------------------------- removal

  predicate Present(list: seq<Listener>, x: Listener) { exists i :: 0 <= i < |list| && Matches(list[i], x) }

  // k is the last match.
  predicate LastMatch(list: seq<Listener>, x: Listener, k: int)
  {
    && 0 <= k < |list| && Matches(list[k], x)
    && forall i :: k < i < |list| ==> !Matches(list[i], x)
  }

  lemma {:induction false} RemoveAt(list: seq<Listener>, x: Listener, k: nat)
    requires LastMatch(list, x, k)
    ensures RemoveLast(list, x) == list[..k] + list[k + 1..]
  {
    var n := |list| - 1;
    if k < n {
      RemoveAt(list[..n], x, k);
      assert list[..n][..k] == list[..k];
      assert list[..n][k + 1..] + [list[n]] == list[k + 1..];
    }
  }

  lemma {:induction false} RemoveAbsent(list: seq<Listener>, x: Listener)
    requires !Present(list, x)
    ensures RemoveLast(list, x) == list
  {
    if list != [] {
      var n := |list| - 1;
      assert !Matches(list[n], x);
      assert forall i :: 0 <= i < n ==> list[..n][i] == list[i];
      RemoveAbsent(list[..n], x);
    }
  }

  // Removing takes one listener when there is a match and nothing otherwise.
  lemma {:induction false} RemoveLength(list: seq<Listener>, x: Listener)
    ensures |RemoveLast(list, x)| == |list| - if Present(list, x) then 1 else 0
  {
    if list != [] {
      var n := |list| - 1;
      RemoveLength(list[..n], x);
      if Matches(list[n], x) {
        assert Present(list, x);
      } else {
        if i :| 0 <= i < |list| && Matches(list[i], x) { assert Matches(list[..n][i], x); }
        if i :| 0 <= i < n && Matches(list[..n][i], x) { assert Matches(list[i], x); }
      }
    }
  }

  // `off` undoes `on`.
  lemma RemoveUndoesAppend(list: seq<Listener>, x: Listener)
    ensures RemoveLast(Insert(list, x, false), x) == list
  {
    assert (list + [x])[..|list|] == list;
  }

  lemma RemovePrepended(list: seq<Listener>, x: Listener, k: nat)
    requires LastMatch(list, x, k)
    ensures RemoveLast([x] + list, x) == [x] + list[..k] + list[k + 1..]
  {
    var all := [x] + list;
    forall i | k + 1 < i < |all| ensures !Matches(all[i], x) { assert all[i] == list[i - 1]; }
    RemoveAt(all, x, k + 1);
    assert all[..k + 1] == [x] + list[..k];
    assert all[k + 2..] == list[k + 1..];
  }

  // Nothing but x up to the last match of x.
  predicate Led(list: seq<Listener>, x: Listener)
  {
    forall i, j :: 0 <= i <= j < |list| && Matches(list[j], x) ==> list[i] == x
  }

  lemma LedSame(list: seq<Listener>, x: Listener, k: nat)
    requires LastMatch(list, x, k) && Led(list, x)
    ensures [x] + list[..k] + list[k + 1..] == list
  {
    assert forall i :: 0 <= i <= k ==> list[i] == x;
  }

  // `off` undoes `prependListener` unless a match further back hides behind
  // something else.
  lemma RemoveUndoesPrepend(list: seq<Listener>, x: Listener)
    ensures RemoveLast(Insert(list, x, true), x) == list <==> Led(list, x)
  {
    hide RemoveLast, Matches;
    var all := [x] + list;
    if Present(list, x) {
      var k := LastIndex(list, x);
      RemovePrepended(list, x, k);
      if Led(list, x) {
        LedSame(list, x, k);
      } else {
        assert [x] + list[..k] + list[k + 1..] != list by {
          if [x] + list[..k] + list[k + 1..] == list { AllSame(list, x, k); }
        }
      }
    } else {
      NoMatch(list, x);
    }
  }

  // Removing a listener that was put in front takes the one further back.
  lemma PrependNotUndone(x: Listener, y: Listener)
    requires x != y && !Matches(y, x)
    ensures !Led([y, x], x) && RemoveLast(Insert([y, x], x, true), x) == [x, y]
  {
    assert [y, x][0] == y && Matches([y, x][1], x);
    RemovePrepended([y, x], x, 1);
    assert [x] + [y, x][..1] + [y, x][2..] == [x, y];
  }

  lemma NoMatch(list: seq<Listener>, x: Listener)
    requires !Present(list, x)
    ensures Led(list, x) && RemoveLast([x] + list, x) == list
  {
    var all := [x] + list;
    forall i | 0 < i < |all| ensures !Matches(all[i], x) { assert all[i] == list[i - 1]; }
    RemoveAt(all, x, 0);
    assert all[..0] + all[1..] == list;
  }

  function LastIndex(list: seq<Listener>, x: Listener): (k: nat)
    requires Present(list, x)
    ensures LastMatch(list, x, k)
  {
    var n := |list| - 1;
    if Matches(list[n], x) then n
    else
      assert Present(list[..n], x) by {
        var i :| 0 <= i < |list| && Matches(list[i], x);
        assert Matches(list[..n][i], x);
      }
      LastIndex(list[..n], x)
  }

  // Moving the front one place back changes nothing only if it is all the same.
  lemma AllSame(list: seq<Listener>, x: Listener, k: nat)
    requires LastMatch(list, x, k) && [x] + list[..k] + list[k + 1..] == list
    ensures Led(list, x)
  {
    Shifted(list, x, k, k);
  }

  lemma {:induction false} Shifted(list: seq<Listener>, x: Listener, k: nat, m: nat)
    requires m <= k < |list| && [x] + list[..k] + list[k + 1..] == list
    ensures forall i :: 0 <= i <= m ==> list[i] == x
  {
    var r := [x] + list[..k] + list[k + 1..];
    assert r[m] == list[m];
    if m > 0 {
      Shifted(list, x, k, m - 1);
      assert r[m] == list[..k][m - 1] == list[m - 1];
    } else {
      assert r[0] == x;
    }
  }

  // ---------------------------------------------------------------- once

  // A wrapper ran exactly if it fired, and then once.
  ghost predicate OnceInv(s: State)
  {
    forall l: Listener :: l.Once? ==> multiset(s.log)[l] == if l in s.fired then 1 else 0
  }

  lemma {:induction false} OnceInvoke(s: State, l: Listener)
    requires OnceInv(s)
    ensures OnceInv(Invoke(s, l))
    decreases l
  {
    hide Put, RemoveLast, ListOf;
    assert multiset(s.log + [l]) == multiset(s.log) + multiset{l};
    if l.Once? && l !in s.fired {
      OnceInvoke(Fired(s, l), l.inner);
    }
  }

  lemma OnceStep(s: State, a: Action)
    requires OnceInv(s)
    ensures OnceInv(Step(s, a))
  {
    hide Put, RemoveLast, ListOf, Insert, Invoke;
    var n := |s.frames| - 1;
    if a.Call? && n >= 0 && s.frames[n] != [] {
      OnceInvoke(s.(frames := s.frames[..n] + [s.frames[n][1..]]), s.frames[n][0]);
    }
  }

  lemma {:induction false} OnceRun(s: State, actions: seq<Action>)
    requires OnceInv(s)
    ensures OnceInv(Run(s, actions))
    decreases |actions|
  {
    hide OnceInv, Step;
    if actions != [] {
      OnceStep(s, actions[0]);
      OnceRun(Step(s, actions[0]), actions[1..]);
    }
  }

  // In every run, with emissions nested and interleaved with changes in any way, the
  // function behind a `once` wrapper runs at most once.
  lemma OnceAtMostOnce(actions: seq<Action>, l: Listener)
    requires l.Once?
    ensures multiset(Run(Start(), actions).log)[l] <= 1
  {
    OnceRun(Start(), actions);
  }

  // ---------------------------------------------------------------- emissions

  // What calling a listener runs when the wrappers in `fired` have fired: a function
  // itself; a wrapper that has not fired itself and what it wraps.
  function Runs(fired: set<Listener>, l: Listener): seq<Listener>
    decreases l
  {
    match l
    case Plain(_) => [l]
    case Once(_, inner, _) => if l in fired then [] else [l] + Runs(fired + {l}, inner)
  }

  // The wrappers that have fired then.
  function FiredBy(fired: set<Listener>, l: Listener): set<Listener>
  {
    fired + set x | x in Runs(fired, l) && x.Once?
  }

  // What calling a list of listeners in order runs.
  function RunsAll(fired: set<Listener>, list: seq<Listener>): seq<Listener>
    decreases |list|
  {
    if list == [] then [] else Runs(fired, list[0]) + RunsAll(FiredBy(fired, list[0]), list[1..])
  }

  function FiredByAll(fired: set<Listener>, list: seq<Listener>): set<Listener>
    decreases |list|
  {
    if list == [] then fired else FiredByAll(FiredBy(fired, list[0]), list[1..])
  }

  lemma {:induction false} InvokeRuns(s: State, l: Listener)
    ensures var t := Invoke(s, l);
            t.log == s.log + Runs(s.fired, l) && t.fired == FiredBy(s.fired, l) && t.frames == s.frames
    decreases l
  {
    hide Put, RemoveLast, ListOf;
    if l.Once? {
      if l in s.fired {
        assert s.log + [] == s.log;
      } else {
        InvokeRuns(Fired(s, l), l.inner);
        assert s.log + [l] + Runs(s.fired + {l}, l.inner) == s.log + ([l] + Runs(s.fired + {l}, l.inner));
      }
    }
  }

  // Changes to the lists, which listeners may make while they are called.
  predicate Change(a: Action) { a.Add? || a.Remove? || a.RemoveAll? || a.RemoveType? }

  function Calls(actions: seq<Action>): nat
  {
    if actions == [] then 0 else (if actions[0].Call? then 1 else 0) + Calls(actions[1..])
  }

  // An emission with these listeners pending calls them in order and returns, whatever is
  // changed in between.
  lemma {:induction false} PendingCalls(s: State, outer: seq<seq<Listener>>, pending: seq<Listener>, actions: seq<Action>)
    requires s.frames == outer + [pending]
    requires (forall i :: 0 <= i < |actions| ==> actions[i].Call? || Change(actions[i])) && Calls(actions) == |pending| + 1
    ensures var t := Run(s, actions);
            t.log == s.log + RunsAll(s.fired, pending) && t.fired == FiredByAll(s.fired, pending) && t.frames == outer
    decreases |actions|
  {
    hide Put, RemoveLast, ListOf, Insert, Invoke, Runs, FiredBy;
    var a, rest := actions[0], actions[1..];
    var t := Step(s, a);
    if Change(a) {
      PendingCalls(t, outer, pending, rest);
    } else if pending == [] {
      assert t.frames == outer;
      NothingCalled(t, rest);
      assert s.log + [] == s.log;
    } else {
      var u := s.(frames := outer + [pending[1..]]);
      assert t == Invoke(u, pending[0]) by { assert s.frames[..|s.frames| - 1] == outer; }
      InvokeRuns(u, pending[0]);
      PendingCalls(t, outer, pending[1..], rest);
      assert s.log + Runs(s.fired, pending[0]) + RunsAll(t.fired, pending[1..]) == s.log + RunsAll(s.fired, pending);
    }
  }

  // Changes alone call nobody.
  lemma {:induction false} NothingCalled(s: State, actions: seq<Action>)
    requires (forall i :: 0 <= i < |actions| ==> actions[i].Call? || Change(actions[i])) && Calls(actions) == 0
    ensures var t := Run(s, actions); t.log == s.log && t.fired == s.fired && t.frames == s.frames
    decreases |actions|
  {
    hide Put, RemoveLast, ListOf, Insert;
    if actions != [] { NothingCalled(Step(s, actions[0]), actions[1..]); }
  }

  // Emitting calls the listeners present at the time, each once, in list order, and nobody
  // else, whatever is added or removed in the meantime.
  lemma EmissionCalls(s: State, event: string, actions: seq<Action>)
    requires event in s.lists
    requires (forall i :: 0 <= i < |actions| ==> actions[i].Call? || Change(actions[i])) && Calls(actions) == |s.lists[event]| + 1
    ensures var t := Run(s, [Emit(event)] + actions);
            t.log == s.log + RunsAll(s.fired, s.lists[event]) && t.fired == FiredByAll(s.fired, s.lists[event]) && t.frames == s.frames
  {
    var t := Step(s, Emit(event));
    assert ([Emit(event)] + actions)[1..] == actions;
    PendingCalls(t, s.frames, s.lists[event], actions);
  }

  // Without `once` the functions run are the listeners themselves.
  lemma {:induction false} PlainRuns(fired: set<Listener>, list: seq<Listener>)
    requires forall i :: 0 <= i < |list| ==> list[i].Plain?
    ensures RunsAll(fired, list) == list
    decreases |list|
  {
    if list != [] {
      PlainRuns(FiredBy(fired, list[0]), list[1..]);
      assert [list[0]] + list[1..] == list;
    }
  }

  // Nobody listens: nothing happens.
  lemma SilentEmit(s: State, event: string)
    requires event !in s.lists
    ensures Run(s, [Emit(event)]) == s
  {
    assert [Emit(event)][1..] == [];
  }

  // An emission that listeners start meanwhile leaves the outer ones as they are.
  lemma OuterFrames(s: State, a: Action, k: nat)
    requires k + 1 < |s.frames|
    ensures k < |Step(s, a).frames| && Step(s, a).frames[k] == s.frames[k]
  {
    hide Put, RemoveLast, ListOf, Insert, Invoke;
    var n := |s.frames| - 1;
    if a.Call? && s.frames[n] != [] {
      InvokeRuns(s.(frames := s.frames[..n] + [s.frames[n][1..]]), s.frames[n][0]);
    }
  }

  // ---------------------------------------------------------------- lists

  // What each change makes of the list of a type; other types keep theirs.
  lemma ListsAfter(s: State, a: Action, event: string)
    ensures var was, now := ListOf(s.lists, event), ListOf(Step(s, a).lists, event);
            && (a.Add? && a.event == event ==> now == if a.prepend then [a.listener] + was else was + [a.listener])
            && (a.Remove? && a.event == event ==> now == RemoveLast(was, a.listener))
            && (a.RemoveAll? || (a.RemoveType? && a.event == event) ==> now == [])
            && (((a.Add? || a.Remove? || a.RemoveType?) && a.event != event) || a.Emit? ==> now == was)
  {
    hide RemoveLast;
  }

  // `off` with the function given to `once` removes its wrapper.
  lemma RemoveOnce(list: seq<Listener>, id: nat, f: Listener, event: string)
    ensures RemoveLast(list + [Once(id, f, event)], f) == list
  {
    var l := Once(id, f, event);
    assert (list + [l])[..|list|] == list;
  }

  // ---------------------------------------------------------------- what an emission leaves

  // The listeners that stay.
  function Staying(list: seq<Listener>): seq<Listener>
  {
    if list == [] then [] else Staying(list[..|list| - 1]) + if list[|list| - 1].Plain? then [list[|list| - 1]] else []
  }

  // Functions added for the type, by `on` or by `once`, and none by the same wrapper twice.
  predicate Ordinary(list: seq<Listener>, event: string)
  {
    && (forall i :: 0 <= i < |list| ==> list[i].Plain? || (list[i].event == event && list[i].inner.Plain?))
    && (forall i, j :: 0 <= i < j < |list| && list[i].Once? ==> list[i] != list[j])
  }

  // A wrapper that runs takes itself off the list.
  lemma CallLeaves(s: State, event: string, done: seq<Listener>, l: Listener, rest: seq<Listener>)
    requires Ordinary([l] + rest, event) && l !in s.fired && ListOf(s.lists, event) == done + ([l] + rest)
    ensures ListOf(Invoke(s, l).lists, event) == done + (if l.Plain? then [l] else []) + rest
  {
    hide RemoveLast;
    var list := done + ([l] + rest);
    if l.Once? {
      assert ([l] + rest)[0] == l;
      forall i | |done| < i < |list| ensures !Matches(list[i], l) {
        assert list[i] == ([l] + rest)[i - |done|];
      }
      RemoveAt(list, l, |done|);
      assert list[..|done|] + list[|done| + 1..] == done + [] + rest;
    } else {
      assert list == done + [l] + rest;
    }
  }

  lemma OrdinaryTail(list: seq<Listener>, event: string)
    requires Ordinary(list, event) && list != []
    ensures Ordinary(list[1..], event)
  { }

  lemma StayingNext(list: seq<Listener>, l: Listener)
    ensures Staying(list + [l]) == Staying(list) + if l.Plain? then [l] else []
  {
    assert (list + [l])[..|list|] == list;
  }

  lemma {:induction false} PendingLeaves(s: State, event: string, outer: seq<seq<Listener>>, done: seq<Listener>, pending: seq<Listener>)
    requires s.frames == outer + [pending] && ListOf(s.lists, event) == Staying(done) + pending
    requires Ordinary(pending, event) && forall i :: 0 <= i < |pending| ==> pending[i] !in s.fired
    ensures ListOf(Run(s, seq(|pending|, i => Call)).lists, event) == Staying(done + pending)
    decreases |pending|
  {
    hide Put, RemoveLast, ListOf, Invoke, Staying, Ordinary;
    if pending == [] {
      assert Staying(done) + [] == Staying(done) && done + [] == done;
    } else {
      var l, rest := pending[0], pending[1..];
      var u := s.(frames := outer + [rest]);
      var t := Step(s, Call);
      assert t == Invoke(u, l) by { assert s.frames[..|s.frames| - 1] == outer; }
      assert pending == [l] + rest;
      CallLeaves(u, event, Staying(done), l, rest);
      InvokeRuns(u, l);
      StayingNext(done, l);
      OrdinaryTail(pending, event);
      NotFired(s.fired, event, l, rest);
      PendingLeaves(t, event, outer, done + [l], rest);
      assert (done + [l]) + rest == done + pending;
      assert seq(|pending|, i => Call)[1..] == seq(|rest|, i => Call);
    }
  }

  lemma NotFired(fired: set<Listener>, event: string, l: Listener, rest: seq<Listener>)
    requires Ordinary([l] + rest, event) && forall i :: 0 <= i < |rest| ==> rest[i] !in fired
    ensures forall i :: 0 <= i < |rest| ==> rest[i] !in FiredBy(fired, l)
  {
    var list := [l] + rest;
    assert list[0] == l;
    assert forall x :: x in Runs(fired, l) && x.Once? ==> x == l by {
      if l.Once? { assert Runs(fired + {l}, l.inner) == [l.inner]; }
    }
    forall i | 0 <= i < |rest| ensures rest[i] !in FiredBy(fired, l) {
      assert list[i + 1] == rest[i];
    }
  }

  // After an emission the functions added by `on` are listed as before and those added by
  // `once` are gone.
  lemma EmissionLeaves(s: State, event: string)
    requires event in s.lists && Ordinary(s.lists[event], event)
    requires forall i :: 0 <= i < |s.lists[event]| ==> s.lists[event][i] !in s.fired
    ensures ListOf(Run(s, [Emit(event)] + seq(|s.lists[event]|, i => Call)).lists, event) == Staying(s.lists[event])
  {
    hide Ordinary;
    var list := s.lists[event];
    var calls := seq(|list|, i => Call);
    var t := Step(s, Emit(event));
    assert ([Emit(event)] + calls)[1..] == calls;
    assert Staying([]) + list == list && [] + list == list;
    PendingLeaves(t, event, s.frames, [], list);
  }
}
