/**
 What the reader of an async iterator may rely on, whatever the interleaving.
 */
module IteratorLaws {
  import opened IteratorSpec

  // ---------------------------------------------------------------- delivery

  // The actions that close an open stream.
  predicate Closing<T, E>(m: Marks<E>, a: Action<T, E>) { a.Error? || a.Close? || (a.Throw? && Accepts(m, a.error)) }

  // The items the emitter's side alone determines: events up to the close, then the error.
  function Delivered<T, E>(m: Marks<E>, actions: seq<Action<T, E>>): seq<Item<T, E>>
  {
    if actions == [] then []
    else if Closing(m, actions[0]) then Ending(actions[0])
    else (if actions[0].Emit? then [Value(actions[0].value)] else []) + Delivered(m, actions[1..])
  }

  function Ending<T, E>(a: Action<T, E>): seq<Item<T, E>>
  {
    if a.Error? || a.Throw? then [Failed(a.error)] else []
  }

  function Reads<T, E>(actions: seq<Action<T, E>>): nat
  {
    if actions == [] then 0 else (if actions[0].Next? then 1 else 0) + Reads(actions[1..])
  }

  function FirstClosing<T, E>(m: Marks<E>, actions: seq<Action<T, E>>): (c: nat)
    ensures c <= |actions| && (c < |actions| ==> Closing(m, actions[c]))
    ensures forall i :: 0 <= i < c ==> !Closing(m, actions[i])
  {
    if actions == [] || Closing(m, actions[0]) then 0
    else
      var c := 1 + FirstClosing(m, actions[1..]);
      assert forall i :: 0 < i < c ==> actions[i] == actions[1..][i - 1];
      c
  }

  // The last error thrown, -1 if there is none.
  function LastThrow<T, E>(m: Marks<E>, actions: seq<Action<T, E>>): (t: int)
    ensures -1 <= t < |actions| && (t >= 0 ==> actions[t].Throw? && Accepts(m, actions[t].error))
    ensures forall i :: t < i < |actions| ==> !(actions[i].Throw? && Accepts(m, actions[i].error))
  {
    if actions == [] then -1
    else
      var n := |actions| - 1;
      if actions[n].Throw? && Accepts(m, actions[n].error) then n else LastThrow(m, actions[..n])
  }

  // The closing action leaves its error: a falsy one only with a reader waiting.
  predicate Settles<T, E>(m: Marks<E>, before: seq<Action<T, E>>, a: Action<T, E>)
  {
    a.Error? && !m.truthy(a.error) ==> Reads(before) > |Delivered(m, before)|
  }

  // No error is lost or added: the closing action leaves its error, and if the reader
  // throws into the closed stream, then what it threw last is that error while it was
  // still unread.
  ghost predicate Exact<T, E>(m: Marks<E>, actions: seq<Action<T, E>>)
  {
    var c := FirstClosing(m, actions);
    c < |actions| ==>
      && Settles(m, actions[..c], actions[c])
      && var t := LastThrow(m, actions[c + 1..]);
         t >= 0 ==>
           && !actions[c].Close? && actions[c + 1 + t].error == actions[c].error
           && Reads(actions[..c + 1 + t]) < |Delivered(m, actions)|
  }

  lemma {:induction false} RunConcat<T, E>(m: Marks<E>, s: Stream<T, E>, a: seq<Action<T, E>>, b: seq<Action<T, E>>)
    ensures Run(m, s, a + b) == Run(m, Run(m, s, a), b)
    ensures Reads(a + b) == Reads(a) + Reads(b)
    decreases |a|
  {
    hide Step;
    if a == [] {
      assert a + b == b;
    } else {
      assert (a + b)[1..] == a[1..] + b;
      RunConcat(m, Step(m, s, a[0]), a[1..], b);
    }
  }

  lemma {:induction false} RunAsked<T, E>(m: Marks<E>, s: Stream<T, E>, actions: seq<Action<T, E>>)
    ensures Run(m, s, actions).asked == s.asked + Reads(actions)
    ensures s.closed ==> Run(m, s, actions).closed
    decreases |actions|
  {
    hide Size, LateThrow;
    if actions != [] { RunAsked(m, Step(m, s, actions[0]), actions[1..]); }
  }

  // Up to the close.
  lemma {:induction false} OpenRun<T, E>(m: Marks<E>, s: Stream<T, E>, actions: seq<Action<T, E>>)
    requires !s.closed && forall i :: 0 <= i < |actions| ==> !Closing(m, actions[i])
    ensures var t := Run(m, s, actions); !t.closed && t.items == s.items + Delivered(m, actions)
    decreases |actions|
  {
    hide Size, LateThrow;
    if actions != [] {
      var t := Step(m, s, actions[0]);
      OpenRun(m, t, actions[1..]);
    }
  }

  lemma {:induction false} DeliveredValues<T, E>(m: Marks<E>, actions: seq<Action<T, E>>, i: nat)
    requires i < |Delivered(m, actions)| && forall j :: 0 <= j < |actions| ==> !Closing(m, actions[j])
    ensures Delivered(m, actions)[i].Value?
  {
    var k := if actions[0].Emit? then 1 else 0;
    if i >= k { DeliveredValues(m, actions[1..], i - k); }
  }

  lemma {:induction false} DeliveredSplit<T, E>(m: Marks<E>, actions: seq<Action<T, E>>)
    ensures var c := FirstClosing(m, actions);
            Delivered(m, actions) == Delivered(m, actions[..c]) + if c < |actions| then Ending(actions[c]) else []
  {
    var c := FirstClosing(m, actions);
    if c > 0 {
      DeliveredSplit(m, actions[1..]);
      assert actions[..c][1..] == actions[1..][..c - 1];
    }
  }

  // After the close only a throw changes the items.
  lemma {:induction false} QuietRun<T, E>(m: Marks<E>, s: Stream<T, E>, actions: seq<Action<T, E>>)
    requires s.closed && forall i :: 0 <= i < |actions| ==> !(actions[i].Throw? && Accepts(m, actions[i].error))
    ensures Run(m, s, actions).items == s.items
    decreases |actions|
  {
    hide Size, LateThrow;
    if actions != [] { QuietRun(m, Step(m, s, actions[0]), actions[1..]); }
  }

  // Throws never shorten the items, and lengthen them when they do not end in an error.
  lemma {:induction false} LateLength<T, E>(m: Marks<E>, s: Stream<T, E>, actions: seq<Action<T, E>>)
    requires s.closed
    ensures var t := Run(m, s, actions);
            |t.items| >= |s.items| && (EndsFailed(s.items) || t.items == s.items || |t.items| > |s.items|)
    decreases |actions|
  {
    hide Size;
    if actions != [] { LateLength(m, Step(m, s, actions[0]), actions[1..]); }
  }

  // While the error is unread, throws only replace it.
  lemma {:induction false} UnreadError<T, E>(m: Marks<E>, s: Stream<T, E>, actions: seq<Action<T, E>>, values: seq<Item<T, E>>)
    requires s.closed && |s.items| == |values| + 1 && s.items[..|values|] == values && EndsFailed(s.items)
    requires s.asked + Reads(actions) <= |values|
    ensures var t := Run(m, s, actions); |t.items| == |values| + 1 && t.items[..|values|] == values && EndsFailed(t.items)
    decreases |actions|
  {
    hide Size;
    if actions != [] { UnreadError(m, Step(m, s, actions[0]), actions[1..], values); }
  }

  // ---------------------------------------------------------------- exactly when

  // The last throw into a closed stream has the last word.
  lemma LastWord<T, E>(m: Marks<E>, s: Stream<T, E>, actions: seq<Action<T, E>>)
    requires s.closed && LastThrow(m, actions) >= 0
    ensures var t := LastThrow(m, actions);
            var u := Run(m, s, actions[..t]);
            && Run(m, s, actions).items == LateThrow(u, actions[t].error).items
            && u.closed && u.asked == s.asked + Reads(actions[..t])
  {
    hide LateThrow, LastThrow, Run, Reads;
    var t := LastThrow(m, actions);
    var front, back := actions[..t], actions[t + 1..];
    assert actions == front + ([actions[t]] + back);
    RunConcat(m, s, front, [actions[t]] + back);
    RunAsked(m, s, front);
    RunFirst(m, Run(m, s, front), actions[t], back);
    QuietRun(m, LateThrow(Run(m, s, front), actions[t].error), back);
  }

  // What throws into a closed stream make of the items in the end.
  lemma LateItems<T, E>(m: Marks<E>, s: Stream<T, E>, actions: seq<Action<T, E>>, values: seq<Item<T, E>>, a: Action<T, E>)
    requires s.closed && LastThrow(m, actions) >= 0 && Closing(m, a)
    requires (forall i :: 0 <= i < |values| ==> values[i].Value?) && s.items == values + (if Lost(m, a, s) then [] else Ending(a))
    ensures var t := LastThrow(m, actions);
            Run(m, s, actions).items == values + Ending(a) <==>
              !Lost(m, a, s) && !a.Close? && actions[t].error == a.error && s.asked + Reads(actions[..t]) <= |values|
  {
    hide Run, Step, LastThrow, Reads, LateThrow;
    var t := LastThrow(m, actions);
    var front, e := actions[..t], actions[t].error;
    LastWord(m, s, actions);
    LateLength(m, s, front);
    var u := Run(m, s, front);
    ThrownItems(u, e);
    if !Lost(m, a, s) && !a.Close? && s.asked + Reads(front) <= |values| {
      UnreadError(m, s, front, values);
      assert LateThrow(u, e).items == values + [Failed(e)];
    }
  }

  // A falsy error that nobody waited for.
  predicate Lost<T, E>(m: Marks<E>, a: Action<T, E>, s: Stream<T, E>) { a.Error? && !m.truthy(a.error) && !EndsFailed(s.items) }

  lemma ThrownItems<T, E>(u: Stream<T, E>, e: E)
    ensures var v := LateThrow(u, e);
            && |v.items| > 0 && v.items[|v.items| - 1] == Failed(e)
            && (u.asked >= |u.items| || !EndsFailed(u.items) ==> |v.items| > |u.items| && |v.items| > u.asked)
            && (u.asked < |u.items| && EndsFailed(u.items) ==> v.items == u.items[..|u.items| - 1] + [Failed(e)])
  { }

  lemma ClosingItems<T, E>(m: Marks<E>, s: Stream<T, E>, a: Action<T, E>)
    requires !s.closed && Closing(m, a) && !EndsFailed(s.items)
    ensures var t := Step(m, s, a);
            && t.closed && t.asked == s.asked
            && t.items == s.items + (if Lost(m, a, t) then [] else Ending(a))
            && (Lost(m, a, t) <==> a.Error? && !m.truthy(a.error) && s.asked <= |s.items|)
  {
    hide Size, LateThrow;
    assert s.items + [] == s.items;
  }

  // The state after the first closing action.
  function AtClose<T, E>(m: Marks<E>, actions: seq<Action<T, E>>): Stream<T, E>
    requires FirstClosing(m, actions) < |actions|
  {
    var c := FirstClosing(m, actions);
    Step(m, Run(m, Start(), actions[..c]), actions[c])
  }

  lemma CloseSplits<T, E>(m: Marks<E>, actions: seq<Action<T, E>>)
    requires FirstClosing(m, actions) < |actions|
    ensures var c, t := FirstClosing(m, actions), AtClose(m, actions);
            && Run(m, Start(), actions) == Run(m, t, actions[c + 1..])
            && t.closed && t.asked == Reads(actions[..c])
  {
    hide Run, Step, Delivered, FirstClosing, LastThrow, Reads, Closing;
    var c := FirstClosing(m, actions);
    var start := Start<T, E>();
    var before, a, after := actions[..c], actions[c], actions[c + 1..];
    assert actions == before + ([a] + after);
    RunConcat(m, start, before, [a] + after);
    RunFirst(m, Run(m, start, before), a, after);
    RunAsked(m, start, before);
    CloseItems(m, actions);
  }

  lemma CloseItems<T, E>(m: Marks<E>, actions: seq<Action<T, E>>)
    requires FirstClosing(m, actions) < |actions|
    ensures var c, t := FirstClosing(m, actions), AtClose(m, actions);
            var a, values := actions[c], Delivered(m, actions[..c]);
            && t.closed && t.asked == Run(m, Start(), actions[..c]).asked
            && (forall i :: 0 <= i < |values| ==> values[i].Value?)
            && t.items == values + (if Lost(m, a, t) then [] else Ending(a))
            && (Lost(m, a, t) <==> !Settles(m, actions[..c], a))
  {
    hide Run, Step, Delivered, FirstClosing, LastThrow, Reads, Closing;
    var c := FirstClosing(m, actions);
    var start := Start<T, E>();
    var before, values := actions[..c], Delivered(m, actions[..c]);
    OpenRun(m, start, before);
    RunAsked(m, start, before);
    assert [] + values == values;
    forall i: nat | i < |values| ensures values[i].Value? { DeliveredValues(m, before, i); }
    ClosingItems(m, Run(m, start, before), actions[c]);
  }

  lemma ReadsBefore<T, E>(m: Marks<E>, actions: seq<Action<T, E>>, c: nat, last: nat)
    requires c + 1 + last < |actions| && Closing(m, actions[c])
    ensures Reads(actions[..c + 1 + last]) == Reads(actions[..c]) + Reads(actions[c + 1..][..last])
  {
    hide Reads, Closing;
    var before, a, more := actions[..c], actions[c], actions[c + 1..][..last];
    assert actions[..c + 1 + last] == before + ([a] + more);
    RunConcat(m, Start(), before, [a] + more);
    ReadsFirst(m, a, more);
  }

  // The items of a run are the events before the close and then the error, exactly when
  // no error is lost or added.
  lemma DeliveryExact<T, E>(m: Marks<E>, actions: seq<Action<T, E>>)
    ensures Run(m, Start(), actions).items == Delivered(m, actions) <==> Exact(m, actions)
  {
    hide Run, Step, Delivered, FirstClosing, LastThrow, Reads, AtClose, Settles, Lost;
    var c := FirstClosing(m, actions);
    DeliveredSplit(m, actions);
    if c == |actions| {
      assert actions[..c] == actions;
      OpenRun(m, Start(), actions);
      assert [] + Delivered(m, actions) == Delivered(m, actions);
    } else {
      var values, a, after := Delivered(m, actions[..c]), actions[c], actions[c + 1..];
      var t := AtClose(m, actions);
      CloseSplits(m, actions);
      CloseItems(m, actions);
      var last := LastThrow(m, after);
      if last < 0 {
        QuietRun(m, t, after);
        LostDiffers(m, a, t, values);
      } else {
        LateItems(m, t, after, values, a);
        ReadsBefore(m, actions, c, last);
        assert !a.Close? ==> |Ending(a)| == 1;
        assert after[last] == actions[c + 1 + last];
      }
    }
  }

  lemma LostDiffers<T, E>(m: Marks<E>, a: Action<T, E>, t: Stream<T, E>, values: seq<Item<T, E>>)
    ensures values + (if Lost(m, a, t) then [] else Ending(a)) == values + Ending(a) <==> !Lost(m, a, t)
  {
    assert |values + []| == |values|;
  }

  lemma RunFirst<T, E>(m: Marks<E>, s: Stream<T, E>, a: Action<T, E>, after: seq<Action<T, E>>)
    ensures Run(m, s, [a] + after) == Run(m, Step(m, s, a), after)
  {
    assert ([a] + after)[1..] == after;
  }

  lemma ReadsFirst<T, E>(m: Marks<E>, a: Action<T, E>, after: seq<Action<T, E>>)
    requires Closing(m, a)
    ensures Reads([a] + after) == Reads(after)
  {
    assert ([a] + after)[1..] == after;
  }

  // ---------------------------------------------------------------- what readers see

  // The outcome of read i that the emitter's side alone determines.
  function Expected<T, E>(m: Marks<E>, actions: seq<Action<T, E>>, i: nat): Outcome<T, E>
  {
    var items := Delivered(m, actions);
    if i < |items| then Settled(items[i]) else if FirstClosing(m, actions) < |actions| then Settled(Done) else Pending
  }

  lemma {:induction false} NoDoneAtEnd<T, E>(m: Marks<E>, s: Stream<T, E>, actions: seq<Action<T, E>>)
    requires s.items != [] ==> !s.items[|s.items| - 1].Done?
    ensures var t := Run(m, s, actions); t.items != [] ==> !t.items[|t.items| - 1].Done?
    decreases |actions|
  {
    hide Size;
    if actions != [] { NoDoneAtEnd(m, Step(m, s, actions[0]), actions[1..]); }
  }

  lemma {:induction false} NoDoneDelivered<T, E>(m: Marks<E>, actions: seq<Action<T, E>>, i: nat)
    requires i < |Delivered(m, actions)|
    ensures !Delivered(m, actions)[i].Done?
  {
    if !Closing(m, actions[0]) {
      var k := if actions[0].Emit? then 1 else 0;
      if i >= k { NoDoneDelivered(m, actions[1..], i - k); }
    }
  }

  lemma ClosedExactly<T, E>(m: Marks<E>, actions: seq<Action<T, E>>)
    ensures Run(m, Start<T, E>(), actions).closed <==> FirstClosing(m, actions) < |actions|
  {
    hide Run, Step, Delivered, FirstClosing, LastThrow, Reads, Closing, AtClose;
    var c := FirstClosing(m, actions);
    if c < |actions| {
      CloseSplits(m, actions);
      RunAsked(m, AtClose(m, actions), actions[c + 1..]);
    } else {
      assert actions[..c] == actions;
      OpenRun(m, Start(), actions);
    }
  }

  // Two item lists that do not end in done are told apart by some read.
  lemma Distinguished<T, E>(a: seq<Item<T, E>>, b: seq<Item<T, E>>) returns (i: nat)
    requires a != b
    requires a != [] ==> !a[|a| - 1].Done?
    requires b != [] ==> !b[|b| - 1].Done?
    ensures (if i < |a| then a[i] else Done) != (if i < |b| then b[i] else Done)
  {
    if |a| == |b| {
      i :| 0 <= i < |a| && a[i] != b[i];
    } else {
      i := if |a| < |b| then |b| - 1 else |a| - 1;
    }
  }

  // Whenever the reads are made, read i gets item i of: the events before the close,
  // then the error, then done. This holds of all reads exactly when no error is lost or
  // added.
  lemma OutcomeOfRead<T, E>(m: Marks<E>, actions: seq<Action<T, E>>)
    ensures (forall i: nat :: OutcomeOf(Run(m, Start(), actions), i) == Expected(m, actions, i)) <==> Exact(m, actions)
  {
    hide Run, Delivered, FirstClosing, Exact;
    var s := Run(m, Start<T, E>(), actions);
    var items := Delivered(m, actions);
    DeliveryExact(m, actions);
    ClosedExactly(m, actions);
    NoDoneAtEnd(m, Start<T, E>(), actions);
    if items != [] { NoDoneDelivered(m, actions, |items| - 1); }
    if s.items != items {
      OpenExact(m, actions);
      var i := Distinguished(s.items, items);
      assert OutcomeOf(s, i) != Expected(m, actions, i);
    }
  }

  lemma OpenExact<T, E>(m: Marks<E>, actions: seq<Action<T, E>>)
    requires !Exact(m, actions)
    ensures FirstClosing(m, actions) < |actions|
  { }

  // A falsy error is lost when nobody waits for it, and not when somebody does.
  lemma FalsyErrorLost<T, E>(m: Marks<E>, e: E)
    requires !m.truthy(e)
    ensures OutcomeOf(Run(m, Start<T, E>(), [Error(e), Next]), 0) == Settled(Done)
    ensures OutcomeOf(Run(m, Start<T, E>(), [Next, Error(e)]), 0) == Settled(Failed(e))
  {
    RunTwo(m, Start<T, E>(), Error(e), Next);
    RunTwo(m, Start<T, E>(), Next, Error(e));
  }

  lemma RunTwo<T, E>(m: Marks<E>, s: Stream<T, E>, a: Action<T, E>, b: Action<T, E>)
    ensures Run(m, s, [a, b]) == Step(m, Step(m, s, a), b)
  {
    hide Step;
    assert [a, b] == [a] + [b] && [b] == [b] + [];
    RunFirst(m, s, a, [b]);
    RunFirst(m, Step(m, s, a), b, []);
  }

  // A throw after the close fails a second read, or replaces an error nobody has read.
  lemma LateThrowSeen<T, E>(m: Marks<E>, first: E, second: E)
    requires m.truthy(first) && Accepts(m, second)
    ensures var s := Run(m, Start<T, E>(), [Error(first), Next] + [Throw(second), Next]);
            OutcomeOf(s, 0) == Settled(Failed(first)) && OutcomeOf(s, 1) == Settled(Failed(second))
    ensures OutcomeOf(Run(m, Start<T, E>(), [Error(first), Throw(second)]), 0) == Settled(Failed(second))
  {
    var start := Start<T, E>();
    RunTwo(m, start, Error(first), Next);
    RunConcat(m, start, [Error(first), Next], [Throw(second), Next]);
    RunTwo(m, Run(m, start, [Error(first), Next]), Throw(second), Next);
    RunTwo(m, start, Error(first), Throw(second));
  }

  // ---------------------------------------------------------------- events

  // The events before the close.
  function Heard<T, E>(m: Marks<E>, actions: seq<Action<T, E>>): seq<T>
  {
    if actions == [] || Closing(m, actions[0]) then []
    else (if actions[0].Emit? then [actions[0].value] else []) + Heard(m, actions[1..])
  }

  function Events<T, E>(items: seq<Item<T, E>>): seq<T>
  {
    if items == [] then []
    else Events(items[..|items| - 1]) + if items[|items| - 1].Value? then [items[|items| - 1].value] else []
  }

  lemma EventsAppend<T, E>(items: seq<Item<T, E>>, item: Item<T, E>)
    ensures Events(items + [item]) == Events(items) + if item.Value? then [item.value] else []
  {
    assert (items + [item])[..|items|] == items;
  }

  lemma {:induction false} EventsDones<T, E>(items: seq<Item<T, E>>, n: nat)
    ensures Events(items + Dones(n)) == Events(items)
  {
    if n == 0 {
      assert items + Dones(0) == items;
    } else {
      EventsDones(items, n - 1);
      assert items + Dones(n) == (items + Dones(n - 1)) + [Done];
      EventsAppend(items + Dones(n - 1), Done);
    }
  }

  lemma EventsLate<T, E>(s: Stream<T, E>, e: E)
    ensures Events(LateThrow(s, e).items) == Events(s.items)
  {
    var n := |s.items|;
    if s.asked < n && s.items[n - 1].Failed? {
      EventsAppend(s.items[..n - 1], Failed(e));
    } else {
      var k := if s.asked > n then s.asked - n else 0;
      EventsDones(s.items, k);
      EventsAppend(s.items + Dones(k), Failed(e));
    }
  }

  lemma EventsOfStep<T, E>(m: Marks<E>, s: Stream<T, E>, a: Action<T, E>)
    ensures var t := Step(m, s, a);
            && t.closed == (s.closed || Closing(m, a))
            && Events(t.items) == Events(s.items) + if a.Emit? && !s.closed then [a.value] else []
  {
    hide LateThrow, Size, Events;
    match a
    case Emit(v) => EventsAppend(s.items, Value(v));
    case Error(e) => EventsAppend(s.items, Failed(e));
    case Throw(e) => EventsAppend(s.items, Failed(e)); EventsLate(s, e);
    case Close =>
    case Next =>
  }

  lemma {:induction false} EventsOfRun<T, E>(m: Marks<E>, s: Stream<T, E>, actions: seq<Action<T, E>>)
    ensures Events(Run(m, s, actions).items) == Events(s.items) + if s.closed then [] else Heard(m, actions)
    decreases |actions|
  {
    hide Step, Events;
    if actions != [] {
      EventsOfStep(m, s, actions[0]);
      EventsOfRun(m, Step(m, s, actions[0]), actions[1..]);
    }
  }

  lemma {:induction false} EventsSplit<T, E>(items: seq<Item<T, E>>, k: nat)
    requires k <= |items|
    ensures Events(items) == Events(items[..k]) + Events(items[k..])
  {
    var n := |items|;
    if k == n {
      assert items[..k] == items;
    } else {
      EventsSplit(items[..n - 1], k);
      assert items[..n - 1][..k] == items[..k];
      assert items[k..][..n - k - 1] == items[..n - 1][k..];
    }
  }

  // On every run, late throws included: events read, then events unread, are the
  // events emitted before the close.
  lemma NoneLost<T, E>(m: Marks<E>, actions: seq<Action<T, E>>)
    ensures var s := Run(m, Start(), actions);
            var read := if s.asked < |s.items| then s.asked else |s.items|;
            Events(s.items[..read]) + Events(Unread(s)) == Heard(m, actions)
  {
    var s := Run(m, Start<T, E>(), actions);
    EventsOfRun(m, Start<T, E>(), actions);
    var read := if s.asked < |s.items| then s.asked else |s.items|;
    EventsSplit(s.items, read);
    assert Unread(s) == s.items[read..];
  }

  // ---------------------------------------------------------------- settled promises

  lemma {:induction false} SettledStays<T, E>(m: Marks<E>, s: Stream<T, E>, actions: seq<Action<T, E>>, i: nat)
    requires i < s.asked && OutcomeOf(s, i) != Pending
    ensures OutcomeOf(Run(m, s, actions), i) == OutcomeOf(s, i)
    decreases |actions|
  {
    if actions != [] {
      SettledStays(m, Step(m, s, actions[0]), actions[1..], i);
    }
  }

  // ---------------------------------------------------------------- flow control

  // The promise of the high watermark: a stream that is not paused holds no more.
  predicate Bounded<T, E>(m: Marks<E>, s: Stream<T, E>) { !s.paused ==> Size(s) <= m.high }

  // An open stream holds events only.
  predicate Plain<T, E>(s: Stream<T, E>) { !s.closed ==> !EndsFailed(s.items) }

  lemma SizeNext<T, E>(s: Stream<T, E>)
    ensures Size(s.(asked := s.asked + 1)) == if Size(s) > 0 then Size(s) - 1 else 0
  {
    var u, t := Unread(s), s.(asked := s.asked + 1);
    if u != [] {
      assert Unread(t) == u[1..];
    }
  }

  // An error is no event.
  lemma SizeFailed<T, E>(s: Stream<T, E>, e: E)
    requires !EndsFailed(s.items)
    ensures Size(s.(items := s.items + [Failed(e)])) == Size(s)
  {
    var u, t := Unread(s), s.(items := s.items + [Failed(e)]);
    if s.asked <= |s.items| {
      assert Unread(t) == u + [Failed(e)];
      assert u != [] ==> u[|u| - 1] == s.items[|s.items| - 1];
    }
  }

  lemma SizeLate<T, E>(s: Stream<T, E>, e: E)
    ensures Size(LateThrow(s, e)) == Size(s)
  {
    var n := |s.items|;
    var u, t := Unread(s), LateThrow(s, e);
    if s.asked >= n {
      assert u == [];
      assert Unread(t) == [Failed(e)];
    } else if s.items[n - 1].Failed? {
      assert u[|u| - 1] == s.items[n - 1];
      assert Unread(t) == u[..|u| - 1] + [Failed(e)];
    } else {
      assert Dones<T, E>(0) == [];
      assert s.items + Dones<T, E>(0) == s.items;
      SizeFailed(s, e);
    }
  }

  lemma SizePaused<T, E>(s: Stream<T, E>, closed: bool, paused: bool)
    ensures Size(s.(paused := paused, closed := closed)) == Size(s)
  { }

  lemma BoundedStep<T, E>(m: Marks<E>, s: Stream<T, E>, a: Action<T, E>)
    requires m.low <= m.high + 1 && Plain(s) && Bounded(m, s)
    ensures Plain(Step(m, s, a)) && Bounded(m, Step(m, s, a))
  {
    hide Size, LateThrow;
    var t := Step(m, s, a);
    match a
    case Emit(v) => SizePaused(s.(items := s.items + [Value(v)]), s.closed, t.paused);
    case Error(e) => SizePaused(s, true, s.paused); if !s.closed { SizeFailed(s, e); SizePaused(s.(items := s.items + [Failed(e)]), true, s.paused); }
    case Throw(e) =>
      if s.closed { SizeLate(s, e); } else { SizeFailed(s, e); SizePaused(s.(items := s.items + [Failed(e)]), true, s.paused); }
    case Close => SizePaused(s, true, s.paused);
    case Next => SizeNext(s); SizePaused(s.(asked := s.asked + 1), s.closed, t.paused);
  }

  lemma {:induction false} BoundedRun<T, E>(m: Marks<E>, s: Stream<T, E>, actions: seq<Action<T, E>>)
    requires m.low <= m.high + 1 && Plain(s) && Bounded(m, s)
    ensures Bounded(m, Run(m, s, actions))
    decreases |actions|
  {
    hide Step, Plain, Bounded;
    if actions != [] {
      BoundedStep(m, s, actions[0]);
      BoundedRun(m, Step(m, s, actions[0]), actions[1..]);
    }
  }

  // n events with no reader.
  function Burst<T, E>(v: T, n: nat): seq<Action<T, E>> { seq(n, i => Emit(v)) }

  lemma {:induction false} BurstRun<T, E>(m: Marks<E>, s: Stream<T, E>, v: T, n: nat, tail: seq<Action<T, E>>)
    requires s.asked == 0 && !s.closed && forall i :: 0 <= i < |s.items| ==> s.items[i].Value?
    requires s.paused == (|s.items| > m.high)
    ensures var items := s.items + seq(n, i => Value(v));
            Run(m, s, Burst<T, E>(v, n) + tail) == Run(m, Stream(items, false, 0, |items| > m.high), tail)
    decreases n
  {
    var items := s.items + seq(n, i => Value(v));
    if n == 0 {
      assert Burst<T, E>(v, 0) + tail == tail;
      assert items == s.items;
    } else {
      var all := Burst<T, E>(v, n) + tail;
      assert all[0] == Emit(v) && all[1..] == Burst<T, E>(v, n - 1) + tail;
      var t := Step(m, s, Emit(v));
      assert t.items == s.items + [Value(v)];
      BurstRun(m, t, v, n - 1, tail);
      assert t.items + seq(n - 1, i => Value(v)) == items;
    }
  }

  // A read of a full queue.
  lemma ReadFull<T, E>(m: Marks<E>, s: Stream<T, E>)
    requires m.low > m.high + 1 && s.asked == 0 && |s.items| == m.high + 2 && forall i :: 0 <= i < |s.items| ==> s.items[i].Value?
    ensures !Bounded(m, Step(m, s, Next))
  {
    assert Unread(s) == s.items;
    SizeNext(s);
  }

  // With a low watermark more than one above the high one, a read resumes a stream
  // that is still above the high watermark.
  lemma Overfull<T, E>(m: Marks<E>, v: T)
    requires m.low > m.high + 1
    ensures !Bounded(m, Run(m, Start(), Burst<T, E>(v, m.high + 2) + [Next]))
  {
    hide Step, Bounded;
    var n := m.high + 2;
    BurstRun<T, E>(m, Start(), v, n, [Next]);
    var items: seq<Item<T, E>> := [] + seq(n, i => Value(v));
    var s := Stream(items, false, 0, true);
    var read: seq<Action<T, E>> := [Next];
    RunFirst(m, s, Next, []);
    assert [Next] + [] == read;
    assert Run(m, Step(m, s, Next), []) == Step(m, s, Next);
    ReadFull(m, s);
  }

  // The bound holds on every run exactly when low is at most one above high.
  lemma WatermarkExact<T, E>(m: Marks<E>, v: T)
    ensures (forall actions: seq<Action<T, E>> :: Bounded(m, Run(m, Start(), actions))) <==> m.low <= m.high + 1
  {
    if m.low <= m.high + 1 {
      forall actions: seq<Action<T, E>> ensures Bounded(m, Run(m, Start(), actions)) {
        BoundedRun<T, E>(m, Start(), actions);
      }
    } else {
      Overfull<T, E>(m, v);
    }
  }

  // ---------------------------------------------------------------- pausing

  // An emission that nobody waits for makes the queue longer by one.
  lemma EmitSize<T, E>(m: Marks<E>, s: Stream<T, E>, v: T)
    requires Plain(s) && !s.closed
    ensures Size(Step(m, s, Emit(v))) == if s.asked <= |s.items| then Size(s) + 1 else 0
  {
    var t := Step(m, s, Emit(v));
    if s.asked <= |s.items| {
      assert Unread(t) == Unread(s) + [Value(v)];
      var u := Unread(s);
      assert u != [] ==> u[|u| - 1] == s.items[|s.items| - 1];
    }
  }

  // The emitter is paused at exactly the emissions that take the queue above the high
  // watermark, and resumed at exactly the reads that take it below the low one.
  lemma PauseExact<T, E>(m: Marks<E>, s: Stream<T, E>, a: Action<T, E>)
    requires Plain(s)
    ensures var t := Step(m, s, a);
            && (!s.paused ==> (t.paused <==> a.Emit? && !s.closed && s.asked <= |s.items| && Size(s) + 1 > m.high))
            && (s.paused ==> (!t.paused <==> a.Next? && Size(s) > 0 && Size(s) - 1 < m.low))
  {
    hide Size, LateThrow;
    var t := Step(m, s, a);
    match a
    case Emit(v) =>
      if !s.closed {
        EmitSize(m, s, v);
        SizePaused(s.(items := s.items + [Value(v)]), s.closed, t.paused);
      }
    case Next => SizeNext(s);
    case Error(e) =>
    case Throw(e) =>
    case Close =>
  }

  // So it is on every run.
  lemma {:induction false} PlainRun<T, E>(m: Marks<E>, actions: seq<Action<T, E>>, s: Stream<T, E>)
    requires Plain(s)
    ensures Plain(Run(m, s, actions))
    decreases |actions|
  {
    hide Size;
    if actions != [] { PlainRun(m, actions[1..], Step(m, s, actions[0])); }
  }

  lemma PauseOnRuns<T, E>(m: Marks<E>, actions: seq<Action<T, E>>, a: Action<T, E>)
    ensures var s := Run(m, Start<T, E>(), actions);
            var t := Step(m, s, a);
            && (!s.paused ==> (t.paused <==> a.Emit? && !s.closed && s.asked <= |s.items| && Size(s) + 1 > m.high))
            && (s.paused ==> (!t.paused <==> a.Next? && Size(s) > 0 && Size(s) - 1 < m.low))
  {
    hide Size;
    PlainRun(m, actions, Start<T, E>());
    PauseExact(m, Run(m, Start<T, E>(), actions), a);
  }
}
