/**
 The async iterator of `events.on`: a queue of unread events, a queue of waiting
 promises, and the variables `error`, `finished`, `size` and `paused`.
 */
module EventIterator {
  import opened Texts
  import opened IteratorSpec

  function Values<T, E>(events: seq<T>): seq<Item<T, E>>
  {
    seq(|events|, i requires 0 <= i < |events| => Value(events[i]))
  }

  // The error a reader will be told of.
  function Errors<T, E>(m: Marks<E>, error: Option<E>): seq<Item<T, E>>
  {
    if Told(m, error) then [Failed(error.value)] else []
  }

  predicate Told<E>(m: Marks<E>, error: Option<E>) { error.Some? && m.truthy(error.value) }

  // The reads still waiting for an item.
  function Waiting<T, E>(s: Stream<T, E>): seq<nat>
  {
    if s.closed || s.asked <= |s.items| then [] else seq(s.asked - |s.items|, i requires 0 <= i => |s.items| + i)
  }

  // The queues, the error and the promises together hold the stream.
  ghost predicate Represents<T, E>(m: Marks<E>, s: Stream<T, E>, events: seq<T>, waiting: seq<nat>, error: Option<E>, promises: seq<Outcome<T, E>>)
  {
    && Unread(s) == Values<T, E>(events) + Errors<T, E>(m, error)
    && waiting == Waiting(s)
    && |promises| == s.asked
    && forall i :: 0 <= i < |promises| ==> promises[i] == OutcomeOf(s, i)
  }

  // The events queue holds the unread events, and one of the two queues is empty.
  lemma QueueSize<T, E>(m: Marks<E>, s: Stream<T, E>, events: seq<T>, waiting: seq<nat>, error: Option<E>, promises: seq<Outcome<T, E>>)
    requires Represents(m, s, events, waiting, error, promises)
    ensures Size(s) == |events|
    ensures events == [] || waiting == []
    ensures waiting != [] ==> events == [] && !Told(m, error)
  {
    var u := Unread(s);
    assert |u| == |events| + |Errors<T, E>(m, error)|;
    if !Told(m, error) && events != [] {
      assert u[|u| - 1] == Values<T, E>(events)[|events| - 1];
    }
  }

  // Flow control does not touch the queues.
  lemma Repaused<T, E>(m: Marks<E>, s: Stream<T, E>, paused: bool, events: seq<T>, waiting: seq<nat>, error: Option<E>, promises: seq<Outcome<T, E>>)
    requires Represents(m, s, events, waiting, error, promises)
    ensures var t := s.(paused := paused);
            Represents(m, t, events, waiting, error, promises) && Size(t) == Size(s) == |events|
  {
    QueueSize(m, s, events, waiting, error, promises);
    QueueSize(m, s.(paused := paused), events, waiting, error, promises);
  }

  lemma ItemQueued<T, E>(m: Marks<E>, s: Stream<T, E>, item: Item<T, E>, events: seq<T>, promises: seq<Outcome<T, E>>)
    requires Represents(m, s, events, [], None, promises) && !s.closed && (item.Failed? ==> m.truthy(item.error))
    ensures var t := s.(items := s.items + [item]);
            && (item.Value? ==> Represents(m, t, events + [item.value], [], None, promises))
            && (item.Failed? ==> Represents(m, t, events, [], Some(item.error), promises))
  {
    var t := s.(items := s.items + [item]);
    assert |Waiting(s)| == if s.asked <= |s.items| then 0 else s.asked - |s.items|;
    assert Unread(t) == Unread(s) + [item];
    if item.Value? {
      assert Values<T, E>(events + [item.value]) == Values<T, E>(events) + [item];
    }
  }

  // The first waiting promise gets the next item.
  lemma ItemTaken<T, E>(m: Marks<E>, s: Stream<T, E>, item: Item<T, E>, events: seq<T>, waiting: seq<nat>, error: Option<E>, promises: seq<Outcome<T, E>>)
    requires Represents(m, s, events, waiting, error, promises) && waiting != []
    ensures waiting[0] < |promises| && promises[waiting[0]] == Pending && !s.closed
    ensures Represents(m, s.(items := s.items + [item]), events, waiting[1..], error, promises[waiting[0] := Settled(item)])
  {
    var t := s.(items := s.items + [item]);
    assert waiting[0] == |s.items|;
    assert Unread(t) == Unread(s) == [];
    assert Waiting(t) == waiting[1..];
  }

  lemma LateError<T, E>(m: Marks<E>, s: Stream<T, E>, e: E, events: seq<T>, error: Option<E>, promises: seq<Outcome<T, E>>)
    requires Represents(m, s, events, [], error, promises) && s.closed && m.truthy(e)
    ensures Represents(m, LateThrow(s, e), events, [], Some(e), promises)
  {
    var u := Unread(s);
    var t := LateThrow(s, e);
    var n := |s.items|;
    QueueSize(m, s, events, [], error, promises);
    if s.asked < n {
      assert u[|u| - 1] == s.items[n - 1];
      if !Told(m, error) {
        assert Unread(t) == u + [Failed(e)];
      } else {
        assert Unread(t) == u[..|u| - 1] + [Failed(e)];
      }
    } else {
      assert Unread(t) == [Failed(e)];
    }
  }

  lemma NextEvent<T, E>(m: Marks<E>, s: Stream<T, E>, events: seq<T>, waiting: seq<nat>, error: Option<E>, promises: seq<Outcome<T, E>>)
    requires Represents(m, s, events, waiting, error, promises) && events != []
    ensures Represents(m, s.(asked := s.asked + 1), events[1..], waiting, error, promises + [Settled(Value(events[0]))])
  {
    var t := s.(asked := s.asked + 1);
    var u := Unread(s);
    assert u[0] == s.items[s.asked];
    assert u[0] == Values<T, E>(events)[0];
    assert Unread(t) == u[1..];
    assert u[1..] == Values<T, E>(events)[1..] + Errors<T, E>(m, error);
    assert Values<T, E>(events)[1..] == Values<T, E>(events[1..]);
  }

  lemma NextError<T, E>(m: Marks<E>, s: Stream<T, E>, waiting: seq<nat>, e: E, promises: seq<Outcome<T, E>>)
    requires Represents(m, s, [], waiting, Some(e), promises) && m.truthy(e)
    ensures Represents(m, s.(asked := s.asked + 1), [], waiting, None, promises + [Settled(Failed(e))])
  {
    var u := Unread(s);
    assert u == [Failed(e)];
    assert u[0] == s.items[s.asked];
  }

  lemma NextNothing<T, E>(m: Marks<E>, s: Stream<T, E>, waiting: seq<nat>, error: Option<E>, promises: seq<Outcome<T, E>>)
    requires Represents(m, s, [], waiting, error, promises) && !Told(m, error)
    ensures var t := s.(asked := s.asked + 1);
            if s.closed then Represents(m, t, [], waiting, error, promises + [Settled(Done)])
            else Represents(m, t, [], waiting + [|promises|], error, promises + [Pending])
  {
    assert |Unread(s)| == 0;
    assert s.asked >= |s.items|;
    var t := s.(asked := s.asked + 1);
    if !s.closed {
      assert Waiting(t) == Waiting(s) + [s.asked];
    }
  }

  // Nobody will be told of a falsy error that was stored.
  lemma FalsyStored<T, E>(m: Marks<E>, s: Stream<T, E>, e: E, events: seq<T>, waiting: seq<nat>, promises: seq<Outcome<T, E>>)
    requires Represents(m, s, events, waiting, None, promises) && !m.truthy(e)
    ensures Represents(m, s, events, waiting, Some(e), promises)
  { }

  lemma SomeoneWaits<T, E>(m: Marks<E>, s: Stream<T, E>, events: seq<T>, waiting: seq<nat>, error: Option<E>, promises: seq<Outcome<T, E>>)
    requires Represents(m, s, events, waiting, error, promises) && !s.closed
    ensures waiting != [] <==> s.asked > |s.items|
  {
    assert s.asked > |s.items| ==> |Waiting(s)| > 0;
  }

  // Promise i is the result of the i-th call of `next`.
  class Iterator<T, E> {
    const marks: Marks<E>
    var unconsumedEvents: seq<T>
    var unconsumedPromises: seq<nat>
    var paused: bool
    var error: Option<E>
    var finished: bool
    var size: nat
    var promises: seq<Outcome<T, E>>
    var listening: bool

    ghost var stream: Stream<T, E>

    ghost predicate Valid()
      reads this
    {
      && Represents(marks, stream, unconsumedEvents, unconsumedPromises, error, promises)
      && size == |unconsumedEvents|
      && (error.Some? ==> finished)
      && finished == stream.closed && listening == !finished
      && paused == stream.paused
    }

    constructor (marks: Marks<E>)
      requires ValidMarks(marks)
      ensures Valid() && stream == Start() && this.marks == marks
    {
      this.marks := marks;
      unconsumedEvents, unconsumedPromises, promises := [], [], [];
      paused, error, finished, size, listening := false, None, false, 0, true;
      stream := Start();
    }

    // A waiting promise is settled; no promise is settled twice.
    method Settle(item: Item<T, E>) returns (p: nat)
      requires |unconsumedPromises| > 0
      requires unconsumedPromises[0] < |promises| && promises[unconsumedPromises[0]] == Pending
      modifies this`unconsumedPromises, this`promises
      ensures p == old(unconsumedPromises[0])
      ensures unconsumedPromises == old(unconsumedPromises[1..])
      ensures promises == old(promises)[p := Settled(item)]
    {
      p := unconsumedPromises[0];
      unconsumedPromises := unconsumedPromises[1..];
      promises := promises[p := Settled(item)];
    }

    // `eventHandler`, called for as long as the iterator listens.
    method EventHandler(value: T)
      requires Valid()
      modifies this
      ensures Valid() && stream == Step(marks, old(stream), Emit(value))
    {
      hide Represents, Size, LateThrow;
      if listening {
        ghost var was := stream;
        ghost var t := was.(items := was.items + [Value(value)]);
        if unconsumedPromises == [] {
          ItemQueued(marks, was, Value(value), unconsumedEvents, promises);
          size := size + 1;
          if !paused && size > marks.high {
            paused := true;
          }
          unconsumedEvents := unconsumedEvents + [value];
        } else {
          ItemTaken(marks, was, Value(value), unconsumedEvents, unconsumedPromises, error, promises);
          QueueSize(marks, was, unconsumedEvents, unconsumedPromises, error, promises);
          var p := Settle(Value(value));
        }
        Repaused(marks, t, paused, unconsumedEvents, unconsumedPromises, error, promises);
        stream := t.(paused := paused);
      }
    }

    // The waiting promises are told that there is no more.
    method ResolveDone(ghost was: Stream<T, E>)
      requires unconsumedPromises == Waiting(was) && |promises| == was.asked
      requires forall i :: 0 <= i < |promises| ==> promises[i] == OutcomeOf(was, i)
      modifies this`unconsumedPromises, this`promises
      ensures unconsumedPromises == [] && |promises| == was.asked
      ensures forall i :: 0 <= i < |promises| ==> promises[i] == OutcomeOf(was.(closed := true), i)
      ensures was.closed ==> promises == old(promises)
    {
      ghost var k := 0;
      while unconsumedPromises != []
        invariant k <= |Waiting(was)| && unconsumedPromises == Waiting(was)[k..]
        invariant |promises| == was.asked
        invariant was.closed ==> promises == old(promises)
        invariant forall i :: 0 <= i < |promises| ==>
          promises[i] == if i < |was.items| + k then OutcomeOf(was.(closed := true), i) else OutcomeOf(was, i)
        decreases |unconsumedPromises|
      {
        var p := Settle(Done);
        k := k + 1;
      }
    }

    // `closeHandler`.
    method CloseHandler()
      requires Represents(marks, stream, unconsumedEvents, unconsumedPromises, error, promises)
      requires size == |unconsumedEvents| && paused == stream.paused
      modifies this
      ensures Valid() && stream == Step(marks, old(stream), Close)
      ensures old(stream.closed) ==> promises == old(promises)
      ensures unconsumedPromises == []
      ensures unconsumedEvents == old(unconsumedEvents) && error == old(error)
    {
      hide Values, Errors, OutcomeOf, Size;
      finished, listening := true, false;
      ResolveDone(stream);
      stream := stream.(closed := true);
    }

    // `errorHandler`, which `throw` calls at any time, with an error.
    method ErrorHandler(err: E)
      requires Valid() && (finished ==> marks.truthy(err))
      modifies this
      ensures Valid() && stream == if old(stream.closed) then LateThrow(old(stream), err) else Fail(marks, old(stream), err)
    {
      hide Represents, Size, LateThrow;
      ghost var was := stream;
      ghost var failed := if finished then LateThrow(was, err) else Fail(marks, was, err).(closed := false);
      if !finished {
        SomeoneWaits(marks, was, unconsumedEvents, unconsumedPromises, error, promises);
      }
      if unconsumedPromises == [] {
        if finished {
          LateError(marks, was, err, unconsumedEvents, error, promises);
        } else if marks.truthy(err) {
          ItemQueued(marks, was, Failed(err), unconsumedEvents, promises);
        } else {
          FalsyStored(marks, was, err, unconsumedEvents, unconsumedPromises, promises);
        }
        error := Some(err);
      } else {
        ItemTaken(marks, was, Failed(err), unconsumedEvents, unconsumedPromises, error, promises);
        var p := Settle(Failed(err));
      }
      stream := failed;
      CloseHandler();
    }

    // `throw`.
    method Throw(err: E)
      requires Valid()
      modifies this
      ensures Valid() && stream == Step(marks, old(stream), Action.Throw(err))
    {
      if !marks.truthy(err) || !marks.isError(err) {
        return;
      }
      ErrorHandler(err);
    }

    // `next`: unread events first, then the error, then the end; otherwise wait.
    method Next() returns (p: nat)
      requires Valid()
      modifies this
      ensures Valid() && stream == Step(marks, old(stream), Action.Next)
      ensures p == old(|promises|) == |promises| - 1
    {
      hide Represents, Size, LateThrow, Fail, Unread, Waiting, OutcomeOf;
      ghost var was := stream;
      ghost var t := was.(asked := was.asked + 1);
      QueueSize(marks, was, unconsumedEvents, unconsumedPromises, error, promises);
      p := |promises|;
      if size != 0 {
        NextEvent(marks, was, unconsumedEvents, unconsumedPromises, error, promises);
        var value := unconsumedEvents[0];
        unconsumedEvents := unconsumedEvents[1..];
        size := size - 1;
        if paused && size < marks.low {
          paused := false;
        }
        promises := promises + [Settled(Value(value))];
      } else if Told(marks, error) {
        NextError(marks, was, unconsumedPromises, error.value, promises);
        promises := promises + [Settled(Failed(error.value))];
        error := None;
      } else if finished {
        CloseHandler();
        NextNothing(marks, was, unconsumedPromises, error, promises);
        promises := promises + [Settled(Done)];
      } else {
        NextNothing(marks, was, unconsumedPromises, error, promises);
        promises := promises + [Pending];
        unconsumedPromises := unconsumedPromises + [p];
      }
      Repaused(marks, t, paused, unconsumedEvents, unconsumedPromises, error, promises);
      stream := t.(paused := paused);
    }

    // What the emitter, the signal and the reader may do.
    method Perform(action: Action<T, E>)
      requires Valid()
      modifies this
      ensures Valid() && stream == Step(marks, old(stream), action)
    {
      match action
      case Emit(v) => EventHandler(v);
      case Error(e) => if listening { ErrorHandler(e); }
      case Throw(e) => Throw(e);
      case Close => CloseHandler();
      case Next => var p := Next();
    }

    // Every run of the queues is a run of the stream.
    method Execute(actions: seq<Action<T, E>>)
      requires Valid()
      modifies this
      ensures Valid() && stream == Run(marks, old(stream), actions)
    {
      hide Represents, Step;
      var i := 0;
      assert actions[0..] == actions;
      while i < |actions|
        invariant i <= |actions| && Valid()
        invariant Run(marks, stream, actions[i..]) == Run(marks, old(stream), actions)
      {
        assert actions[i..][1..] == actions[i + 1..];
        Perform(actions[i]);
        i := i + 1;
      }
    }
  }
}
