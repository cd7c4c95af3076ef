/**
 Connecting to several addresses, one attempt at a time: `internalConnectMultiple`,
 `afterConnectMultiple` and `internalConnectMultipleTimeout`.
 */
module Connect {
  import opened Texts
  import opened ConnectSpec

  // ---------------------------------------------------------------- the connect context

  class Context {
    const count: nat  // number of addresses
    const answer: nat -> Answer

    var current: nat
    var errors: seq<Failure>
    var timer: Option<nat>
    var connecting: bool
    var aborted: bool
    var verdict: Verdict
    var attempted: seq<nat>
    var live: set<nat>  // requests whose completion is still listened to

    ghost var fates: seq<Fate>

    // The attempts and their errors agree; at most the newest request is live.
    ghost predicate Recorded()
      reads this
    {
      && count >= 2 && |fates| <= count
      && Plausible(count, answer, fates)
      && errors == Failures(fates)
      && attempted == Attempted(answer, current)
      && connecting == verdict.Open?
      && !verdict.NoErrors?
    }

    // No request is live.
    ghost predicate Idle()
      reads this
    {
      Recorded() && current == |fates| && live == {} && timer == None
    }

    // The newest request is live, with a timer unless it is the last.
    ghost predicate Busy()
      reads this
    {
      && Recorded() && current == |fates| + 1 <= count && live == {current - 1}
      && answer(current - 1) == Started
      && timer == (if current < count then Some(current - 1) else None)
      && Unfinished(fates)
    }

    // The machine's view of the context.
    ghost function Model(): State
      reads this
    {
      State(fates, live != {}, verdict, aborted)
    }

    // Between two events.
    ghost predicate Valid()
      reads this
    {
      (Idle() || Busy()) && Sound(count, answer, Model())
    }

    constructor (count: nat, answer: nat -> Answer)
      requires count >= 2
      ensures Idle() && Model() == State([], false, Open, false)
      ensures this.count == count && this.answer == answer
    {
      this.count, this.answer := count, answer;
      current, errors, timer, live, attempted := 0, [], None, {}, [];
      connecting, aborted, verdict, fates := true, false, Open, [];
    }

    // An attempt failed: its error is recorded.
    method Record(i: nat, cause: Cause)
      requires Recorded() && i == |fates| == current - 1 < count
      requires Unfinished(fates) && Fitting(count, answer(i), i, Failed(cause))
      modifies this`errors, this`fates
      ensures Recorded() && fates == old(fates) + [Failed(cause)]
    {
      hide Plausible, Failures, Fitting;
      FailuresNext(fates, Failed(cause));
      PlausibleNext(count, answer, fates, Failed(cause));
      errors := errors + [Failure(i, cause)];
      fates := fates + [Failed(cause)];
    }

    // One attempt: it fails at once or leaves a live request.
    method Attempt() returns (started: bool)
      requires Idle() && Unfinished(fates) && current < count
      modifies this`current, this`attempted, this`live, this`timer, this`errors, this`fates
      ensures started == answer(old(current)).Started?
      ensures if started then Busy() && fates == old(fates)
              else Idle() && Unfinished(fates) && fates == old(fates) + [Failed(AtOnce(answer(old(current))))]
    {
      hide Plausible, Failures;
      var i := current;
      current := current + 1;
      started := false;
      match answer(i)
      case BindError =>
        Record(i, Bind);
      case Blocked =>
        Record(i, Block);
      case ConnectError =>
        attempted := attempted + [i];
        Record(i, Immediate);
      case Started =>
        attempted := attempted + [i];
        live := live + {i};
        if i < count - 1 {
          timer := Some(i);
        }
        started := true;
    }

    // `internalConnectMultiple`.
    method ConnectMultiple(canceled: bool)
      requires Idle() && verdict.Open?
      requires if canceled then |fates| > 0 && fates[|fates| - 1] == Failed(Cancelled) else Unfinished(fates)
      modifies this
      ensures Valid() && Model() == Resume(count, answer, old(Model()), canceled)
      decreases count - current
    {
      hide Plausible, Failures, Attempted, Sound;
      ResumeSound(count, answer, Model(), canceled);
      timer := None;
      FailuresPresent(fates);
      if aborted {
        return;
      }
      if canceled || current == count {
        verdict, connecting := if |errors| == 0 then NoErrors else AllFailed(errors), false;
        return;
      }
      assert connecting;
      var started := Attempt();
      if !started {
        ConnectMultiple(false);
      }
    }

    // The live request failed: its error is recorded and the next address tried, unless the
    // socket is no longer connecting.
    method Failing(i: nat, cause: Cause)
      requires Recorded() && connecting == verdict.Open? && i == |fates| == current - 1 < count && live == {} && timer == None
      requires Unfinished(fates) && answer(i) == Started
      requires cause == Refused || cause == Cancelled || (cause == Cause.TimedOut && i + 1 < count)
      requires Sound(count, answer, Model().(live := true))
      modifies this
      ensures Valid() && Model() == Fail(count, answer, old(Model().(live := true)), cause)
    {
      hide Plausible, Failures, Attempted, Sound, Resume;
      FailSound(count, answer, Model().(live := true), cause);
      Record(i, cause);
      if connecting {
        ConnectMultiple(cause == Cancelled);
      }
    }

    // `afterConnectMultiple` for a live request. A request that is not the newest is never
    // live, so a success is never ignored for being late.
    method Completed(i: nat, status: Status)
      requires Valid() && i in live
      modifies this
      ensures Valid() && Model() == ConnectSpec.Step(count, answer, old(Model()), Event.Completed(i, status))
    {
      hide Plausible, Failures, Attempted, Sound, Resume, Fail;
      StepSound(count, answer, Model(), Event.Completed(i, status));
      LiveVerdict(count, answer, Model());
      timer, live := None, live - {i};
      if status.Ok? {
        if i == current - 1 {
          Success();
        }
      } else {
        Failing(i, if status.Cancel? then Cancelled else Refused);
      }
    }

    // `afterConnect` with status 0; the callback may come after the socket was destroyed.
    method Success()
      requires Recorded() && |fates| == current - 1 < count && live == {} && timer == None
      requires Unfinished(fates) && answer(|fates|) == Started && (verdict.Open? || verdict.Destroyed?)
      modifies this`connecting, this`verdict, this`fates
      ensures Idle() && Model() == Succeed(old(Model()))
    {
      hide Plausible, Failures;
      FailuresNext(fates, Succeeded);
      PlausibleNext(count, answer, fates, Succeeded);
      if verdict.Destroyed? {
        fates := fates + [Succeeded];
        return;
      }
      assert connecting;
      connecting, verdict := false, Connected(current - 1);
      fates := fates + [Succeeded];
    }

    // `internalConnectMultipleTimeout`: the request is closed and no longer heard.
    method TimedOut()
      requires Valid() && timer.Some?
      modifies this
      ensures Valid() && Model() == ConnectSpec.Step(count, answer, old(Model()), Timeout)
    {
      hide Plausible, Failures, Attempted, Sound, Resume, Fail;
      var i := timer.value;
      timer, live := None, live - {i};
      Failing(i, Cause.TimedOut);
    }

    // Someone else destroys the socket; the attempt's timer stays armed.
    method Destroy()
      requires Valid()
      modifies this
      ensures Valid() && Model() == ConnectSpec.Step(count, answer, old(Model()), Event.Destroy)
    {
      hide Plausible, Failures, Attempted, Sound;
      StepSound(count, answer, Model(), Event.Destroy);
      if verdict.Open? {
        connecting, verdict := false, Destroyed;
      }
    }

    // Every event takes the machine one step.
    method Step(event: Event)
      requires Valid()
      modifies this
      ensures Valid() && Model() == ConnectSpec.Step(count, answer, old(Model()), event)
    {
      hide Plausible, Failures, Attempted, Sound, Resume, Fail;
      StepSound(count, answer, Model(), event);
      match event
      case Completed(i, status) => if i in live { Completed(i, status); }
      case Timeout => if timer.Some? { TimedOut(); }
      case Abort => aborted := true;
      case Destroy => Destroy();
    }

    // Every run is a run of the machine, and the errors and attempted addresses are those
    // of its attempts.
    method Execute(events: seq<Event>)
      requires Idle() && Model() == State([], false, Open, false)
      modifies this
      ensures Valid() && Model() == Run(count, answer, events)
      ensures errors == Failures(fates) && attempted == Attempted(answer, current) && current <= count
    {
      hide Plausible, Failures, Attempted, Sound, Resume, ConnectSpec.Step;
      ConnectMultiple(false);
      for k := 0 to |events|
        invariant Valid() && Model() == Run(count, answer, events[..k])
      {
        assert events[..k + 1][..k] == events[..k];
        Step(events[k]);
      }
      assert events[..|events|] == events;
    }
  }
}
