/**
 Connecting to several addresses as a machine over events: what happened to the attempts
 so far, whether a request is live, and the verdict on the socket.
 */
module ConnectSpec {

  // What the system answers when an attempt is made: only a started request goes on.
  datatype Answer = BindError | Blocked | ConnectError | Started

  datatype Cause = Bind | Block | Immediate | Refused | Cancelled | TimedOut

  datatype Fate = Failed(cause: Cause) | Succeeded

  // An entry of `errors`, with the attempt it is about.
  datatype Failure = Failure(attempt: nat, cause: Cause)

  datatype Verdict =
    | Open
    | Connected(attempt: nat)
    | AllFailed(errors: seq<Failure>)  // destroyed with the aggregate
    | NoErrors                         // destroyed with ERR_SOCKET_CONNECTION_TIMEOUT
    | Destroyed                        // by someone else

  datatype Status = Ok | Error | Cancel

  datatype Event = Completed(attempt: nat, status: Status) | Timeout | Abort | Destroy

  // ---------------------------------------------------------------- what happened to the attempts

  // One error for each failed attempt, in order.
  function Failures(fates: seq<Fate>): seq<Failure>
  {
    if fates == [] then []
    else
      var n := |fates| - 1;
      Failures(fates[..n]) + if fates[n].Failed? then [Failure(n, fates[n].cause)] else []
  }

  lemma FailuresNext(fates: seq<Fate>, fate: Fate)
    ensures Failures(fates + [fate]) == if fate.Failed? then Failures(fates) + [Failure(|fates|, fate.cause)] else Failures(fates)
  {
    assert (fates + [fate])[..|fates|] == fates;
  }

  // A failed attempt leaves an error.
  lemma FailuresPresent(fates: seq<Fate>)
    ensures |fates| > 0 && fates[|fates| - 1].Failed? ==> Failures(fates) != []
  { }

  lemma {:induction false} FailuresExact(fates: seq<Fate>, f: Failure)
    ensures f in Failures(fates) <==> f.attempt < |fates| && fates[f.attempt] == Failed(f.cause)
  {
    if fates != [] {
      FailuresExact(fates[..|fates| - 1], f);
    }
  }

  lemma {:induction false} FailuresOrdered(fates: seq<Fate>, i: nat, j: nat)
    requires i < j < |Failures(fates)|
    ensures Failures(fates)[i].attempt < Failures(fates)[j].attempt < |fates|
  {
    var n := |fates| - 1;
    var before := Failures(fates[..n]);
    if j < |before| {
      FailuresOrdered(fates[..n], i, j);
    } else {
      FailuresExact(fates[..n], before[i]);
      assert before[i] in before;
    }
  }

  // The verdict on n addresses after some attempts.
  function Judge(n: nat, fates: seq<Fate>): Verdict
  {
    var k := |fates|;
    if k > 0 && fates[k - 1].Succeeded? then Connected(k - 1)
    else if k == n || (k > 0 && fates[k - 1] == Failed(Cancelled)) then AllFailed(Failures(fates))
    else Open
  }

  // The fates a run may meet: a success or a cancellation is the last; requests that
  // did not start failed at once; the last address has no timer.
  ghost predicate Plausible(n: nat, answer: nat -> Answer, fates: seq<Fate>)
  {
    && |fates| <= n
    && (forall i :: 0 <= i < |fates| - 1 ==> fates[i].Failed? && fates[i].cause != Cancelled)
    && forall i :: 0 <= i < |fates| ==> Fitting(n, answer(i), i, fates[i])
  }

  lemma PlausibleNext(n: nat, answer: nat -> Answer, fates: seq<Fate>, fate: Fate)
    requires Plausible(n, answer, fates) && Unfinished(fates) && |fates| < n
    requires Fitting(n, answer(|fates|), |fates|, fate)
    ensures Plausible(n, answer, fates + [fate])
  {
    hide Fitting;
  }

  predicate Fitting(n: nat, answer: Answer, i: int, fate: Fate)
  {
    match answer
    case BindError => fate == Failed(Bind)
    case Blocked => fate == Failed(Block)
    case ConnectError => fate == Failed(Immediate)
    case Started => fate.Succeeded? || fate.cause == Refused || fate.cause == Cancelled || (fate.cause == TimedOut && i < n - 1)
  }

  // When every attempt so far failed, error i is about attempt i.
  lemma {:induction false} FailuresAligned(fates: seq<Fate>, i: nat)
    requires forall j :: 0 <= j < |fates| ==> fates[j].Failed?
    ensures |Failures(fates)| == |fates|
    ensures i < |fates| ==> Failures(fates)[i] == Failure(i, fates[i].cause)
  {
    if fates != [] { FailuresAligned(fates[..|fates| - 1], i); }
  }

  // A verdict accounts for every attempt: a connection is the last attempt after one
  // error for each earlier one; a failure carries one error for each attempt, and for
  // each address unless the last attempt was cancelled.
  lemma VerdictAccounts(n: nat, answer: nat -> Answer, fates: seq<Fate>)
    requires n >= 2 && Plausible(n, answer, fates)
    ensures match Judge(n, fates)
            case Connected(i) => i == |fates| - 1 && |Failures(fates)| == i && answer(i) == Started
            case AllFailed(errors) =>
              && |errors| == |fates| > 0
              && (fates[|fates| - 1] != Failed(Cancelled) ==> |errors| == n)
              && forall i :: 0 <= i < |errors| ==> errors[i] == Failure(i, fates[i].cause)
            case Open => |fates| < n && |Failures(fates)| == |fates|
            case NoErrors => false
            case Destroyed => false
  {
    hide Fitting, Failures;
    var k := |fates|;
    if k > 0 && fates[k - 1].Succeeded? {
      SuccessAccounts(n, answer, fates);
    } else {
      FailureAccounts(n, answer, fates);
    }
  }

  lemma SuccessAccounts(n: nat, answer: nat -> Answer, fates: seq<Fate>)
    requires Plausible(n, answer, fates) && |fates| > 0 && fates[|fates| - 1].Succeeded?
    ensures |Failures(fates)| == |fates| - 1 && answer(|fates| - 1) == Started
  {
    hide Fitting, Failures;
    var k := |fates|;
    var before := fates[..k - 1];
    assert before + [fates[k - 1]] == fates;
    FailuresNext(before, fates[k - 1]);
    FailuresAligned(before, 0);
    assert Fitting(n, answer(k - 1), k - 1, fates[k - 1]);
    OnlyStarted(n, answer(k - 1), k - 1);
  }

  lemma FailureAccounts(n: nat, answer: nat -> Answer, fates: seq<Fate>)
    requires Plausible(n, answer, fates) && (|fates| > 0 ==> fates[|fates| - 1].Failed?)
    ensures forall j :: 0 <= j < |fates| ==> fates[j].Failed?
    ensures |Failures(fates)| == |fates| && forall i :: 0 <= i < |fates| ==> Failures(fates)[i] == Failure(i, fates[i].cause)
  {
    hide Fitting, Failures;
    FailuresAligned(fates, 0);
    forall i: nat | i < |fates| ensures Failures(fates)[i] == Failure(i, fates[i].cause) {
      FailuresAligned(fates, i);
    }
  }

  lemma OnlyStarted(n: nat, answer: Answer, i: int)
    requires Fitting(n, answer, i, Succeeded)
    ensures answer == Started
  { }

  // The attempts that reached the system, as `autoSelectFamilyAttemptedAddresses` lists them.
  function Attempted(answer: nat -> Answer, k: nat): seq<nat>
  {
    if k == 0 then []
    else Attempted(answer, k - 1) + if answer(k - 1) == Started || answer(k - 1) == ConnectError then [k - 1] else []
  }

  lemma {:induction false} AttemptedOnce(answer: nat -> Answer, k: nat, i: nat, j: nat)
    requires i < j < |Attempted(answer, k)|
    ensures Attempted(answer, k)[i] < Attempted(answer, k)[j] < k
  {
    if j < |Attempted(answer, k - 1)| {
      AttemptedOnce(answer, k - 1, i, j);
    } else {
      AttemptedBelow(answer, k - 1, i);
    }
  }

  lemma {:induction false} AttemptedBelow(answer: nat -> Answer, k: nat, i: nat)
    requires i < |Attempted(answer, k)|
    ensures Attempted(answer, k)[i] < k
  {
    if i < |Attempted(answer, k - 1)| { AttemptedBelow(answer, k - 1, i); }
  }

  // Only attempts that a socket could not be bound for, or that were blocked, are missing.
  lemma {:induction false} AttemptedExactly(answer: nat -> Answer, k: nat, i: nat)
    ensures i in Attempted(answer, k) <==> i < k && answer(i) != BindError && answer(i) != Blocked
  {
    if k > 0 { AttemptedExactly(answer, k - 1, i); }
  }

  // Nothing ended the attempts yet.
  ghost predicate Unfinished(fates: seq<Fate>)
  {
    |fates| > 0 ==> fates[|fates| - 1].Failed? && fates[|fates| - 1].cause != Cancelled
  }

  // ---------------------------------------------------------------- the machine

  // A live request is that of the attempt after the fates.
  datatype State = State(fates: seq<Fate>, live: bool, verdict: Verdict, aborted: bool)

  // Why an attempt fails at once.
  function AtOnce(a: Answer): Cause
    requires !a.Started?
  {
    match a
    case BindError => Bind
    case Blocked => Block
    case ConnectError => Immediate
  }

  // The next attempts, until a request is live or nothing is left to try.
  function Resume(n: nat, answer: nat -> Answer, s: State, canceled: bool): State
    decreases n - |s.fates|
  {
    var k := |s.fates|;
    if s.aborted then s
    else if canceled || k >= n then s.(verdict := if Failures(s.fates) == [] then NoErrors else AllFailed(Failures(s.fates)))
    else if answer(k).Started? then s.(live := true)
    else Resume(n, answer, s.(fates := s.fates + [Failed(AtOnce(answer(k)))]), false)
  }

  // The live request fails.
  function Fail(n: nat, answer: nat -> Answer, s: State, cause: Cause): State
  {
    var t := s.(fates := s.fates + [Failed(cause)], live := false);
    if t.verdict.Open? then Resume(n, answer, t, cause == Cancelled) else t
  }

  // A success after someone destroyed the socket changes nothing but the request.
  function Succeed(s: State): State
  {
    s.(fates := s.fates + [Succeeded], live := false, verdict := if s.verdict.Open? then Connected(|s.fates|) else s.verdict)
  }

  // An event that cannot happen in the state does nothing.
  function Step(n: nat, answer: nat -> Answer, s: State, e: Event): State
  {
    match e
    case Completed(i, status) =>
      if !s.live || i != |s.fates| then s
      else if status.Ok? then Succeed(s)
      else Fail(n, answer, s, if status.Cancel? then Cancelled else Refused)
    case Timeout => if s.live && |s.fates| + 1 < n then Fail(n, answer, s, TimedOut) else s
    case Abort => s.(aborted := true)
    case Destroy => if s.verdict.Open? then s.(verdict := Destroyed) else s
  }

  function Begin(n: nat, answer: nat -> Answer): State { Resume(n, answer, State([], false, Open, false), false) }

  function Run(n: nat, answer: nat -> Answer, events: seq<Event>): State
  {
    if events == [] then Begin(n, answer)
    else Step(n, answer, Run(n, answer, events[..|events| - 1]), events[|events| - 1])
  }

  // ---------------------------------------------------------------- every run

  // What holds between two events. While the socket is connecting and not aborted a request
  // is live, so the attempts cannot stall.
  ghost predicate Sound(n: nat, answer: nat -> Answer, s: State)
  {
    && Plausible(n, answer, s.fates)
    && (s.live ==> |s.fates| < n && answer(|s.fates|) == Started && Unfinished(s.fates) && (s.verdict.Open? || s.verdict.Destroyed?))
    && (s.verdict.Open? && !s.aborted ==> s.live)
    && (s.verdict == Judge(n, s.fates) || s.verdict.Destroyed? || (s.verdict.Open? && s.aborted))
  }

  lemma LiveVerdict(n: nat, answer: nat -> Answer, s: State)
    requires Sound(n, answer, s) && s.live
    ensures s.verdict.Open? || s.verdict.Destroyed?
  { }

  lemma {:induction false} ResumeSound(n: nat, answer: nat -> Answer, s: State, canceled: bool)
    requires n >= 2 && Plausible(n, answer, s.fates) && !s.live && s.verdict.Open?
    requires if canceled then |s.fates| > 0 && s.fates[|s.fates| - 1] == Failed(Cancelled) else Unfinished(s.fates)
    ensures Sound(n, answer, Resume(n, answer, s, canceled))
    ensures var t := Resume(n, answer, s, canceled);
            t.aborted == s.aborted && !t.verdict.Destroyed? && |s.fates| <= |t.fates| && t.fates[..|s.fates|] == s.fates
    decreases n - |s.fates|
  {
    hide Plausible, Failures, Fitting;
    var k := |s.fates|;
    FailuresPresent(s.fates);
    PlausibleLength(n, answer, s.fates);
    if !s.aborted && !canceled && k < n && !answer(k).Started? {
      var t := s.(fates := s.fates + [Failed(AtOnce(answer(k)))]);
      AtOnceFits(n, answer(k), k);
      PlausibleNext(n, answer, s.fates, Failed(AtOnce(answer(k))));
      ResumeSound(n, answer, t, false);
      assert t.fates[..k] == s.fates;
    }
  }

  lemma PlausibleLength(n: nat, answer: nat -> Answer, fates: seq<Fate>)
    requires Plausible(n, answer, fates)
    ensures |fates| <= n
  { }

  lemma AtOnceFits(n: nat, a: Answer, i: int)
    requires !a.Started?
    ensures Fitting(n, a, i, Failed(AtOnce(a))) && AtOnce(a) != Cancelled
  { }

  lemma FailSound(n: nat, answer: nat -> Answer, s: State, cause: Cause)
    requires n >= 2 && Sound(n, answer, s) && s.live
    requires cause == Refused || cause == Cancelled || (cause == TimedOut && |s.fates| + 1 < n)
    ensures Sound(n, answer, Fail(n, answer, s, cause))
    ensures var t := Fail(n, answer, s, cause);
            && t.aborted == s.aborted && (t.verdict.Destroyed? <==> s.verdict.Destroyed?)
            && |s.fates| < |t.fates| && t.fates[..|s.fates| + 1] == s.fates + [Failed(cause)]
  {
    hide Plausible, Failures, Resume;
    PlausibleNext(n, answer, s.fates, Failed(cause));
    var t := s.(fates := s.fates + [Failed(cause)], live := false);
    if t.verdict.Open? { ResumeSound(n, answer, t, cause == Cancelled); }
  }

  lemma StepSound(n: nat, answer: nat -> Answer, s: State, e: Event)
    requires n >= 2 && Sound(n, answer, s)
    ensures Sound(n, answer, Step(n, answer, s, e))
    ensures var t := Step(n, answer, s, e);
            && (!s.verdict.Open? ==> t.verdict == s.verdict)
            && |s.fates| <= |t.fates| && t.fates[..|s.fates|] == s.fates
            && (!e.Abort? && !e.Destroy? ==> t.aborted == s.aborted && (t.verdict.Destroyed? ==> s.verdict.Destroyed?))
  {
    hide Plausible, Failures, Resume, Fail;
    var k := |s.fates|;
    match e
    case Completed(i, status) =>
      if s.live && i == k {
        var cause := if status.Cancel? then Cancelled else Refused;
        PlausibleNext(n, answer, s.fates, Succeeded);
        FailSound(n, answer, s, cause);
        LiveFails(n, answer, s, cause);
      }
    case Timeout =>
      if s.live && k + 1 < n {
        FailSound(n, answer, s, TimedOut);
        LiveFails(n, answer, s, TimedOut);
      }
    case Abort =>
    case Destroy =>
  }

  // A failure after the socket was destroyed leaves the verdict.
  lemma LiveFails(n: nat, answer: nat -> Answer, s: State, cause: Cause)
    requires n >= 2 && Sound(n, answer, s) && s.live
    ensures !s.verdict.Open? ==> Fail(n, answer, s, cause).verdict == s.verdict
    ensures |s.fates| < |Fail(n, answer, s, cause).fates| ==> Fail(n, answer, s, cause).fates[..|s.fates| + 1][..|s.fates|] == Fail(n, answer, s, cause).fates[..|s.fates|]
  { }

  lemma {:induction false} RunSound(n: nat, answer: nat -> Answer, events: seq<Event>)
    requires n >= 2
    ensures Sound(n, answer, Run(n, answer, events))
  {
    hide Sound, Step, Resume;
    if events == [] {
      NothingTried(n, answer);
      ResumeSound(n, answer, State([], false, Open, false), false);
    } else {
      RunSound(n, answer, events[..|events| - 1]);
      StepSound(n, answer, Run(n, answer, events[..|events| - 1]), events[|events| - 1]);
    }
  }

  lemma NothingTried(n: nat, answer: nat -> Answer)
    ensures Plausible(n, answer, []) && Unfinished([])
  { }

  // Unless someone else aborts or destroys, the verdict is the one the attempts determine,
  // and while it is open a request is live.
  lemma {:induction false} RunJudged(n: nat, answer: nat -> Answer, events: seq<Event>)
    requires n >= 2 && forall i :: 0 <= i < |events| ==> !events[i].Abort? && !events[i].Destroy?
    ensures var s := Run(n, answer, events);
            !s.aborted && s.verdict == Judge(n, s.fates) && (s.verdict.Open? ==> s.live)
  {
    hide Step, Resume, Judge;
    RunSound(n, answer, events);
    RunQuiet(n, answer, events);
  }

  lemma {:induction false} RunQuiet(n: nat, answer: nat -> Answer, events: seq<Event>)
    requires n >= 2 && forall i :: 0 <= i < |events| ==> !events[i].Abort? && !events[i].Destroy?
    ensures var s := Run(n, answer, events); !s.aborted && !s.verdict.Destroyed?
  {
    hide Sound, Step, Resume;
    if events == [] {
      NothingTried(n, answer);
      ResumeSound(n, answer, State([], false, Open, false), false);
    } else {
      var front := events[..|events| - 1];
      RunQuiet(n, answer, front);
      RunSound(n, answer, front);
      StepSound(n, answer, Run(n, answer, front), events[|events| - 1]);
    }
  }

  // A verdict is final, and what happened to an attempt does not change: the socket
  // connects at most once.
  lemma {:induction false} VerdictFinal(n: nat, answer: nat -> Answer, events: seq<Event>, more: seq<Event>)
    requires n >= 2
    ensures var s, t := Run(n, answer, events), Run(n, answer, events + more);
            && (!s.verdict.Open? ==> t.verdict == s.verdict)
            && |s.fates| <= |t.fates| && t.fates[..|s.fates|] == s.fates
    decreases |more|
  {
    hide Sound, Step, Resume;
    if more == [] {
      assert events + more == events;
    } else {
      var m := |more| - 1;
      var all := events + more;
      assert all[..|all| - 1] == events + more[..m] && all[|all| - 1] == more[m];
      VerdictFinal(n, answer, events, more[..m]);
      RunSound(n, answer, events + more[..m]);
      StepSound(n, answer, Run(n, answer, events + more[..m]), more[m]);
      var s, u, t := Run(n, answer, events), Run(n, answer, events + more[..m]), Run(n, answer, all);
      assert t.fates[..|s.fates|] == t.fates[..|u.fates|][..|s.fates|];
    }
  }

  // A live request that fails or times out leaves one error about its attempt, for good.
  lemma FailureRecorded(n: nat, answer: nat -> Answer, events: seq<Event>, e: Event, more: seq<Event>)
    requires n >= 2
    requires var s := Run(n, answer, events);
             s.live && ((e.Completed? && e.attempt == |s.fates| && !e.status.Ok?) || (e.Timeout? && |s.fates| + 1 < n))
    ensures var s, t := Run(n, answer, events), Run(n, answer, events + [e] + more);
            var cause := if e.Timeout? then TimedOut else if e.status.Cancel? then Cancelled else Refused;
            multiset(Failures(t.fates))[Failure(|s.fates|, cause)] == 1
  {
    hide Sound, Step, Resume, Failures;
    var s := Run(n, answer, events);
    var cause := if e.Timeout? then TimedOut else if e.status.Cancel? then Cancelled else Refused;
    RunSound(n, answer, events);
    FailSound(n, answer, s, cause);
    assert (events + [e])[..|events|] == events;
    assert Run(n, answer, events + [e]) == Fail(n, answer, s, cause) by { StepFails(n, answer, s, e, cause); }
    hide Run, Fail;
    VerdictFinal(n, answer, events + [e], more);
    var u, t := Run(n, answer, events + [e]), Run(n, answer, events + [e] + more);
    assert t.fates[|s.fates|] == u.fates[|s.fates|] by { assert t.fates[..|u.fates|][|s.fates|] == u.fates[|s.fates|]; }
    assert u.fates[|s.fates|] == u.fates[..|s.fates| + 1][|s.fates|] == Failed(cause);
    FailuresOnce(t.fates, Failure(|s.fates|, cause));
  }

  lemma StepFails(n: nat, answer: nat -> Answer, s: State, e: Event, cause: Cause)
    requires s.live && ((e.Completed? && e.attempt == |s.fates| && !e.status.Ok?) || (e.Timeout? && |s.fates| + 1 < n))
    requires cause == if e.Timeout? then TimedOut else if e.status.Cancel? then Cancelled else Refused
    ensures Step(n, answer, s, e) == Fail(n, answer, s, cause)
  {
    hide Fail;
  }

  lemma {:induction false} FailuresOnce(fates: seq<Fate>, f: Failure)
    ensures multiset(Failures(fates))[f] == if f.attempt < |fates| && fates[f.attempt] == Failed(f.cause) then 1 else 0
  {
    if fates != [] {
      var n := |fates| - 1;
      FailuresOnce(fates[..n], f);
      assert multiset(Failures(fates)) ==
             multiset(Failures(fates[..n])) + if fates[n].Failed? then multiset{Failure(n, fates[n].cause)} else multiset{};
    }
  }

  // ---------------------------------------------------------------- success

  // A live request that succeeds connects the socket, for good, after one error for each
  // earlier attempt.
  lemma SuccessConnects(n: nat, answer: nat -> Answer, events: seq<Event>, more: seq<Event>)
    requires n >= 2 && Run(n, answer, events).live && Run(n, answer, events).verdict.Open?
    ensures var k := |Run(n, answer, events).fates|;
            var t := Run(n, answer, events + [Completed(k, Ok)] + more);
            && t.verdict == Connected(k) && !t.live && |t.fates| == k + 1 && t.fates[k] == Succeeded
            && |Failures(t.fates)| == k
  {
    hide Sound, Step, Resume, Failures;
    var s := Run(n, answer, events);
    var k := |s.fates|;
    var all := events + [Completed(k, Ok)];
    assert all[..|events|] == events;
    assert Run(n, answer, all) == Succeed(s) by { StepSucceeds(n, answer, s); }
    NothingAfter(n, answer, all, more);
    RunSound(n, answer, all + more);
    var t := Run(n, answer, all + more);
    SoundPlausible(n, answer, t);
    SuccessAccounts(n, answer, t.fates);
  }

  lemma StepSucceeds(n: nat, answer: nat -> Answer, s: State)
    requires s.live
    ensures Step(n, answer, s, Completed(|s.fates|, Ok)) == Succeed(s)
  { }

  lemma SoundPlausible(n: nat, answer: nat -> Answer, s: State)
    requires Sound(n, answer, s)
    ensures Plausible(n, answer, s.fates)
  { }

  // Once connected no request is live, and nothing is attempted any more.
  lemma {:induction false} NothingAfter(n: nat, answer: nat -> Answer, events: seq<Event>, more: seq<Event>)
    requires !Run(n, answer, events).live && !Run(n, answer, events).verdict.Open?
    ensures var s, t := Run(n, answer, events), Run(n, answer, events + more);
            t.fates == s.fates && !t.live && t.verdict == s.verdict
    decreases |more|
  {
    hide Fail, Failures;
    if more == [] {
      assert events + more == events;
    } else {
      var m := |more| - 1;
      var all := events + more;
      assert all[..|all| - 1] == events + more[..m] && all[|all| - 1] == more[m];
      NothingAfter(n, answer, events, more[..m]);
    }
  }

  // The socket is connected only by the success of a live request: on a run that ends
  // connected to attempt k some event completes that attempt while it is live.
  lemma {:induction false} ConnectedBySuccess(n: nat, answer: nat -> Answer, events: seq<Event>, k: nat)
    requires n >= 2 && Run(n, answer, events).verdict == Connected(k)
    ensures exists i :: 0 <= i < |events| && events[i] == Completed(k, Ok) && Awaits(n, answer, events[..i], k)
  {
    hide Sound, Step, Resume, Failures;
    if events == [] {
      NothingTried(n, answer);
      ResumeNeverConnects(n, answer, State([], false, Open, false), false);
      assert false;
    }
    var m := |events| - 1;
    var front := events[..m];
    var s := Run(n, answer, front);
    RunSound(n, answer, front);
    if s.verdict == Connected(k) {
      ConnectedBySuccess(n, answer, front, k);
      var i :| 0 <= i < m && front[i] == Completed(k, Ok) && Awaits(n, answer, front[..i], k);
      assert events[i] == front[i] && events[..i] == front[..i];
    } else {
      StepConnects(n, answer, s, events[m], k);
      assert events[m] == Completed(k, Ok) && Awaits(n, answer, events[..m], k);
    }
  }

  // The request of attempt k is live and the verdict open.
  predicate Awaits(n: nat, answer: nat -> Answer, events: seq<Event>, k: nat)
  {
    var s := Run(n, answer, events);
    s.live && s.verdict.Open? && |s.fates| == k
  }

  lemma {:induction false} ResumeNeverConnects(n: nat, answer: nat -> Answer, s: State, canceled: bool)
    requires s.verdict.Open?
    ensures !Resume(n, answer, s, canceled).verdict.Connected?
    decreases n - |s.fates|
  {
    var k := |s.fates|;
    if !s.aborted && !canceled && k < n && !answer(k).Started? {
      ResumeNeverConnects(n, answer, s.(fates := s.fates + [Failed(AtOnce(answer(k)))]), false);
    }
  }

  lemma StepConnects(n: nat, answer: nat -> Answer, s: State, e: Event, k: nat)
    requires s.verdict != Connected(k) && Step(n, answer, s, e).verdict == Connected(k)
    ensures e == Completed(k, Ok) && s.live && s.verdict.Open? && |s.fates| == k
  {
    hide Failures, Resume;
    if e.Completed? || e.Timeout? {
      var cause := if e.Timeout? then TimedOut else if e.status.Cancel? then Cancelled else Refused;
      var t := s.(fates := s.fates + [Failed(cause)], live := false);
      if t.verdict.Open? { ResumeNeverConnects(n, answer, t, cause == Cancelled); }
    }
  }

  // ---------------------------------------------------------------- aborts and destroys

  // Someone else's destroy is final unless the verdict was in already.
  lemma DestroyWins(n: nat, answer: nat -> Answer, events: seq<Event>, more: seq<Event>)
    requires n >= 2 && Run(n, answer, events).verdict.Open?
    ensures Run(n, answer, events + [Destroy] + more).verdict == Destroyed
  {
    hide Sound, Resume, Failures;
    var all := events + [Destroy];
    assert all[..|events|] == events;
    VerdictFinal(n, answer, all, more);
  }

  // After an abort no further address is tried: at most the live request is still heard.
  lemma {:induction false} AbortStops(n: nat, answer: nat -> Answer, events: seq<Event>, more: seq<Event>)
    requires Run(n, answer, events).aborted
    ensures var s, t := Run(n, answer, events), Run(n, answer, events + more);
            t.aborted && |t.fates| + (if t.live then 1 else 0) <= |s.fates| + (if s.live then 1 else 0)
    decreases |more|
  {
    hide Failures;
    if more == [] {
      assert events + more == events;
    } else {
      var m := |more| - 1;
      var all := events + more;
      assert all[..|all| - 1] == events + more[..m] && all[|all| - 1] == more[m];
      AbortStops(n, answer, events, more[..m]);
    }
  }
}
