/**
 The stream behind the async iterator of `events.on`: the items handed to the
 reader in order, the number of reads asked for, and the flow control. There is no
 queue here: the outcome of read i is item i.
 */
module IteratorSpec {

  datatype Item<+T, +E> = Value(value: T) | Failed(error: E) | Done

  datatype Outcome<+T, +E> = Pending | Settled(item: Item<T, E>)

  datatype Action<+T, +E> = Emit(value: T) | Error(error: E) | Throw(error: E) | Close | Next

  datatype Stream<+T, +E> = Stream(items: seq<Item<T, E>>, closed: bool, asked: nat, paused: bool)

  // The watermarks, which values the test `if (error)` takes for an error, as an emitter
  // may emit anything as its error, and which are instances of Error.
  datatype Marks<!E> = Marks(low: nat, high: nat, truthy: E -> bool, isError: E -> bool)

  // The watermarks are validated to be at least 1.
  predicate ValidMarks<E>(m: Marks<E>) { m.low >= 1 && m.high >= 1 }

  function Start<T, E>(): Stream<T, E> { Stream([], false, 0, false) }

  // Items no read has asked for yet.
  function Unread<T, E>(s: Stream<T, E>): seq<Item<T, E>>
  {
    if s.asked <= |s.items| then s.items[s.asked..] else []
  }

  predicate EndsFailed<T, E>(items: seq<Item<T, E>>) { |items| > 0 && items[|items| - 1].Failed? }

  // Events waiting to be read.
  function Size<T, E>(s: Stream<T, E>): nat
  {
    |Unread(s)| - if EndsFailed(Unread(s)) then 1 else 0
  }

  function OutcomeOf<T, E>(s: Stream<T, E>, i: nat): Outcome<T, E>
  {
    if i < |s.items| then Settled(s.items[i]) else if s.closed then Settled(Done) else Pending
  }

  function Dones<T, E>(n: nat): seq<Item<T, E>> { seq(n, i => Done) }

  // An error thrown into a closed stream replaces an unread error, and otherwise
  // goes to the first read that would have been told that the stream is done.
  function LateThrow<T, E>(s: Stream<T, E>, e: E): (t: Stream<T, E>)
    ensures t.closed == s.closed && t.asked == s.asked && t.paused == s.paused
  {
    var n := |s.items|;
    if s.asked < n && s.items[n - 1].Failed? then s.(items := s.items[..n - 1] + [Failed(e)])
    else s.(items := s.items + Dones(if s.asked > n then s.asked - n else 0) + [Failed(e)])
  }

  // The first error closes the stream. It goes to a waiting reader as it is; with nobody
  // waiting it is kept for the next reader, who takes a falsy value for none.
  function Fail<T, E>(m: Marks<E>, s: Stream<T, E>, e: E): Stream<T, E>
  {
    if m.truthy(e) || s.asked > |s.items| then s.(items := s.items + [Failed(e)], closed := true) else s.(closed := true)
  }

  // `throw` refuses what is not an error.
  predicate Accepts<E>(m: Marks<E>, e: E) { m.truthy(e) && m.isError(e) }

  function Step<T, E>(m: Marks<E>, s: Stream<T, E>, a: Action<T, E>): Stream<T, E>
  {
    match a
    case Emit(v) =>
      if s.closed then s
      else
        var t := s.(items := s.items + [Value(v)]);
        t.(paused := s.paused || Size(t) > m.high)
    case Error(e) => if s.closed then s else Fail(m, s, e)
    case Throw(e) => if !Accepts(m, e) then s else if s.closed then LateThrow(s, e) else Fail(m, s, e)
    case Close => s.(closed := true)
    case Next =>
      var t := s.(asked := s.asked + 1);
      if Size(s) > 0 then t.(paused := s.paused && Size(t) >= m.low) else t
  }

  function Run<T, E>(m: Marks<E>, s: Stream<T, E>, actions: seq<Action<T, E>>): Stream<T, E>
    decreases |actions|
  {
    if actions == [] then s else Run(m, Step(m, s, actions[0]), actions[1..])
  }
}
