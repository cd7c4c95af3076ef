/**
 A server connection as a function of what happens on it: which responses there are,
 what they have become, how many are finished, and what is on the wire.
 */
module HttpSession {
  import opened Texts
  import opened ChunkedBody
  import opened HttpQueue
  import opened HttpMessage
  import opened HttpMessageLaws

  // Open: the socket is writable. HalfClosed: the peer has ended and so has the
  // server's side; writes wait for nothing. Ended: a last response has finished and the
  // socket takes no more, before and after its 'close'. Closed: the socket is destroyed
  // and has emitted 'close'.
  datatype Status = Open | HalfClosed | Ended | Closed

  // What can happen on a connection; k is the number of a response, and `pending` what the
  // socket has not flushed at the time of the call.
  datatype Event =
    | Request(hasBody: bool)
    | Invoke(k: nat, call: Call, pending: nat)
    | Finish(k: nat)
    | PeerEnd(allowHalfOpen: bool)
    | Close

  predicate ValidEvent(e: Event) { e.Invoke? ==> ValidCall(e.call) }

  // ---------------------------------------------------------------- the last response

  // `_last` after a header has been stored.
  function Marked(last: bool, h: Header): bool { if h.afresh then h.last else last || h.last }

  // The call stores the header of the message.
  predicate Stores(m: Message, call: Call)
  {
    !m.headerSet && (call.WriteHead? || call.FlushHeaders? || ((call.Write? || call.End?) && !m.finished))
  }

  function LastAfter(m: Message, last: bool, call: Call): bool
  {
    if Stores(m, call) then Marked(last, call.h) else last
  }

  // ---------------------------------------------------------------- the session

  // A response: its message, and whether the connection ends after it.
  datatype Reply = Reply(message: Message, last: bool)

  // The responses in request order and how many of them are finished, for as long as the
  // socket is open; afterwards, as they were when it ceased to be.
  datatype Session = Session(status: Status, replies: seq<Reply>, done: nat)

  function Begin(): Session { Session(Open, [], 0) }

  function Answer(r: Reply, call: Call): Reply { Reply(Do(r.message, call), LastAfter(r.message, r.last, call)) }

  // A response finishes when it is the first that has not and has ended; then the next one
  // gets the socket, unless it was the last one.
  function Advance(s: Session, e: Event): Session
  {
    if s.status != Open then s
    else
      match e
      case Request(hasBody) => s.(replies := s.replies + [Reply(New(hasBody), false)])
      case Invoke(k, call, _) => if k < |s.replies| then s.(replies := s.replies[k := Answer(s.replies[k], call)]) else s
      case Finish(k) =>
        if k == s.done < |s.replies| && s.replies[k].message.finished
        then s.(done := k + 1, status := if s.replies[k].last then Ended else Open)
        else s
      case PeerEnd(allowHalfOpen) =>
        var n := |s.replies|;
        if !allowHalfOpen || s.done >= n then s.(status := HalfClosed)
        else s.(replies := s.replies[n - 1 := s.replies[n - 1].(last := true)])
      case Close => s.(status := Closed)
  }

  lemma NoSuchReply(s: Session, e: Event)
    requires (e.Invoke? || e.Finish?) && e.k >= |s.replies|
    ensures Advance(s, e) == s
  { }

  function Serve(events: seq<Event>): Session
  {
    if events == [] then Begin() else Advance(Serve(events[..|events| - 1]), events[|events| - 1])
  }

  function Emitted(replies: seq<Reply>): (r: seq<string>)
    ensures |r| == |replies|
  {
    seq(|replies|, k requires 0 <= k < |replies| => replies[k].message.emitted)
  }

  // The finished responses and everything the next one has handed over, which after a last
  // response is not sent.
  function Wire(s: Session): string
    requires s.done <= |s.replies|
  {
    Concat(Emitted(s.replies[..s.done])) + if s.status != Ended && s.done < |s.replies| then s.replies[s.done].message.emitted else ""
  }

  // ---------------------------------------------------------------- the calls on one response

  function CallOn(e: Event, k: nat): seq<Call> { if e.Invoke? && e.k == k then [e.call] else [] }

  function Requests(events: seq<Event>): seq<bool>
  {
    if events == [] then []
    else Requests(events[..|events| - 1]) + if events[|events| - 1].Request? then [events[|events| - 1].hasBody] else []
  }

  // The calls made on response k since its request.
  function CallsOn(events: seq<Event>, k: nat): seq<Call>
  {
    if events == [] then []
    else
      var n := |events| - 1;
      CallsOn(events[..n], k) + if k < |Requests(events[..n])| then CallOn(events[n], k) else []
  }

  // Response k as its calls alone determine it.
  function Told(events: seq<Event>, k: nat): Message
    requires k < |Requests(events)|
  {
    DoAll(Requests(events)[k], CallsOn(events, k))
  }

  function After(m: Message, calls: seq<Call>): Message { if calls == [] then m else Do(m, calls[0]) }

  lemma ToldNext(events: seq<Event>, e: Event, k: nat)
    ensures Requests(events + [e]) == Requests(events) + if e.Request? then [e.hasBody] else []
    ensures k < |Requests(events)| ==> Told(events + [e], k) == After(Told(events, k), CallOn(e, k))
    ensures k >= |Requests(events)| && k < |Requests(events + [e])| ==> Told(events + [e], k) == New(e.hasBody)
  {
    hide Do;
    var more := events + [e];
    assert more[..|events|] == events;
    NoCalls(events, k);
    if k < |Requests(events)| {
      var calls := CallsOn(events, k);
      assert calls + [] == calls;
      if CallOn(e, k) != [] {
        assert (calls + [e.call])[..|calls|] == calls;
      }
    } else {
      assert CallsOn(more, k) == [] + [];
    }
  }

  lemma {:induction false} NoCalls(events: seq<Event>, k: nat)
    ensures k >= |Requests(events)| ==> CallsOn(events, k) == []
  {
    if events != [] { NoCalls(events[..|events| - 1], k); }
  }

  // What the receiver of response k makes of it.
  ghost predicate Received(events: seq<Event>, k: nat, m: Message)
    requires k < |Requests(events)|
  {
    var hasBody, calls := Requests(events)[k], CallsOn(events, k);
    Balanced(hasBody, calls) && m.headerSent ==>
      && m.header <= m.emitted
      && var rest := m.emitted[|m.header|..];
         if m.chunked && m.hasBody then
           if m.finished then Decode(rest) == Some((Body(hasBody, calls), "")) <==> Clean(hasBody, calls) else Decode(rest) == None
         else rest == Body(hasBody, calls)
  }

  lemma ToldReceived(events: seq<Event>, k: nat)
    requires k < |Requests(events)|
    ensures Received(events, k, Told(events, k))
  {
    hide Decode, DoAll, Body, Balanced, Clean;
    var hasBody, calls := Requests(events)[k], CallsOn(events, k);
    var m := DoAll(hasBody, calls);
    if Balanced(hasBody, calls) && m.headerSent {
      PlainBodyReceived(hasBody, calls);
      if m.chunked && m.hasBody { ChunkedBodyReceived(hasBody, calls); }
    }
  }

  // ---------------------------------------------------------------- laws of sessions

  lemma {:induction false} DoneBelow(events: seq<Event>)
    ensures Serve(events).done <= |Serve(events).replies|
  {
    if events != [] { DoneBelow(events[..|events| - 1]); }
  }

  // Every request on an open connection has its response, which is what its calls make of it.
  lemma {:induction false} SessionTold(events: seq<Event>, k: nat)
    ensures var s := Serve(events);
            s.status == Open ==>
              && |s.replies| == |Requests(events)|
              && (k < |s.replies| ==> s.replies[k].message == Told(events, k))
  {
    hide Told, Do;
    if events != [] {
      var n := |events| - 1;
      assert events == events[..n] + [events[n]];
      SessionTold(events[..n], k);
      ToldNext(events[..n], events[n], k);
    }
  }

  // Responses finish in request order, each after it has ended, and never unfinish.
  lemma {:induction false} FinishedInOrder(events: seq<Event>, k: nat)
    requires k < Serve(events).done
    ensures k < |Serve(events).replies| && Serve(events).replies[k].message.finished
  {
    hide Do;
    var n := |events| - 1;
    var s := Serve(events[..n]);
    DoneBelow(events[..n]);
    if k < s.done { FinishedInOrder(events[..n], k); }
    if events[n].Invoke? && events[n].k < |s.replies| { StaysFinished(s.replies[events[n].k].message, events[n].call); }
  }

  lemma StaysFinished(m: Message, call: Call)
    ensures m.finished ==> Do(m, call).finished
  { }

  // Without a close, a peer's end or a last response the connection stays open.
  lemma {:induction false} StaysOpen(events: seq<Event>)
    requires forall i :: 0 <= i < |events| ==> !events[i].Close? && !events[i].PeerEnd?
    ensures var s := Serve(events);
            s.status == Open || (s.status == Ended && 0 < s.done <= |s.replies| && s.replies[s.done - 1].last)
  {
    if events != [] {
      DoneBelow(events[..|events| - 1]);
      StaysOpen(events[..|events| - 1]);
    }
  }

  // When the socket ceases to be open the wire stays as it is.
  lemma ExitWire(s: Session, e: Event)
    requires s.status == Open && s.done <= |s.replies| && Advance(s, e).status != Open
    ensures Advance(s, e).done <= |s.replies| && Wire(Advance(s, e)) == Wire(s)
  {
    hide Concat, Do;
    var t := Advance(s, e);
    if e.Finish? {
      var k := s.done;
      var texts := Emitted(s.replies[..k]);
      assert Emitted(t.replies[..k + 1]) == texts + [s.replies[k].message.emitted];
      PushFrame(texts, s.replies[k].message.emitted);
      assert Concat(texts + [s.replies[k].message.emitted]) + "" == Concat(texts) + s.replies[k].message.emitted;
    }
  }
}
