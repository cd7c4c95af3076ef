/**
 What happens on a connection in terms of the events alone: which response is the last one,
 when the connection ends and when a response finishes.
 */
module HttpSessionLaws {
  import opened Texts
  import opened HttpQueue
  import opened HttpMessage
  import opened HttpCallLaws
  import opened HttpSession

  // ---------------------------------------------------------------- the last response

  // The header that counts for response k.
  function HeaderOn(events: seq<Event>, k: nat): Option<Header> { FirstHeader(CallsOn(events, k)) }

  // Event i is a peer's end in half-open mode that marks response k.
  predicate PeerMarks(events: seq<Event>, i: nat, k: nat)
    requires i < |events|
  {
    var s := Serve(events[..i]);
    events[i].PeerEnd? && events[i].allowHalfOpen && s.status == Open && s.done < |s.replies| && k == |s.replies| - 1
  }

  // The mark of event i is not taken back by a header that decides afresh later.
  predicate Holds(events: seq<Event>, i: nat, k: nat)
    requires i < |events|
  {
    PeerMarks(events, i, k) && !(HeaderOn(events, k).Some? && HeaderOn(events, k).value.afresh && HeaderOn(events[..i], k).None?)
  }

  predicate Kept(events: seq<Event>, k: nat) { exists i: nat :: i < |events| && Holds(events, i, k) }

  lemma HeaderOnNext(events: seq<Event>, e: Event, k: nat)
    requires k < |Requests(events)|
    ensures HeaderOn(events + [e], k) ==
            if HeaderOn(events, k).Some? then HeaderOn(events, k)
            else if e.Invoke? && e.k == k && BringsHeader(e.call) then Some(e.call.h) else None
  {
    hide FirstHeader;
    var calls := CallsOn(events, k);
    assert (events + [e])[..|events|] == events;
    assert calls + [] == calls;
    if e.Invoke? && e.k == k { FirstHeaderNext(calls, e.call); }
  }

  // Marks after one event more: the header may take them back, and the event may mark.
  lemma KeptNext(events: seq<Event>, e: Event, k: nat)
    requires k < |Requests(events)|
    ensures var all := events + [e];
            var stored := HeaderOn(events, k).None? && HeaderOn(all, k).Some?;
            Kept(all, k) <==>
              || PeerMarks(all, |events|, k)
              || (Kept(events, k) && !(stored && HeaderOn(all, k).value.afresh))
  {
    hide HeaderOn;
    var all := events + [e];
    HeaderOnNext(events, e, k);
    assert all[..|events|] == events;
    forall i: nat | i < |events| ensures all[..i] == events[..i] && all[i] == events[i] { }
    EarlierNone(events, k);
    if Kept(all, k) {
      var i: nat :| i < |all| && Holds(all, i, k);
      if i < |events| { assert Holds(events, i, k); }
    }
    if Kept(events, k) {
      var i: nat :| i < |events| && Holds(events, i, k);
      if !(HeaderOn(events, k).None? && HeaderOn(all, k).Some? && HeaderOn(all, k).value.afresh) { assert Holds(all, i, k); }
    }
    if PeerMarks(all, |events|, k) { assert Holds(all, |events|, k); }
  }

  // A header that is not there now was not there before.
  lemma {:induction false} EarlierNone(events: seq<Event>, k: nat)
    ensures HeaderOn(events, k).None? ==> forall i: nat :: i <= |events| ==> HeaderOn(events[..i], k).None?
  {
    if events == [] {
      assert events[..0] == events;
    } else {
      var n := |events| - 1;
      var front := events[..n];
      EarlierNone(front, k);
      assert events == front + [events[n]];
      NoneStays(front, events[n], k);
      forall i: nat | i <= |events| && HeaderOn(events, k).None? ensures HeaderOn(events[..i], k).None? {
        if i <= n { assert events[..i] == front[..i]; } else { assert events[..i] == events; }
      }
    }
  }

  lemma NoneStays(events: seq<Event>, e: Event, k: nat)
    ensures HeaderOn(events + [e], k).None? ==> HeaderOn(events, k).None?
  {
    if k < |Requests(events)| { HeaderOnNext(events, e, k); } else { NoCalls(events, k); }
  }

  // Who ends the connection: on an open connection a response is marked as the last one
  // exactly if its header says so, or a half-open end of the peer found it last and its
  // header did not decide afresh afterwards.
  lemma {:induction false} LastExactly(events: seq<Event>, k: nat)
    requires Serve(events).status == Open && k < |Serve(events).replies|
    ensures Serve(events).replies[k].last <==>
            (HeaderOn(events, k).Some? && HeaderOn(events, k).value.last) || Kept(events, k)
  {
    hide Kept, HeaderOn, PeerMarks;
    var n := |events| - 1;
    var front, e := events[..n], events[n];
    var s := Serve(front);
    assert events == front + [e];
    SessionTold(front, k);
    if k < |s.replies| {
      LastExactly(front, k);
      KeptNext(front, e, k);
      HeaderOnNext(front, e, k);
      StoredExactly(front, k);
      LastStep(front, e, k);
    } else {
      NewUnmarked(front, e, k);
    }
  }

  // The message of an open session has its header exactly if a call brought one.
  lemma StoredExactly(events: seq<Event>, k: nat)
    requires Serve(events).status == Open && k < |Serve(events).replies|
    ensures Serve(events).replies[k].message.headerSet <==> HeaderOn(events, k).Some?
    ensures Serve(events).replies[k].message.finished <==> HasEnd(CallsOn(events, k))
    ensures Serve(events).replies[k].message.finished ==> HeaderOn(events, k).Some?
  {
    hide DoAll, FirstHeader, HasEnd;
    SessionTold(events, k);
    HeaderIsFirst(Requests(events)[k], CallsOn(events, k));
  }

  // One event, on a response that is there already.
  lemma LastStep(events: seq<Event>, e: Event, k: nat)
    requires var s := Serve(events);
             && s.status == Open && k < |s.replies| && Advance(s, e).status == Open
             && (s.replies[k].message.headerSet <==> HeaderOn(events, k).Some?)
             && (s.replies[k].message.finished ==> s.replies[k].message.headerSet)
    ensures var s := Serve(events);
            var all := events + [e];
            var last := s.replies[k].last;
            Advance(s, e).replies[k].last ==
              if PeerMarks(all, |events|, k) then true
              else if e.Invoke? && e.k == k && BringsHeader(e.call) && HeaderOn(events, k).None? then Marked(last, e.call.h)
              else last
  {
    hide HeaderOn, Do, Serve;
    var all := events + [e];
    assert all[..|events|] == events && all[|events|] == e;
  }

  // A new response is not marked.
  lemma NewUnmarked(events: seq<Event>, e: Event, k: nat)
    requires Serve(events).status == Open && k >= |Serve(events).replies|
    requires Serve(events + [e]).status == Open && k < |Serve(events + [e]).replies|
    ensures !Serve(events + [e]).replies[k].last && HeaderOn(events + [e], k).None? && !Kept(events + [e], k)
  {
    hide Do, FirstHeader;
    var all := events + [e];
    assert all[..|events|] == events;
    SessionTold(events, k);
    NoCalls(events, k);
    assert CallsOn(all, k) == [] + [];
    NoHeader();
    forall i: nat | i < |all| ensures !PeerMarks(all, i, k) {
      if i < |events| {
        assert all[..i] == events[..i];
        FewerReplies(events, i);
      }
    }
  }

  lemma NoHeader()
    ensures FirstHeader([]) == None
  { }

  // Responses are only added.
  lemma {:induction false} FewerReplies(events: seq<Event>, i: nat)
    requires i <= |events|
    ensures |Serve(events[..i]).replies| <= |Serve(events).replies|
    decreases |events|
  {
    hide Do;
    if i == |events| {
      assert events[..i] == events;
    } else {
      var front := events[..|events| - 1];
      FewerReplies(front, i);
      assert front[..i] == events[..i];
    }
  }

  // ---------------------------------------------------------------- the end of the connection

  // On an open connection without an end of the peer, the response that finishes ends the
  // connection exactly if its header says that it is the last one.
  lemma FinishEnds(events: seq<Event>)
    requires var s := Serve(events); s.status == Open && s.done < |s.replies| && HasEnd(CallsOn(events, s.done))
    requires forall i :: 0 <= i < |events| ==> !events[i].PeerEnd?
    ensures var k := Serve(events).done;
            var t := Serve(events + [Finish(k)]);
            && HeaderOn(events, k).Some? && t.done == k + 1
            && t.status == if HeaderOn(events, k).value.last then Ended else Open
  {
    hide HeaderOn, HasEnd, Do;
    var k := Serve(events).done;
    StoredExactly(events, k);
    LastExactly(events, k);
    assert (events + [Finish(k)])[..|events|] == events;
    assert !Kept(events, k);
  }

  // An open connection ceases to be open exactly at a close, at an end of the peer that does
  // not wait for pending responses, and when a response that is the last one finishes.
  lemma LeavesOpen(events: seq<Event>, e: Event)
    requires Serve(events).status == Open
    ensures var s, t := Serve(events), Serve(events + [e]);
            && (t.status == Closed <==> e.Close?)
            && (t.status == HalfClosed <==> e.PeerEnd? && (!e.allowHalfOpen || s.done == |s.replies|))
            && (t.status == Ended <==>
                  && e == Finish(s.done) && s.done < |s.replies| && HasEnd(CallsOn(events, s.done))
                  && ((HeaderOn(events, s.done).Some? && HeaderOn(events, s.done).value.last) || Kept(events, s.done)))
            && (t.done == s.done + 1 <==> e == Finish(s.done) && s.done < |s.replies| && HasEnd(CallsOn(events, s.done)))
            && (t.done == s.done || t.done == s.done + 1)
  {
    hide HeaderOn, HasEnd, Do, Kept;
    var s := Serve(events);
    assert (events + [e])[..|events|] == events;
    DoneBelow(events);
    if s.done < |s.replies| {
      StoredExactly(events, s.done);
      LastExactly(events, s.done);
    }
  }
}
