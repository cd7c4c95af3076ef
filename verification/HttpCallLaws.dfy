/**
 A message in terms of the calls alone: which header counts, what the body is, when the
 header is out and the message ended, and what corking merges.
 */
module HttpCallLaws {
  import opened Texts
  import opened ChunkedBody
  import opened HttpQueue
  import opened HttpMessage
  import opened HttpMessageLaws

  // ---------------------------------------------------------------- the header

  // Every call but corking brings a header, given or implicit.
  predicate BringsHeader(call: Call) { !call.Cork? && !call.Uncork? }

  function FirstHeader(calls: seq<Call>): Option<Header>
  {
    if calls == [] then None else if BringsHeader(calls[0]) then Some(calls[0].h) else FirstHeader(calls[1..])
  }

  lemma {:induction false} FirstHeaderNext(calls: seq<Call>, call: Call)
    ensures FirstHeader(calls + [call]) ==
            if FirstHeader(calls).Some? then FirstHeader(calls) else if BringsHeader(call) then Some(call.h) else None
  {
    var all := calls + [call];
    if calls == [] {
      assert all[1..] == [];
    } else {
      FirstHeaderNext(calls[1..], call);
      assert all[1..] == calls[1..] + [call];
    }
  }

  predicate HasEnd(calls: seq<Call>) { exists i :: 0 <= i < |calls| && calls[i].End? }

  lemma HasEndNext(calls: seq<Call>, call: Call)
    ensures HasEnd(calls + [call]) <==> HasEnd(calls) || call.End?
  {
    var all := calls + [call];
    assert all[|calls|] == call;
    if HasEnd(calls) {
      var i :| 0 <= i < |calls| && calls[i].End?;
      assert all[i].End?;
    }
    if HasEnd(all) && !call.End? {
      var i :| 0 <= i < |all| && all[i].End?;
      assert calls[i].End?;
    }
  }

  // The first header decides, and the message has ended exactly if `end` was called.
  lemma {:induction false} HeaderIsFirst(hasBody: bool, calls: seq<Call>)
    ensures var m := DoAll(hasBody, calls);
            && (m.finished <==> HasEnd(calls))
            && (match FirstHeader(calls)
                case None => !m.headerSet && m.hasBody == hasBody
                case Some(h) => m.headerSet && m.header == h.text && m.chunked == h.chunked && m.hasBody == (hasBody && h.hasBody))
            && (m.finished ==> m.headerSet)
  {
    if calls != [] {
      hide FirstHeader, HasEnd;
      var n := |calls| - 1;
      var front, call := calls[..n], calls[n];
      assert calls == front + [call];
      HeaderIsFirst(hasBody, front);
      FirstHeaderNext(front, call);
      HasEndNext(front, call);
      HeaderStep(DoAll(hasBody, front), call);
    }
  }

  lemma HeaderStep(m: Message, call: Call)
    requires m.finished ==> m.headerSet
    ensures var t := Do(m, call);
            && t.finished == (m.finished || call.End?) && (t.finished ==> t.headerSet)
            && t.headerSet == (m.headerSet || BringsHeader(call))
            && (m.headerSet || !BringsHeader(call) ==> t.header == m.header && t.chunked == m.chunked && t.hasBody == m.hasBody)
            && (!m.headerSet && BringsHeader(call) ==>
                  t.header == call.h.text && t.chunked == call.h.chunked && t.hasBody == (m.hasBody && call.h.hasBody))
  {
    hide Frame, Payload;
    var none := Chunk("", 0, true);
    match call
    case WriteHead(h) =>
    case FlushHeaders(h) => PutAlike(Store(m, h), none);
    case Write(c, h) => PutAlike(Store(m, h), c);
    case Cork =>
    case Uncork => PutAlike(m, none);
    case End(c, h) => if !m.finished { EndHeader(m, c, h); }
  }

  lemma EndHeader(m: Message, c: Option<Chunk>, h: Header)
    requires !m.finished
    ensures var t, s := DoEnd(m, c, h), Store(m, h);
            t.headerSet && t.header == s.header && t.chunked == s.chunked && t.hasBody == s.hasBody && t.finished
  {
    hide PutEnd, DoUncork, PutBody;
    var chunk := if c.Some? then c.value else Chunk("", 0, true);
    PutAlike(Store(m, h), chunk);
    var s := if c.Some? then DoWrite(m, c.value, h) else Store(m, h);
    PutAlike(s, chunk);
    PutAlike(PutEnd(s).(corked := 1), chunk);
  }

  // ---------------------------------------------------------------- the body

  // What is written up to and including the first `end`.
  function Written(calls: seq<Call>): string
  {
    if calls == [] then ""
    else
      match calls[0]
      case Write(c, _) => c.octets + Written(calls[1..])
      case End(c, _) => if c.Some? then c.value.octets else ""
      case _ => Written(calls[1..])
  }

  function WrittenBy(call: Call): string
  {
    if call.Write? then call.chunk.octets else if call.End? && call.last.Some? then call.last.value.octets else ""
  }

  lemma {:induction false} WrittenNext(calls: seq<Call>, call: Call)
    ensures Written(calls + [call]) == Written(calls) + if HasEnd(calls) then "" else WrittenBy(call)
  {
    hide HasEnd;
    var all := calls + [call];
    if calls == [] {
      assert all[1..] == [];
      NoEnd();
      assert Written([]) == "" && WrittenBy(call) + "" == WrittenBy(call);
    } else {
      WrittenNext(calls[1..], call);
      assert all[1..] == calls[1..] + [call];
      EndFirst(calls);
      var rest := if HasEnd(calls[1..]) then "" else WrittenBy(call);
      assert WrittenBy(calls[0]) + (Written(calls[1..]) + rest) == WrittenBy(calls[0]) + Written(calls[1..]) + rest;
    }
  }

  lemma NoEnd()
    ensures !HasEnd([])
  { }

  lemma EndFirst(calls: seq<Call>)
    requires calls != []
    ensures HasEnd(calls) <==> calls[0].End? || HasEnd(calls[1..])
  {
    if HasEnd(calls) && !calls[0].End? {
      var i :| 0 <= i < |calls| && calls[i].End?;
      assert calls[1..][i - 1].End?;
    }
    if HasEnd(calls[1..]) {
      var i :| 0 <= i < |calls| - 1 && calls[1..][i].End?;
      assert calls[i + 1].End?;
    }
  }

  // The response may have a body: its request and its header allow it.
  predicate Allowed(hasBody: bool, calls: seq<Call>)
  {
    hasBody && FirstHeader(calls).Some? && FirstHeader(calls).value.hasBody
  }

  // The body is everything written, or nothing if there may be none.
  lemma {:induction false} BodyIsWritten(hasBody: bool, calls: seq<Call>)
    ensures Body(hasBody, calls) == if Allowed(hasBody, calls) then Written(calls) else ""
  {
    if calls != [] {
      hide FirstHeader, HasEnd, Written, DoAll;
      var n := |calls| - 1;
      var front, call := calls[..n], calls[n];
      assert calls == front + [call];
      BodyIsWritten(hasBody, front);
      FirstHeaderNext(front, call);
      WrittenNext(front, call);
      HeaderIsFirst(hasBody, front);
      NothingWritten(front);
    }
  }

  lemma {:induction false} NothingWritten(calls: seq<Call>)
    ensures FirstHeader(calls).None? ==> Written(calls) == "" && !HasEnd(calls)
  {
    if calls != [] {
      NothingWritten(calls[1..]);
      EndFirst(calls);
    }
  }

  // ---------------------------------------------------------------- when the header is out

  predicate Sends(call: Call, allowed: bool) { call.FlushHeaders? || call.End? || (call.Write? && allowed) }

  predicate AnySends(calls: seq<Call>, allowed: bool) { exists i :: 0 <= i < |calls| && Sends(calls[i], allowed) }

  // The header is out exactly after it was flushed, something was written that may be, or
  // the message has ended.
  lemma {:induction false} HeaderSentExactly(hasBody: bool, calls: seq<Call>)
    ensures DoAll(hasBody, calls).headerSent <==> AnySends(calls, Allowed(hasBody, calls))
    ensures DoAll(hasBody, calls).buffer != [] ==> DoAll(hasBody, calls).headerSent
  {
    if calls != [] {
      hide FirstHeader;
      var n := |calls| - 1;
      var front, call := calls[..n], calls[n];
      var m, allowed := DoAll(hasBody, front), Allowed(hasBody, calls);
      assert calls == front + [call];
      HeaderSentExactly(hasBody, front);
      HeaderIsFirst(hasBody, front);
      FirstHeaderNext(front, call);
      SendsNext(front, call, allowed);
      NobodySends(front, Allowed(hasBody, front), allowed);
      hide AnySends, DoAll, HasEnd;
      assert DoAll(hasBody, calls) == Do(m, call) by { DoAllNext(hasBody, front, call); }
      SentStep(m, call);
    }
  }

  lemma SendsNext(calls: seq<Call>, call: Call, allowed: bool)
    ensures AnySends(calls + [call], allowed) <==> AnySends(calls, allowed) || Sends(call, allowed)
  {
    hide Sends;
    var all := calls + [call];
    assert all[|calls|] == call;
    if AnySends(calls, allowed) {
      var i :| 0 <= i < |calls| && Sends(calls[i], allowed);
      assert Sends(all[i], allowed);
    }
    if AnySends(all, allowed) && !Sends(call, allowed) {
      var i :| 0 <= i < |all| && Sends(all[i], allowed);
      assert Sends(calls[i], allowed);
    }
  }

  // Before the first header nothing was sent.
  lemma {:induction false} NobodySends(calls: seq<Call>, a: bool, b: bool)
    ensures FirstHeader(calls).None? ==> !AnySends(calls, a) && !AnySends(calls, b)
  {
    if calls != [] {
      NobodySends(calls[1..], a, b);
      if FirstHeader(calls).None? {
        forall i | 0 <= i < |calls| ensures !Sends(calls[i], a) && !Sends(calls[i], b) {
          if i > 0 { assert calls[i] == calls[1..][i - 1]; }
        }
      }
    }
  }

  lemma SentStep(m: Message, call: Call)
    requires m.buffer != [] ==> m.headerSent
    requires m.finished ==> m.headerSent
    ensures var t := Do(m, call);
            && (t.headerSent <==> m.headerSent || Sends(call, BringsHeader(call) && Store(m, call.h).hasBody))
            && (t.buffer != [] ==> t.headerSent)
  {
    hide Frame, Payload;
  }

  // ---------------------------------------------------------------- what corking merges

  function Then(m: Message, calls: seq<Call>): Message
  {
    if calls == [] then m else Do(Then(m, calls[..|calls| - 1]), calls[|calls| - 1])
  }

  function Writes(cs: seq<Chunk>, h: Header): (r: seq<Call>)
    ensures |r| == |cs|
  {
    seq(|cs|, i requires 0 <= i < |cs| => Write(cs[i], h))
  }

  // A chunked message with its header out, still open.
  predicate Flowing(m: Message) { m.headerSet && m.headerSent && m.hasBody && m.chunked && !m.finished }

  // While corked, writes put nothing on the wire.
  lemma {:induction false} HeldWrites(m: Message, cs: seq<Chunk>, h: Header)
    requires Flowing(m) && m.corked != 0 && forall i :: 0 <= i < |cs| ==> cs[i].octets != ""
    ensures Then(m, Writes(cs, h)) == m.(buffer := m.buffer + cs)
  {
    hide Frame;
    if cs == [] {
      assert m.buffer + cs == m.buffer;
    } else {
      var n := |cs| - 1;
      HeldWrites(m, cs[..n], h);
      assert Writes(cs, h)[..n] == Writes(cs[..n], h);
      assert m.buffer + cs[..n] + [cs[n]] == m.buffer + cs;
    }
  }

  // Corked writes go out as one chunk, at the uncork; uncorked ones as a chunk each.
  lemma {:induction false} CorkMerges(m: Message, cs: seq<Chunk>, h: Header)
    requires Flowing(m) && m.corked == 0 && m.buffer == [] && |cs| > 0 && forall i :: 0 <= i < |cs| ==> cs[i].octets != ""
    ensures var held := Then(Do(m, Cork), Writes(cs, h));
            held.emitted == m.emitted && Do(held, Uncork).emitted == m.emitted + Frame(Payload(cs))
    ensures Do(m, Write(cs[0], h)).emitted == m.emitted + Frame(cs[0].octets)
  {
    hide Frame, Payload;
    HeldWrites(Do(m, Cork), cs, h);
    assert [] + cs == cs;
  }
}
