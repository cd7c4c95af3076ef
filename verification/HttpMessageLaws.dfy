/**
 What a receiver makes of an outgoing message: the header once, then the body, plain
 or as one chunked body.
 */
module HttpMessageLaws {
  import opened Texts
  import opened ChunkedBody
  import opened HttpQueue
  import opened HttpMessage

  // The chunks written before the last chunk, and the payload written after it.
  datatype Log = Log(frames: seq<string>, late: string)

  function LateFrame(payload: string): string { if payload == "" then "" else Frame(payload) }

  function Ending(m: Message, log: Log): string
  {
    if m.finished && m.hasBody then LAST_CHUNK + LateFrame(log.late) else ""
  }

  // The log and the body account for what was emitted and what is held.
  ghost predicate Shape(m: Message, log: Log, body: string)
  {
    && (m.headerSent ==> m.headerSet) && (m.chunked ==> m.headerSet) && (m.finished ==> m.headerSent && m.buffer == [])
    && "" !in log.frames
    && (!m.finished ==> m.corked >= 0 && log.late == "")
    && (m.buffer != [] ==> m.corked > 0 && Payload(m.buffer) != "" && m.chunked && m.headerSent)
    && (!m.hasBody ==> body == "" && log == Log([], "") && m.buffer == [])
    && if !m.headerSent then m.emitted == "" && body == "" && log == Log([], "") && m.buffer == []
       else if m.chunked then
         && m.emitted == m.header + (Frames(log.frames) + Ending(m, log))
         && body == Concat(log.frames) + (log.late + Payload(m.buffer))
       else m.emitted == m.header + body && log == Log([], "") && m.buffer == []
  }

  lemma NoFrames()
    ensures Frames([]) == "" && Concat([]) == "" && Payload([]) == ""
  { }

  // ---------------------------------------------------------------- steps

  lemma StoreShape(m: Message, h: Header, log: Log, body: string)
    requires Shape(m, log, body)
    ensures Shape(Store(m, h), log, body) && Store(m, h).headerSet
  {
    hide Frames, Concat, Payload, Frame;
  }

  // A write without framing, which in a chunked message is empty.
  lemma PlainShape(m: Message, x: string, log: Log, body: string)
    requires Shape(m, log, body) && m.headerSet && ((m.hasBody && !m.chunked) || x == "")
    ensures Shape(Put(m, x), log, body + x)
  {
    hide Frames, Concat, Payload, Frame;
    NoFrames();
    assert body + "" == body && m.emitted + "" == m.emitted;
    assert m.header + body + x == m.header + (body + x);
    assert "" + (m.header + x) == m.header + x && "" + x == x;
    assert m.header + "" == m.header + ("" + "");
  }

  // A chunk written directly, when nothing is held.
  lemma FrameShape(m: Message, x: string, log: Log, body: string)
    requires Shape(m, log, body) && m.headerSet && m.chunked && m.hasBody && !m.finished && m.buffer == [] && x != ""
    ensures Shape(Put(m, Frame(x)), log.(frames := log.frames + [x]), body + x)
  {
    hide Frames, Frame, Concat, Payload;
    PushFrame(log.frames, x);
    NoFrames();
    if m.headerSent {
      assert m.header + (Frames(log.frames) + "") + Frame(x) == m.header + (Frames(log.frames) + Frame(x) + "");
      assert Concat(log.frames) + ("" + "") + x == Concat(log.frames) + x + ("" + "");
    } else {
      assert "" + (m.header + Frame(x)) == m.header + ("" + Frame(x) + "");
      assert "" + x == "" + x + ("" + "");
    }
  }

  lemma HoldShape(m: Message, c: Chunk, log: Log, body: string)
    requires Shape(m, log, body) && Holds(m) && m.hasBody && !m.finished && c.octets != ""
    ensures Shape(m.(buffer := m.buffer + [c]), log, body + c.octets)
  {
    hide Frames, Frame, Concat, Payload;
    PushChunk(m.buffer, c);
    assert Concat(log.frames) + ("" + Payload(m.buffer)) + c.octets == Concat(log.frames) + ("" + (Payload(m.buffer) + c.octets));
  }

  // The chunks a write sends at once.
  function Direct(m: Message, c: Chunk): seq<string>
  {
    if m.chunked && c.octets != "" && !Holds(m) then [c.octets] else []
  }

  lemma BodyShape(m: Message, c: Chunk, log: Log, body: string)
    requires Shape(m, log, body) && m.headerSet && m.hasBody && !m.finished
    ensures Shape(PutBody(m, c), log.(frames := log.frames + Direct(m, c)), body + c.octets)
  {
    hide Shape, Frames, Frame, Concat, Payload;
    assert log.frames + [] == log.frames;
    if !m.chunked || c.octets == "" {
      PlainShape(m, c.octets, log, body);
    } else if Holds(m) {
      HoldShape(m, c, log, body);
    } else {
      NothingHeld(m, log, body);
      FrameShape(m, c.octets, log, body);
    }
  }

  lemma NothingHeld(m: Message, log: Log, body: string)
    requires Shape(m, log, body) && !Holds(m)
    ensures m.buffer == []
  {
    hide Frames, Concat, Payload;
  }

  // What is held goes out as one chunk.
  lemma FlushShape(m: Message, log: Log, body: string)
    requires Shape(m, log, body) && m.buffer != [] && m.corked == 1
    ensures Shape(Put(m, Frame(Payload(m.buffer))).(buffer := [], corked := 0), log.(frames := log.frames + [Payload(m.buffer)]), body)
  {
    hide Frames, Frame, Concat, Payload;
    var x := Payload(m.buffer);
    PushFrame(log.frames, x);
    NoFrames();
    assert m.header + (Frames(log.frames) + "") + Frame(x) == m.header + (Frames(log.frames) + Frame(x) + "");
    assert Concat(log.frames) + ("" + x) == Concat(log.frames) + x + ("" + "");
  }

  lemma UncorkShape(m: Message, log: Log, body: string)
    requires Shape(m, log, body) && (m.finished || m.corked > 0)
    ensures Shape(DoUncork(m), if m.corked == 1 && m.buffer != [] then log.(frames := log.frames + [Payload(m.buffer)]) else log, body)
  {
    hide Frames, Concat, Payload, Frame;
    if m.corked == 1 && m.buffer != [] {
      FlushShape(m, log, body);
      assert DoUncork(m) == Put(m, Frame(Payload(m.buffer))).(buffer := [], corked := 0);
    }
  }

  // The end of a message that has its header.
  function Ended(m: Message): Message { DoUncork(PutEnd(m).(corked := 1)).(finished := true) }

  lemma EndShape(m: Message, log: Log, body: string)
    requires Shape(m, log, body) && m.headerSet && !m.finished
    ensures Shape(Ended(m), log.(late := Payload(m.buffer)), body)
  {
    hide Frames, Frame, Concat, Payload;
    NoFrames();
    var x := Payload(m.buffer);
    if m.chunked && m.hasBody {
      var t := Ended(m);
      var late := LateFrame(x);
      assert t.emitted == m.emitted + First(m.header, m.headerSent, LAST_CHUNK) + late by {
        assert m.emitted + First(m.header, m.headerSent, LAST_CHUNK) + "" == m.emitted + First(m.header, m.headerSent, LAST_CHUNK);
      }
      if m.headerSent {
        assert m.header + (Frames(log.frames) + "") + LAST_CHUNK + late == m.header + (Frames(log.frames) + (LAST_CHUNK + late));
      } else {
        assert "" + (m.header + LAST_CHUNK) + late == m.header + ("" + (LAST_CHUNK + late));
      }
      assert "" + x == x + "";
    } else {
      PlainShape(m, "", log, body);
      assert body + "" == body;
    }
  }

  // ---------------------------------------------------------------- runs of calls

  // The message to which the end is put, after the write that `end` may make.
  function LastWrite(m: Message, call: Call): Message
    requires call.End?
  {
    if call.last.Some? then DoWrite(m, call.last.value, call.h) else Store(m, call.h)
  }

  function Note(m: Message, log: Log, call: Call): Log
  {
    match call
    case WriteHead(_) => log
    case FlushHeaders(_) => log
    case Write(c, h) => if m.finished || !Store(m, h).hasBody then log else log.(frames := log.frames + Direct(Store(m, h), c))
    case Cork => log
    case Uncork => if m.corked == 1 && m.buffer != [] then log.(frames := log.frames + [Payload(m.buffer)]) else log
    case End(c, h) =>
      if m.finished then log
      else
        var frames := if c.Some? && Store(m, h).hasBody then log.frames + Direct(Store(m, h), c.value) else log.frames;
        Log(frames, Payload(LastWrite(m, call).buffer))
  }

  function Noted(hasBody: bool, calls: seq<Call>): Log
  {
    if calls == [] then Log([], "")
    else
      var n := |calls| - 1;
      Note(DoAll(hasBody, calls[..n]), Noted(hasBody, calls[..n]), calls[n])
  }

  lemma WriteShape(m: Message, c: Chunk, h: Header, log: Log, body: string)
    requires Shape(m, log, body) && !m.finished
    ensures var s := Store(m, h);
            && DoWrite(m, c, h).headerSet && !DoWrite(m, c, h).finished
            && Shape(DoWrite(m, c, h), if s.hasBody then log.(frames := log.frames + Direct(s, c)) else log,
                     body + if s.hasBody then c.octets else "")
  {
    hide Shape, Frames, Frame, Concat, Payload;
    StoreShape(m, h, log, body);
    assert body + "" == body;
    if Store(m, h).hasBody { BodyShape(Store(m, h), c, log, body); }
  }

  lemma StepShape(m: Message, call: Call, log: Log, body: string)
    requires Shape(m, log, body) && (call.Uncork? ==> m.finished || m.corked > 0)
    ensures Shape(Do(m, call), Note(m, log, call), body + Accepted(m, call))
  {
    hide Shape, Frames, Frame, Concat, Payload, Direct;
    assert body + "" == body;
    match call
    case WriteHead(h) => StoreShape(m, h, log, body);
    case FlushHeaders(h) => StoreShape(m, h, log, body); PlainShape(Store(m, h), "", log, body);
    case Write(c, h) => if !m.finished { WriteShape(m, c, h, log, body); }
    case Cork => CorkShape(m, log, body);
    case Uncork => UncorkShape(m, log, body);
    case End(c, h) => if !m.finished { EndStep(m, call, log, body); }
  }

  lemma CorkShape(m: Message, log: Log, body: string)
    requires Shape(m, log, body)
    ensures Shape(m.(corked := m.corked + 1), log, body)
  {
    hide Frames, Frame, Concat, Payload;
  }

  lemma EndStep(m: Message, call: Call, log: Log, body: string)
    requires Shape(m, log, body) && call.End? && !m.finished
    ensures Shape(Do(m, call), Note(m, log, call), body + Accepted(m, call))
  {
    hide Shape, Frames, Frame, Concat, Payload, Direct;
    var s := LastWrite(m, call);
    assert body + "" == body;
    StoreShape(m, call.h, log, body);
    if call.last.Some? {
      WriteShape(m, call.last.value, call.h, log, body);
    }
    EndShape(s, Note(m, log, call).(late := log.late), body + Accepted(m, call));
  }

  lemma {:induction false} CallsShape(hasBody: bool, calls: seq<Call>)
    requires Balanced(hasBody, calls)
    ensures Shape(DoAll(hasBody, calls), Noted(hasBody, calls), Body(hasBody, calls))
  {
    if calls == [] {
      NoFrames();
    } else {
      hide Shape, Do, Note, Accepted;
      var n := |calls| - 1;
      BalancedFront(hasBody, calls);
      CallsShape(hasBody, calls[..n]);
      StepShape(DoAll(hasBody, calls[..n]), calls[n], Noted(hasBody, calls[..n]), Body(hasBody, calls[..n]));
    }
  }

  lemma BalancedFront(hasBody: bool, calls: seq<Call>)
    requires Balanced(hasBody, calls) && calls != []
    ensures var n := |calls| - 1;
            && Balanced(hasBody, calls[..n])
            && (calls[n].Uncork? ==> DoAll(hasBody, calls[..n]).finished || DoAll(hasBody, calls[..n]).corked > 0)
  {
    hide DoAll;
    var n := |calls| - 1;
    forall i | 0 <= i < n ensures calls[..n][..i] == calls[..i] { }
  }

  // ---------------------------------------------------------------- held at the end

  // Payload is left for after the last chunk exactly if the end found something corked.
  lemma LateStep(m: Message, call: Call, log: Log, body: string)
    requires Shape(m, log, body) && call.End? && !m.finished
    requires Do(m, call).chunked && Do(m, call).hasBody
    ensures Note(m, log, call).late == "" <==> EndsClean(m, call)
  {
    hide Frames, Frame, Concat, Payload;
    NoFrames();
    var s := LastWrite(m, call);
    if call.last.Some? {
      PushChunk(m.buffer, call.last.value);
      assert m.headerSent ==> Store(m, call.h) == m;
    }
  }

  lemma {:induction false} LateExact(hasBody: bool, calls: seq<Call>)
    requires Balanced(hasBody, calls)
    ensures var m := DoAll(hasBody, calls);
            if m.finished then m.chunked && m.hasBody ==> (Noted(hasBody, calls).late == "" <==> Clean(hasBody, calls))
            else Clean(hasBody, calls)
  {
    if calls != [] {
      hide Shape, Do, Note, EndsClean;
      var n := |calls| - 1;
      var before := DoAll(hasBody, calls[..n]);
      BalancedFront(hasBody, calls);
      CleanFront(hasBody, calls);
      LateExact(hasBody, calls[..n]);
      CallsShape(hasBody, calls[..n]);
      var log, body := Noted(hasBody, calls[..n]), Body(hasBody, calls[..n]);
      if before.finished {
        AfterEnd(before, calls[n], log, body);
      } else if calls[n].End? {
        EndFinishes(before, calls[n]);
        if DoAll(hasBody, calls).chunked && DoAll(hasBody, calls).hasBody { LateStep(before, calls[n], log, body); }
      } else {
        OnlyEnd(before, calls[n]);
      }
    }
  }

  lemma CleanFront(hasBody: bool, calls: seq<Call>)
    requires calls != []
    ensures var n := |calls| - 1;
            Clean(hasBody, calls) <==>
              && Clean(hasBody, calls[..n])
              && (calls[n].End? && !DoAll(hasBody, calls[..n]).finished ==> EndsClean(DoAll(hasBody, calls[..n]), calls[n]))
  {
    hide DoAll, EndsClean;
    var n := |calls| - 1;
    assert forall i :: 0 <= i < n ==> calls[..n][i] == calls[i];
    forall i | 0 <= i <= n ensures calls[..n][..i] == calls[..i] { }
  }

  // Nothing changes after the end.
  lemma AfterEnd(m: Message, call: Call, log: Log, body: string)
    requires Shape(m, log, body) && m.finished
    ensures var t := Do(m, call);
            t.finished && t.chunked == m.chunked && t.hasBody == m.hasBody && t.emitted == m.emitted && Note(m, log, call) == log
  {
    hide Frames, Frame, Concat, Payload;
    assert m.emitted + "" == m.emitted;
  }

  lemma EndFinishes(m: Message, call: Call)
    requires call.End?
    ensures Do(m, call).finished
  { }

  lemma OnlyEnd(m: Message, call: Call)
    requires !call.End? && !m.finished
    ensures !Do(m, call).finished
  { }

  // ---------------------------------------------------------------- what the receiver sees

  // Whatever is called on a chunked message, in whatever order, with no uncork lacking
  // its cork: before the end a receiver has no complete body; after it, it reads exactly
  // what was written, and nothing follows, if and only if the end found nothing corked.
  lemma ChunkedBodyReceived(hasBody: bool, calls: seq<Call>)
    requires Balanced(hasBody, calls)
    requires var m := DoAll(hasBody, calls); m.headerSent && m.chunked && m.hasBody
    ensures var m := DoAll(hasBody, calls);
            && m.header <= m.emitted
            && (!m.finished ==> Decode(m.emitted[|m.header|..]) == None)
            && (m.finished ==>
                  (Decode(m.emitted[|m.header|..]) == Some((Body(hasBody, calls), "")) <==> Clean(hasBody, calls)))
  {
    hide Frames, Frame, Concat, Decode, Payload, DoAll, Body, Noted, Balanced, Clean;
    var m, log, body := DoAll(hasBody, calls), Noted(hasBody, calls), Body(hasBody, calls);
    CallsShape(hasBody, calls);
    LateExact(hasBody, calls);
    NoFrames();
    var rest := m.emitted[|m.header|..];
    assert rest == Frames(log.frames) + Ending(m, log);
    if m.finished {
      var after := LateFrame(log.late);
      assert rest == Frames(log.frames) + LAST_CHUNK + after;
      DecodeFrames(log.frames, after);
      LateIsVisible(log.late);
      assert log.late == "" ==> Concat(log.frames) + (log.late + "") == Concat(log.frames);
    } else {
      assert rest == Frames(log.frames);
      FramesHaveNoEnd(log.frames);
    }
  }

  lemma LateIsVisible(payload: string)
    ensures LateFrame(payload) == "" <==> payload == ""
  { }

  // A message that is not chunked is its header once and everything written.
  lemma PlainBodyReceived(hasBody: bool, calls: seq<Call>)
    requires Balanced(hasBody, calls)
    ensures var m := DoAll(hasBody, calls);
            && (!m.headerSent ==> m.emitted == "" && Body(hasBody, calls) == "")
            && (m.headerSent && !m.chunked ==> m.emitted == m.header + Body(hasBody, calls))
            && (m.headerSent && !m.hasBody ==> m.emitted == m.header && Body(hasBody, calls) == "")
  {
    hide Frames, Frame, Concat, Payload, DoAll, Body, Noted, Balanced;
    CallsShape(hasBody, calls);
    NoFrames();
    var m := DoAll(hasBody, calls);
    assert m.header + "" == m.header && m.header + ("" + "") == m.header;
  }

  // ---------------------------------------------------------------- corks

  // The calls without their corks and uncorks.
  function Loose(calls: seq<Call>): seq<Call>
  {
    if calls == [] then []
    else
      var n := |calls| - 1;
      if calls[n].Cork? || calls[n].Uncork? then Loose(calls[..n]) else Loose(calls[..n]) + [calls[n]]
  }

  predicate Alike(a: Message, b: Message)
  {
    a.headerSet == b.headerSet && a.header == b.header && a.hasBody == b.hasBody && a.chunked == b.chunked && a.finished == b.finished
  }

  lemma PutAlike(m: Message, c: Chunk)
    ensures Alike(PutBody(m, c), m) && Alike(DoUncork(m), m) && Alike(PutEnd(m), m) && Alike(Put(m, ""), m)
  {
    hide Frame, Payload;
  }

  lemma WriteAlike(a: Message, b: Message, c: Chunk, h: Header)
    requires Alike(a, b)
    ensures Alike(Store(a, h), Store(b, h)) && Alike(DoWrite(a, c, h), DoWrite(b, c, h))
  {
    hide PutBody;
    PutAlike(Store(a, h), c);
    PutAlike(Store(b, h), c);
  }

  lemma EndAlike(a: Message, b: Message, c: Option<Chunk>, h: Header)
    requires Alike(a, b)
    ensures Alike(DoEnd(a, c, h), DoEnd(b, c, h))
  {
    hide DoWrite, Store, PutEnd, DoUncork;
    var chunk := if c.Some? then c.value else Chunk("", 0, true);
    WriteAlike(a, b, chunk, h);
    var s := if c.Some? then DoWrite(a, c.value, h) else Store(a, h);
    var t := if c.Some? then DoWrite(b, c.value, h) else Store(b, h);
    PutAlike(s, chunk);
    PutAlike(t, chunk);
    PutAlike(PutEnd(s).(corked := 1), chunk);
    PutAlike(PutEnd(t).(corked := 1), chunk);
  }

  lemma AlikeStep(a: Message, b: Message, call: Call)
    requires Alike(a, b)
    ensures Accepted(a, call) == Accepted(b, call)
    ensures if call.Cork? || call.Uncork? then Alike(Do(a, call), b) else Alike(Do(a, call), Do(b, call))
  {
    var none := Chunk("", 0, true);
    match call
    case WriteHead(h) =>
    case FlushHeaders(h) => PutAlike(Store(a, h), none); PutAlike(Store(b, h), none);
    case Write(c, h) => hide DoWrite; WriteAlike(a, b, c, h);
    case Cork =>
    case Uncork => hide DoUncork; PutAlike(a, none);
    case End(c, h) => hide DoEnd; EndAlike(a, b, c, h);
  }

  // Corks change neither the body nor the header, only the chunks.
  lemma {:induction false} LooseBody(hasBody: bool, calls: seq<Call>)
    ensures Alike(DoAll(hasBody, calls), DoAll(hasBody, Loose(calls)))
    ensures Body(hasBody, calls) == Body(hasBody, Loose(calls))
  {
    hide Do, Accepted, Alike;
    AlikeSelf(New(hasBody));
    if calls != [] {
      var n := |calls| - 1;
      LooseBody(hasBody, calls[..n]);
      AlikeStep(DoAll(hasBody, calls[..n]), DoAll(hasBody, Loose(calls[..n])), calls[n]);
      var loose := Loose(calls[..n]);
      assert (loose + [calls[n]])[..|loose|] == loose;
      if calls[n].Cork? || calls[n].Uncork? { NoneAccepted(DoAll(hasBody, calls[..n]), calls[n]); }
    }
  }

  lemma AlikeSelf(m: Message)
    ensures Alike(m, m)
  { }

  lemma NoneAccepted(m: Message, call: Call)
    requires call.Cork? || call.Uncork?
    ensures Accepted(m, call) == ""
  { }

  lemma {:induction false} LooseHoldsNothing(hasBody: bool, calls: seq<Call>)
    ensures Balanced(hasBody, Loose(calls)) && Clean(hasBody, Loose(calls))
    ensures var m := DoAll(hasBody, Loose(calls)); m.buffer == [] && (m.finished || m.corked == 0)
  {
    if calls != [] {
      hide Do, EndsClean;
      var n := |calls| - 1;
      LooseHoldsNothing(hasBody, calls[..n]);
      var loose := Loose(calls[..n]);
      if !(calls[n].Cork? || calls[n].Uncork?) {
        var all := loose + [calls[n]];
        assert all[..|loose|] == loose;
        BalancedMore(hasBody, loose, calls[n]);
        CleanFront(hasBody, all);
        LooseStep(DoAll(hasBody, loose), calls[n]);
      }
    }
  }

  lemma BalancedMore(hasBody: bool, calls: seq<Call>, call: Call)
    requires Balanced(hasBody, calls) && !call.Uncork?
    ensures Balanced(hasBody, calls + [call])
  {
    hide DoAll;
    forall i | 0 <= i < |calls| ensures (calls + [call])[..i] == calls[..i] { }
  }

  lemma LooseStep(m: Message, call: Call)
    requires m.buffer == [] && (m.finished || m.corked == 0) && !call.Cork? && !call.Uncork?
    ensures Do(m, call).buffer == [] && (Do(m, call).finished || Do(m, call).corked == 0)
    ensures call.End? && !m.finished ==> EndsClean(m, call)
  {
    hide Frame, Payload;
  }

  // Merging corked writes into one chunk cannot be seen by the receiver.
  lemma CorksInvisible(hasBody: bool, calls: seq<Call>)
    requires Balanced(hasBody, calls) && Clean(hasBody, calls)
    requires var m := DoAll(hasBody, calls); m.finished && m.chunked && m.hasBody
    ensures var a, b := DoAll(hasBody, calls), DoAll(hasBody, Loose(calls));
            && a.header == b.header && a.header <= a.emitted && b.header <= b.emitted
            && Decode(a.emitted[|a.header|..]) == Decode(b.emitted[|b.header|..])
  {
    hide Decode, DoAll, Body, Balanced, Clean, Loose;
    LooseBody(hasBody, calls);
    LooseHoldsNothing(hasBody, calls);
    Headed(hasBody, calls);
    Headed(hasBody, Loose(calls));
    ChunkedBodyReceived(hasBody, calls);
    ChunkedBodyReceived(hasBody, Loose(calls));
  }

  lemma Headed(hasBody: bool, calls: seq<Call>)
    requires Balanced(hasBody, calls) && DoAll(hasBody, calls).finished
    ensures DoAll(hasBody, calls).headerSent
  {
    hide Frames, Frame, Concat, Payload, DoAll, Body, Noted, Balanced;
    CallsShape(hasBody, calls);
  }

  // ---------------------------------------------------------------- failing inputs

  lemma DoAllNext(hasBody: bool, calls: seq<Call>, call: Call)
    ensures DoAll(hasBody, calls + [call]) == Do(DoAll(hasBody, calls), call)
    ensures Body(hasBody, calls + [call]) == Body(hasBody, calls) + Accepted(DoAll(hasBody, calls), call)
  {
    hide Do, Accepted;
    assert (calls + [call])[..|calls|] == calls;
  }

  // A chunked response that writes a and, corked, b.
  function CorkedCalls(h: Header, a: Chunk, b: Chunk): seq<Call>
  {
    [WriteHead(h)] + [Write(a, h)] + [Cork] + [Write(b, h)]
  }

  lemma CorkedState(h: Header, a: Chunk, b: Chunk)
    requires h.chunked && h.hasBody && a.octets != "" && b.octets != ""
    ensures var m := DoAll(true, CorkedCalls(h, a, b));
            && m == Message(true, h.text, true, true, true, 1, [b], false, h.text + Frame(a.octets))
            && Body(true, CorkedCalls(h, a, b)) == a.octets + b.octets && Balanced(true, CorkedCalls(h, a, b))
  {
    hide Frame, Payload;
    var c1, c2, c3, c4 := WriteHead(h), Write(a, h), Cork, Write(b, h);
    assert [] + [c1] == [c1];
    DoAllNext(true, [], c1);
    DoAllNext(true, [c1], c2);
    DoAllNext(true, [c1] + [c2], c3);
    DoAllNext(true, [c1] + [c2] + [c3], c4);
    assert "" + (h.text + Frame(a.octets)) == h.text + Frame(a.octets);
    assert "" + "" + a.octets + "" + b.octets == a.octets + b.octets;
    assert [] + [b] == [b];
    assert forall i :: 0 <= i < 4 ==> !CorkedCalls(h, a, b)[i].Uncork?;
  }

  // Ended while corked: what was held comes after the last chunk, and the receiver does not
  // read what was written.
  lemma CorkedEndBreaks(h: Header, a: Chunk, b: Chunk)
    requires h.chunked && h.hasBody && a.octets != "" && b.octets != ""
    ensures var calls := CorkedCalls(h, a, b) + [End(None, h)];
            var m := DoAll(true, calls);
            && Balanced(true, calls) && !Clean(true, calls) && Body(true, calls) == a.octets + b.octets
            && m.emitted == h.text + Frame(a.octets) + LAST_CHUNK + Frame(b.octets)
            && Decode(m.emitted[|h.text|..]) != Some((Body(true, calls), ""))
  {
    hide Frame, Payload, Decode;
    var front, last := CorkedCalls(h, a, b), End(None, h);
    var calls := front + [last];
    CorkedState(h, a, b);
    DoAllNext(true, front, last);
    PushChunk([], b);
    NoFrames();
    assert [] + [b] == [b] && "" + b.octets == b.octets;
    var m := DoAll(true, calls);
    assert m.finished && m.chunked && m.hasBody && m.headerSent && m.header == h.text;
    BalancedMore(true, front, last);
    CleanFront(true, calls);
    assert calls[..|front|] == front && calls[|front|] == last;
    assert a.octets + b.octets + "" == a.octets + b.octets;
    ChunkedBodyReceived(true, calls);
  }

  function UncorkedFirst(h: Header, a: Chunk): seq<Call> { [WriteHead(h)] + [Write(a, h)] + [Uncork] }

  lemma UncorkedState(h: Header, a: Chunk)
    requires h.chunked && h.hasBody && a.octets != ""
    ensures DoAll(true, UncorkedFirst(h, a)) == Message(true, h.text, true, true, true, -1, [], false, h.text + Frame(a.octets))
  {
    hide Frame, Payload;
    var c1, c2, c3 := WriteHead(h), Write(a, h), Uncork;
    assert [] + [c1] == [c1];
    DoAllNext(true, [], c1);
    DoAllNext(true, [c1], c2);
    DoAllNext(true, [c1] + [c2], c3);
    assert "" + (h.text + Frame(a.octets)) == h.text + Frame(a.octets);
  }

  // b is held, c goes out, and b comes after the last chunk.
  lemma Overtaken(m: Message, h: Header, b: Chunk, c: Chunk)
    requires m.headerSet && m.headerSent && m.hasBody && m.chunked && m.corked == -1 && m.buffer == [] && !m.finished
    requires b.octets != "" && c.octets != ""
    ensures Do(Do(Do(Do(m, Write(b, h)), Cork), Write(c, h)), End(None, h)).emitted ==
            m.emitted + Frame(c.octets) + LAST_CHUNK + Frame(b.octets)
  {
    hide Frame, Payload;
    PushChunk([], b);
    NoFrames();
    assert [] + [b] == [b] && "" + b.octets == b.octets;
    assert Do(Do(m, Write(b, h)), Cork) == m.(corked := 0, buffer := [b]);
  }

  // An uncork without its cork, and then a cork: b is held at a count below zero, c
  // overtakes it, and b comes after the last chunk.
  lemma UnbalancedReorders(h: Header, a: Chunk, b: Chunk, c: Chunk)
    requires h.chunked && h.hasBody && a.octets != "" && b.octets != "" && c.octets != ""
    ensures var calls := UncorkedFirst(h, a) + [Write(b, h)] + [Cork] + [Write(c, h)] + [End(None, h)];
            var m := DoAll(true, calls);
            && m.emitted == h.text + Frame(a.octets) + Frame(c.octets) + LAST_CHUNK + Frame(b.octets)
            && Decode(m.emitted[|h.text|..]) == Some((a.octets + c.octets, Frame(b.octets)))
  {
    hide Frame, Payload, Decode, Do, UncorkedFirst;
    var front, m := UncorkedFirst(h, a), DoAll(true, UncorkedFirst(h, a));
    UncorkedState(h, a);
    DoAllNext(true, front, Write(b, h));
    DoAllNext(true, front + [Write(b, h)], Cork);
    DoAllNext(true, front + [Write(b, h)] + [Cork], Write(c, h));
    DoAllNext(true, front + [Write(b, h)] + [Cork] + [Write(c, h)], End(None, h));
    Overtaken(m, h, b, c);
    TwoFrames(a.octets, c.octets, Frame(b.octets));
    var text := h.text + Frame(a.octets) + Frame(c.octets) + LAST_CHUNK + Frame(b.octets);
    assert text[|h.text|..] == Frame(a.octets) + Frame(c.octets) + LAST_CHUNK + Frame(b.octets);
  }

  lemma TwoFrames(x: string, y: string, rest: string)
    requires x != "" && y != ""
    ensures Decode(Frame(x) + Frame(y) + LAST_CHUNK + rest) == Some((x + y, rest))
  {
    hide Frame, Decode;
    NoFrames();
    PushFrame([], x);
    PushFrame([x], y);
    assert [] + [x] == [x] && [x] + [y] == [x, y] && "" + Frame(x) == Frame(x) && "" + x == x;
    DecodeFrames([x, y], rest);
  }
}
