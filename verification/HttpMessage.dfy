/**
 An outgoing message on a healthy connection as a function of the calls made on it:
 the octets it hands over, in terms of what was written, corked and ended.
 */
module HttpMessage {
  import opened Texts
  import opened ChunkedBody
  import opened HttpQueue

  datatype Message = Message(
    headerSet: bool,       // `_header` is not null
    header: string,
    hasBody: bool,
    chunked: bool,
    headerSent: bool,
    corked: int,
    buffer: seq<Chunk>,    // `kChunkedBuffer`
    finished: bool,
    emitted: string)       // octets handed over, on the wire or queued

  datatype Call =
    | WriteHead(h: Header)
    | FlushHeaders(h: Header)
    | Write(chunk: Chunk, h: Header)
    | Cork
    | Uncork
    | End(last: Option<Chunk>, h: Header)

  function New(hasBody: bool): Message { Message(false, "", hasBody, false, false, 0, [], false, "") }

  // The octets of a write, with the header in front if it is the first.
  function First(header: string, headerSent: bool, x: string): string { if headerSent then x else header + x }

  function Put(m: Message, x: string): Message
  {
    m.(emitted := m.emitted + First(m.header, m.headerSent, x), headerSent := true)
  }

  // The first header counts.
  function Store(m: Message, h: Header): Message
  {
    if m.headerSet then m
    else m.(headerSet := true, header := h.text, hasBody := m.hasBody && h.hasBody, chunked := h.chunked)
  }

  // A chunk is held back while corked, unless it must bring the header.
  predicate Holds(m: Message) { m.chunked && m.corked != 0 && m.headerSent }

  function PutBody(m: Message, c: Chunk): Message
  {
    if !m.chunked || c.octets == "" then Put(m, c.octets)
    else if Holds(m) then m.(buffer := m.buffer + [c])
    else Put(m, Frame(c.octets))
  }

  function DoWrite(m: Message, c: Chunk, h: Header): Message
  {
    if m.finished then m
    else
      var s := Store(m, h);
      if s.hasBody then PutBody(s, c) else s
  }

  // The uncork that brings the count to zero writes what is held as one chunk.
  function DoUncork(m: Message): Message
  {
    var s := m.(corked := m.corked - 1);
    if s.corked != 0 || s.buffer == [] then s else Put(s, Frame(Payload(s.buffer))).(buffer := [])
  }

  function PutEnd(m: Message): Message
  {
    Put(m, if m.hasBody && m.chunked then LAST_CHUNK else "")
  }

  // The last chunk goes out before what is still held.
  function DoEnd(m: Message, c: Option<Chunk>, h: Header): Message
  {
    if m.finished then m
    else
      var s := if c.Some? then DoWrite(m, c.value, h) else Store(m, h);
      DoUncork(PutEnd(s).(corked := 1)).(finished := true)
  }

  function Do(m: Message, call: Call): Message
  {
    match call
    case WriteHead(h) => Store(m, h)
    case FlushHeaders(h) => Put(Store(m, h), "")
    case Write(c, h) => DoWrite(m, c, h)
    case Cork => m.(corked := m.corked + 1)
    case Uncork => DoUncork(m)
    case End(c, h) => DoEnd(m, c, h)
  }

  function DoAll(hasBody: bool, calls: seq<Call>): Message
  {
    if calls == [] then New(hasBody)
    else Do(DoAll(hasBody, calls[..|calls| - 1]), calls[|calls| - 1])
  }

  predicate ValidCall(call: Call)
  {
    && (call.WriteHead? || call.FlushHeaders? || call.Write? || call.End? ==> call.h.text != "")
    && (call.Write? ==> ValidChunk(call.chunk))
    && (call.End? && call.last.Some? ==> ValidChunk(call.last.value))
  }

  // ---------------------------------------------------------------- what the calls mean

  // The octets a call adds to the body.
  function Accepted(m: Message, call: Call): string
  {
    if m.finished || !(call.Write? || call.End?) || !Store(m, call.h).hasBody then ""
    else if call.Write? then call.chunk.octets
    else if call.last.Some? then call.last.value.octets
    else ""
  }

  // The body: everything written until the end, if there may be a body.
  function Body(hasBody: bool, calls: seq<Call>): string
  {
    if calls == [] then ""
    else
      var n := |calls| - 1;
      Body(hasBody, calls[..n]) + Accepted(DoAll(hasBody, calls[..n]), calls[n])
  }

  // Until the end, no uncork without its cork.
  predicate Balanced(hasBody: bool, calls: seq<Call>)
  {
    forall i :: 0 <= i < |calls| && calls[i].Uncork? ==>
      DoAll(hasBody, calls[..i]).finished || DoAll(hasBody, calls[..i]).corked > 0
  }

  // The call finds nothing corked: nothing is held, and its own chunk will not be.
  predicate EndsClean(m: Message, call: Call)
    requires call.End?
  {
    m.buffer == [] && (call.last.Some? && m.corked != 0 && m.headerSent ==> call.last.value.octets == "")
  }

  // The call that ends the message, if there is one, finds nothing corked.
  predicate Clean(hasBody: bool, calls: seq<Call>)
  {
    forall i :: 0 <= i < |calls| && calls[i].End? && !DoAll(hasBody, calls[..i]).finished ==>
      EndsClean(DoAll(hasBody, calls[..i]), calls[i])
  }
}
