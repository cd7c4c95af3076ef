/**
 Pipelined HTTP/1.1 responses on one server connection: `OutgoingMessage` as
 `ServerResponse` uses it, and the per-connection state of `_http_server.js`.
 A response writes to the socket only while it owns it; until then its writes
 wait in `outputData`.
 */
module Http {
  import opened Texts
  import opened ChunkedBody
  import opened HttpQueue
  import opened HttpMessage
  import opened HttpSession

  function Range(a: nat, b: nat): (r: seq<nat>)
    requires a <= b
    ensures |r| == b - a && forall i :: 0 <= i < |r| ==> r[i] == a + i
  {
    seq(b - a, i => a + i)
  }

  class Response {
    const conn: Connection
    const index: nat               // number of the request on its connection

    var outputData: seq<Datum>
    var outputSize: int
    var headerSet: bool            // `_header` is not null
    var header: string
    var headerSent: bool
    var hasBody: bool
    var chunkedEncoding: bool
    var last: bool
    var corked: int
    var chunkedBuffer: seq<Chunk>
    var chunkedLength: nat
    var finished: bool
    var destroyed: bool
    var attached: bool             // `socket` is not null
    var armed: bool                // the callback that emits 'finish' is due
    var fired: bool                // 'finish' has been emitted

    ghost var sent: string         // octets of this response on the wire
    ghost var base: string         // what was on the wire when it got the socket
    ghost var emitted: string      // octets handed over, on the wire or queued

    constructor (conn: Connection, index: nat, hasBody: bool)
      ensures this.conn == conn && this.index == index
      ensures Fresh() && this.hasBody == hasBody
    {
      this.conn, this.index := conn, index;
      outputData, outputSize := [], 0;
      headerSet, header, headerSent := false, "", false;
      this.hasBody, chunkedEncoding, last := hasBody, false, false;
      corked, chunkedBuffer, chunkedLength := 0, [], 0;
      finished, destroyed, attached := false, false, false;
      sent, base, emitted, armed, fired := "", "", "", false, false;
    }

    ghost predicate Fresh()
      reads this
    {
      && outputData == [] && outputSize == 0 && !headerSet && header == "" && !headerSent && !chunkedEncoding
      && corked == 0 && chunkedBuffer == [] && chunkedLength == 0
      && !finished && !destroyed && !attached
      && sent == "" && emitted == "" && !armed && !fired && !last
    }

    // The message this response is.
    ghost function Msg(): Message
      reads `headerSet, `header, `hasBody, `chunkedEncoding, `headerSent, `corked, `chunkedBuffer, `finished, `emitted
    {
      Message(headerSet, header, hasBody, chunkedEncoding, headerSent, corked, chunkedBuffer, finished, emitted)
    }

    // With the mark of the last response.
    ghost function Shown(): Reply
      reads `headerSet, `header, `hasBody, `chunkedEncoding, `headerSent, `corked, `chunkedBuffer, `finished, `emitted, `last
    {
      Reply(Msg(), last)
    }

    // ------------------------------------------------------------ invariants of one response

    // Wire and queue hold exactly what was handed over; the size counts the queue.
    ghost predicate Local()
      reads `sent, `outputData, `outputSize, `emitted, `attached, `base, conn`wire, conn`status
    {
      && sent + Octets(outputData) == emitted
      && outputSize == Lengths(outputData)
      && (attached ==> conn.wire == base + sent && conn.status != Ended)
    }

    predicate OwnsSocket()
      reads `attached, conn`status
    {
      attached && conn.status == Open
    }

    predicate Drops()
      reads `attached, conn`status
    {
      attached && conn.status == Closed
    }

    // The header and the cork buffer.
    ghost predicate Basic()
      reads `headerSet, `header, `headerSent, `outputData, `emitted, `sent, `chunkedEncoding, `chunkedBuffer, `chunkedLength
    {
      && (headerSet ==> header != "")
      && (headerSent ==> headerSet)
      && (!headerSent ==> outputData == [] && emitted == "" && sent == "")
      && (chunkedEncoding ==> headerSet)
      && (chunkedBuffer != [] ==> headerSent && chunkedEncoding)
      && chunkedLength == |Payload(chunkedBuffer)|
    }

    // The life of the response between calls.
    ghost predicate Flags()
      reads `finished, `headerSent, `chunkedBuffer, `armed, `fired, `attached
      reads `outputSize, `outputData, `destroyed, `sent, `emitted, conn`status, conn`settled
    {
      && (finished ==> chunkedBuffer == [] && (headerSent || destroyed))
      && (armed ==> finished)
      && (fired ==> armed && !attached)
      && (armed && !fired ==> attached)
      && (headerSent && !attached && !fired ==> outputSize > 0)
      && (attached && conn.status == Open ==> outputData == [])
      && (conn.status == Open && finished && !armed ==> HasFinish(outputData))
      && (!finished ==> !HasFinish(outputData))
      && (destroyed ==> (conn.status == Closed || conn.status == Ended) && (attached || fired))
      && (index < conn.settled ==> finished && fired && headerSent && sent == emitted)
    }

    ghost predicate Valid()
      reads this, conn
    {
      Local() && Basic() && Flags()
    }

    // ------------------------------------------------------------ writing to the socket or the queue

    // The loop of `_flushOutput`.
    method WriteQueue()
      requires OwnsSocket() && conn.wire == base + sent
      modifies `sent, `armed, conn`wire
      ensures conn.wire == base + sent
      ensures sent == old(sent) + Octets(outputData)
      ensures armed == (old(armed) || HasFinish(outputData))
    {
      hide HasFinish, Octets;
      NothingQueued();
      for i := 0 to |outputData|
        invariant sent == old(sent) + Octets(outputData[..i])
        invariant conn.wire == base + sent
        invariant armed == (old(armed) || HasFinish(outputData[..i]))
      {
        var d := outputData[i];
        Push(outputData[..i], d);
        PushFinish(outputData[..i], d);
        assert outputData[..i + 1] == outputData[..i] + [d];
        assert base + sent + d.octets == base + (sent + d.octets);
        assert old(sent) + Octets(outputData[..i]) + d.octets == old(sent) + (Octets(outputData[..i]) + d.octets);
        conn.wire := conn.wire + d.octets;
        sent := sent + d.octets;
        armed := armed || d.finish;
      }
      assert outputData[..|outputData|] == outputData;
    }

    static lemma NothingQueued()
      ensures Octets([]) == "" && !HasFinish([])
    {
    }

    // `_flushOutput`: the queue goes to the socket in order.
    method FlushOutput()
      requires Local() && OwnsSocket()
      modifies `outputData, `outputSize, `sent, `armed, conn`wire, conn`outgoingData
      ensures Local()
      ensures outputData == [] && outputSize == 0
      ensures armed == (old(armed) || HasFinish(old(outputData)))
      ensures conn.outgoingData - outputSize == old(conn.outgoingData - outputSize)
    {
      hide HasFinish;
      WriteQueue();
      outputData := [];
      conn.outgoingData := conn.outgoingData - outputSize;
      outputSize := 0;
    }

    // A write to the socket this response owns, after what is still queued.
    method WriteSocket(d: Datum)
      requires Local() && OwnsSocket()
      modifies `outputData, `outputSize, `sent, `emitted, `armed, conn`wire, conn`outgoingData
      ensures Local()
      ensures conn.outgoingData - outputSize == old(conn.outgoingData - outputSize)
      ensures outputData == [] && armed == (old(armed) || HasFinish(old(outputData)) || d.finish)
      ensures emitted == old(emitted) + d.octets
    {
      hide HasFinish, Lengths;
      NothingQueued();
      if |outputData| > 0 {
        FlushOutput();
      }
      assert sent == emitted;
      assert base + sent + d.octets == base + (sent + d.octets);
      Deliver(d);
    }

    method Deliver(d: Datum)
      modifies `sent, `emitted, `armed, conn`wire
      ensures conn.wire == old(conn.wire) + d.octets && sent == old(sent) + d.octets
      ensures emitted == old(emitted) + d.octets && armed == (old(armed) || d.finish)
    {
      conn.wire := conn.wire + d.octets;
      sent, emitted := sent + d.octets, emitted + d.octets;
      armed := armed || d.finish;
    }

    // A write that waits.
    method Enqueue(d: Datum)
      requires Local()
      modifies `outputData, `outputSize, `emitted, conn`outgoingData
      ensures Local()
      ensures conn.outgoingData - outputSize == old(conn.outgoingData - outputSize)
      ensures outputData == old(outputData) + [d] && outputSize == old(outputSize) + d.length
      ensures emitted == old(emitted) + d.octets
    {
      hide Octets, Lengths;
      Push(outputData, d);
      assert sent + (Octets(outputData) + d.octets) == emitted + d.octets;
      Queue(outputData + [d], d.length, emitted + d.octets);
    }

    method Queue(data: seq<Datum>, length: nat, ghost text: string)
      modifies `outputData, `outputSize, `emitted, conn`outgoingData
      ensures outputData == data && outputSize == old(outputSize) + length && emitted == text
      ensures conn.outgoingData == old(conn.outgoingData) + length
    {
      outputData, emitted := data, text;
      outputSize := outputSize + length;
      conn.outgoingData := conn.outgoingData + length;
    }

    // `_writeRaw`: to the socket if this response owns it; nowhere if the socket is
    // destroyed; to the queue otherwise.
    method WriteRaw(d: Datum)
      requires Local()
      modifies `outputData, `outputSize, `sent, `emitted, `armed, conn`wire, conn`outgoingData
      ensures Local()
      ensures conn.outgoingData - outputSize == old(conn.outgoingData - outputSize)
      ensures !OwnsSocket() ==> conn.wire == old(conn.wire) && sent == old(sent) && armed == old(armed)
      ensures OwnsSocket() ==> outputData == [] && armed == (old(armed) || HasFinish(old(outputData)) || d.finish)
      ensures !OwnsSocket() && !Drops() ==> outputData == old(outputData) + [d] && outputSize == old(outputSize) + d.length
      ensures Drops() ==> emitted == old(emitted) && outputData == old(outputData)
      ensures !Drops() ==> emitted == old(emitted) + d.octets
    {
      hide HasFinish, Octets, Lengths;
      if attached && conn.status == Closed {
        return;
      } else if attached && conn.status == Open {
        WriteSocket(d);
      } else {
        Enqueue(d);
      }
    }

    // The header in front of a write that is not a string.
    method UnshiftHeader()
      requires Local() && outputData == [] && emitted == ""
      modifies `outputData, `outputSize, `emitted, conn`outgoingData
      ensures Local()
      ensures conn.outgoingData - outputSize == old(conn.outgoingData - outputSize)
      ensures outputSize == old(outputSize) + |header| && emitted == header
      ensures !HasFinish(outputData)
    {
      hide Octets, Lengths, HasFinish;
      var d := Datum(header, |header|, true, false);
      Unshift(d, outputData);
      PushFinish(outputData, d);
      NothingQueued();
      assert [d] + outputData == outputData + [d];
      Queue([d] + outputData, |header|, header);
    }

    // What a write does apart from the text.
    twostate predicate Moved()
      reads this, conn
    {
      && Local() && Basic()
      && conn.outgoingData - outputSize == old(conn.outgoingData - outputSize)
      && (!OwnsSocket() ==> conn.wire == old(conn.wire) && sent == old(sent))
      && (OwnsSocket() ==> outputData == [])
      && (!attached ==> outputSize >= old(outputSize) + (if headerSent && !old(headerSent) then |header| else 0))
    }

    // `_send`: the first write carries the header, in the same string if it can.
    method Send(d: Datum)
      requires Local() && Basic() && (headerSet || Drops()) && (OwnsSocket() ==> outputData == [])
      modifies `headerSent, `outputData, `outputSize, `sent, `emitted, `armed, conn`wire, conn`outgoingData
      ensures Moved()
      ensures headerSent == (old(headerSent) || headerSet)
      ensures armed == (old(armed) || (d.finish && OwnsSocket()))
      ensures HasFinish(outputData) <==> HasFinish(old(outputData)) || (d.finish && !OwnsSocket() && !Drops())
      ensures !Drops() ==> emitted == old(emitted) + First(header, old(headerSent), d.octets)
    {
      hide HasFinish, Octets, Lengths, Payload;
      var d' := d;
      if !headerSent && headerSet {
        if d.inline {
          d' := Datum(header + d.octets, |header| + d.length, true, d.finish);
        } else {
          UnshiftHeader();
        }
        headerSent := true;
      }
      PushFinish(outputData, d');
      WriteRaw(d');
    }

    // ------------------------------------------------------------ frames

    // A write of x that carries no finish callback.
    twostate predicate Wrote(x: string)
      reads this, conn
    {
      && Moved() && headerSent && armed == old(armed)
      && (HasFinish(outputData) <==> HasFinish(old(outputData)))
      && (!Drops() ==> emitted == old(emitted) + First(header, old(headerSent), x))
    }

    method SendPlain(octets: string, length: nat, inline: bool)
      requires Local() && Basic() && headerSet && (OwnsSocket() ==> outputData == [])
      modifies `headerSent, `outputData, `outputSize, `sent, `emitted, `armed, conn`wire, conn`outgoingData
      ensures Wrote(octets)
    {
      hide HasFinish, Octets, Lengths, Payload, First;
      Send(Datum(octets, length, inline, false));
    }

    // Another write after x, since the text was `before` and the header `due`.
    method SendMore(ghost before: string, ghost due: bool, ghost x: string, octets: string, length: nat, inline: bool)
      requires Local() && Basic() && headerSet && headerSent && (OwnsSocket() ==> outputData == [])
      requires !Drops() ==> emitted == before + First(header, due, x)
      modifies `headerSent, `outputData, `outputSize, `sent, `emitted, `armed, conn`wire, conn`outgoingData
      ensures Moved() && headerSent && armed == old(armed)
      ensures HasFinish(outputData) <==> HasFinish(old(outputData))
      ensures !Drops() ==> emitted == before + First(header, due, x + octets)
    {
      hide HasFinish, Octets, Lengths, Payload, Local, Basic;
      assert before + First(header, due, x) + octets == before + First(header, due, x + octets);
      SendPlain(octets, length, inline);
    }

    // A chunk of a chunked body: its size, the data in one or more pieces, and CRLFs.
    method SendFrame(len: nat, chunks: seq<Chunk>)
      requires Local() && Basic() && headerSet && (OwnsSocket() ==> outputData == [])
      requires len == |Payload(chunks)|
      modifies `headerSent, `outputData, `outputSize, `sent, `emitted, `armed, conn`wire, conn`outgoingData
      ensures Wrote(Frame(Payload(chunks)))
    {
      hide HasFinish, Octets, Lengths, Payload, ToHex, Local, Basic, First;
      ghost var before, due := emitted, headerSent;
      ghost var x := ToHex(len);
      SendPlain(ToHex(len), |ToHex(len)|, true);
      SendMore(before, due, x, CRLF, 2, false);
      x := x + CRLF;
      NoPayload();
      assert chunks[..0] == [] && x + "" == x;
      for n := 0 to |chunks|
        invariant x == ToHex(len) + CRLF + Payload(chunks[..n])
        invariant Wrote(x)
      {
        PushChunk(chunks[..n], chunks[n]);
        assert chunks[..n + 1] == chunks[..n] + [chunks[n]];
        assert ToHex(len) + CRLF + Payload(chunks[..n]) + chunks[n].octets ==
               ToHex(len) + CRLF + (Payload(chunks[..n]) + chunks[n].octets);
        SendMore(before, due, x, chunks[n].octets, chunks[n].length, chunks[n].inline);
        x := x + chunks[n].octets;
      }
      assert chunks[..|chunks|] == chunks;
      SendMore(before, due, x, CRLF, 2, false);
    }

    static lemma NoPayload()
      ensures Payload([]) == ""
    {
    }

    // ------------------------------------------------------------ the methods a server program calls

    // What every call keeps for the connection.
    twostate predicate Kept()
      reads this, conn
    {
      && Valid()
      && conn.outgoingData - outputSize == old(conn.outgoingData - outputSize)
      && (!OwnsSocket() ==> conn.wire == old(conn.wire) && sent == old(sent))
    }

    // `writeHead`, also when it is called implicitly.
    method StoreHeader(h: Header)
      requires Valid() && !headerSet && h.text != ""
      modifies `headerSet, `header, `hasBody, `chunkedEncoding, `last
      ensures Valid() && last == Marked(old(last), h)
      ensures Msg() == Store(old(Msg()), h)
    {
      hide Payload, Local, HasFinish;
      SetHeader(h);
    }

    method SetHeader(h: Header)
      modifies `headerSet, `header, `hasBody, `chunkedEncoding, `last
      ensures headerSet && header == h.text && chunkedEncoding == h.chunked && last == Marked(old(last), h)
      ensures hasBody == (old(hasBody) && h.hasBody)
    {
      headerSet, header := true, h.text;
      hasBody, chunkedEncoding := hasBody && h.hasBody, h.chunked;
      last := if h.afresh then h.last else last || h.last;
    }

    // `writeHead` called by the program; a second call throws.
    method WriteHead(h: Header)
      requires Valid() && h.text != ""
      modifies `headerSet, `header, `hasBody, `chunkedEncoding, `last
      ensures Valid() && last == LastAfter(old(Msg()), old(last), Call.WriteHead(h))
      ensures Msg() == Do(old(Msg()), Call.WriteHead(h))
    {
      hide Valid;
      if !headerSet {
        StoreHeader(h);
      }
    }

    method Cork()
      requires Valid()
      modifies `corked
      ensures Valid() && Msg() == Do(old(Msg()), Call.Cork)
    {
      hide Payload, Local, Basic, HasFinish;
      corked := corked + 1;
    }

    // The held chunks go out as one.
    method SendBuffered()
      requires Local() && Basic() && (OwnsSocket() ==> outputData == []) && chunkedBuffer != []
      modifies `chunkedBuffer, `chunkedLength, `headerSent, `outputData, `outputSize, `sent, `emitted, `armed, conn`wire, conn`outgoingData
      ensures Moved() && headerSent && armed == old(armed)
      ensures HasFinish(outputData) <==> HasFinish(old(outputData))
      ensures chunkedBuffer == []
      ensures !Drops() ==> emitted == old(emitted) + Frame(Payload(old(chunkedBuffer)))
    {
      hide HasFinish, Octets, Lengths, Payload, Frame;
      NoPayload();
      SendFrame(chunkedLength, chunkedBuffer);
      chunkedBuffer, chunkedLength := [], 0;
    }

    // `uncork`: the last one writes what is held.
    method FlushChunks()
      requires Local() && Basic() && (OwnsSocket() ==> outputData == [])
      modifies `corked, `chunkedBuffer, `chunkedLength, `headerSent, `outputData, `outputSize, `sent, `emitted, `armed, conn`wire, conn`outgoingData
      ensures Moved() && headerSent == old(headerSent) && armed == old(armed)
      ensures HasFinish(outputData) <==> HasFinish(old(outputData))
      ensures corked == old(corked) - 1 && chunkedBuffer == if corked == 0 then [] else old(chunkedBuffer)
      ensures !Drops() ==> Msg() == DoUncork(old(Msg()))
    {
      hide HasFinish, Octets, Lengths, Payload, Frame;
      corked := corked - 1;
      if corked != 0 || |chunkedBuffer| == 0 {
        return;
      }
      assert chunkedEncoding;
      SendBuffered();
    }

    // `uncork` called by the program.
    method Uncork()
      requires Valid()
      modifies `corked, `chunkedBuffer, `chunkedLength, `headerSent, `outputData, `outputSize, `sent, `emitted, `armed, conn`wire, conn`outgoingData
      ensures Kept()
      ensures !Drops() ==> Msg() == Do(old(Msg()), Call.Uncork)
    {
      hide HasFinish, Octets, Lengths, Payload, Frame;
      FlushChunks();
    }

    // ------------------------------------------------------------ write

    method SendOne(chunk: Chunk)
      requires Local() && Basic() && headerSet && (OwnsSocket() ==> outputData == [])
      modifies `headerSent, `outputData, `outputSize, `sent, `emitted, `armed, conn`wire, conn`outgoingData
      ensures Wrote(Frame(chunk.octets))
    {
      hide HasFinish, Octets, Lengths, Payload, Local, Basic, Frame;
      PushChunk([], chunk);
      NoPayload();
      assert [] + [chunk] == [chunk] && "" + chunk.octets == chunk.octets;
      SendFrame(|chunk.octets|, [chunk]);
    }

    method BufferChunk(chunk: Chunk)
      requires Local() && Basic() && headerSent && chunkedEncoding
      modifies `chunkedBuffer, `chunkedLength
      ensures Local() && Basic()
      ensures chunkedBuffer == old(chunkedBuffer) + [chunk]
    {
      hide Octets, Lengths, Payload;
      PushChunk(chunkedBuffer, chunk);
      chunkedBuffer := chunkedBuffer + [chunk];
      chunkedLength := chunkedLength + |chunk.octets|;
    }

    // What a body write does, apart from the message.
    twostate predicate Passed()
      reads this, conn
    {
      && Moved() && headerSent && armed == old(armed)
      && (HasFinish(outputData) <==> HasFinish(old(outputData)))
    }

    // A chunk held back while corked, or written as a frame.
    method WriteChunk(chunk: Chunk)
      requires Local() && Basic() && (OwnsSocket() ==> outputData == [])
      requires headerSet && chunkedEncoding && chunk.octets != ""
      modifies `chunkedBuffer, `chunkedLength, `headerSent, `outputData, `outputSize, `sent, `emitted, `armed, conn`wire, conn`outgoingData
      ensures Passed()
      ensures !Drops() ==> Msg() == PutBody(old(Msg()), chunk)
    {
      hide HasFinish, Local, Basic, Frame, First;
      if corked != 0 && headerSent {
        BufferChunk(chunk);
      } else {
        SendOne(chunk);
      }
    }

    // The tail of `write_`: the header is there and the message may have a body.
    method WriteBody(chunk: Chunk)
      requires Valid() && !finished && headerSet && ValidChunk(chunk)
      modifies `chunkedBuffer, `chunkedLength, `headerSent, `outputData, `outputSize, `sent, `emitted, `armed, conn`wire, conn`outgoingData
      ensures Kept() && headerSent
      ensures !Drops() ==> Msg() == PutBody(old(Msg()), chunk)
    {
      hide Local, Basic, HasFinish, Frame, First;
      if chunkedEncoding && chunk.length != 0 {
        WriteChunk(chunk);
      } else {
        SendPlain(chunk.octets, chunk.length, chunk.inline);
      }
      StillOpen();
    }

    // An unfinished response stays as it was between calls after a body write.
    twostate lemma StillOpen()
      requires old(Valid()) && !old(finished) && !finished && attached == old(attached) && fired == old(fired)
      requires destroyed == old(destroyed) && conn.status == old(conn.status) && conn.settled == old(conn.settled) && header == old(header)
      requires Passed()
      ensures Kept()
    {
      hide Octets, Lengths, Payload, HasFinish;
    }

    // So does a response of which only the header is written.
    twostate lemma StillKept()
      requires old(Valid()) && finished == old(finished) && attached == old(attached) && fired == old(fired)
      requires destroyed == old(destroyed) && conn.status == old(conn.status) && conn.settled == old(conn.settled) && header == old(header)
      requires chunkedBuffer == old(chunkedBuffer) && Passed() && (!Drops() && old(headerSent) ==> emitted == old(emitted))
      ensures Kept()
    {
      hide Octets, Lengths, Payload, HasFinish;
    }

    // `write`. Nothing happens after `end` or on a destroyed message, and a message
    // that must not have a body ignores the data.
    method Write(chunk: Chunk, h: Header)
      requires Valid() && ValidChunk(chunk) && h.text != ""
      modifies `headerSet, `header, `hasBody, `chunkedEncoding, `last, `chunkedBuffer, `chunkedLength, `headerSent, `outputData, `outputSize, `sent, `emitted, `armed, conn`wire, conn`outgoingData
      ensures Kept() && (!old(finished || destroyed) ==> headerSet)
      ensures old(finished || destroyed) ==> Msg() == old(Msg())
      ensures !Drops() ==> Msg() == DoWrite(old(Msg()), chunk, h) && last == LastAfter(old(Msg()), old(last), Call.Write(chunk, h))
    {
      hide Local, Basic, HasFinish, PutBody;
      if finished {
        return;
      }
      DestroyedDrops();
      if destroyed {
        return;
      }
      if !headerSet {
        StoreHeader(h);
      }
      if !hasBody {
        return;
      }
      WriteBody(chunk);
    }

    // ------------------------------------------------------------ end

    // The state in which `end` leaves a message before it is uncorked.
    twostate predicate EndSent()
      reads this, conn
    {
      && Moved()
      && headerSent == (old(headerSent) || headerSet)
      && (armed ==> attached)
      && (conn.status == Open && !armed ==> HasFinish(outputData))
      && (!Drops() ==> Msg() == PutEnd(old(Msg())))
    }

    // The three ways `end` arranges for 'finish'.
    method SendEnd(withChunk: bool, socketLength: nat)
      requires Valid() && !finished && (headerSet || Drops())
      modifies `headerSent, `outputData, `outputSize, `sent, `emitted, `armed, conn`wire, conn`outgoingData
      ensures EndSent()
    {
      hide HasFinish, Octets, Lengths, Payload;
      assert emitted + "" == emitted;
      if hasBody && chunkedEncoding {
        Send(Datum(LAST_CHUNK, 5, true, true));
      } else if !headerSent || outputSize + chunkedLength + socketLength != 0 || withChunk {
        Send(Datum("", 0, true, true));
      } else {
        armed := true;
      }
    }

    method CorkOnce()
      modifies `corked
      ensures corked == 1
    {
      corked := 1;
    }

    // `end`. A second call does nothing.
    method End(chunk: Option<Chunk>, h: Header, socketLength: nat)
      requires Valid() && (chunk.Some? ==> ValidChunk(chunk.value)) && h.text != ""
      modifies `headerSet, `header, `hasBody, `chunkedEncoding, `last, `finished, `corked, `chunkedBuffer, `chunkedLength, `headerSent, `outputData, `outputSize, `sent, `emitted, `armed, conn`wire, conn`outgoingData
      ensures Kept() && finished
      ensures !Drops() ==> Msg() == DoEnd(old(Msg()), chunk, h) && last == LastAfter(old(Msg()), old(last), Call.End(chunk, h))
    {
      hide Valid, HasFinish, Payload, DoWrite, PutEnd, DoUncork;
      if finished {
        return;
      }
      DestroyedDrops();
      if chunk.Some? {
        Write(chunk.value, h);
      } else if !headerSet {
        StoreHeader(h);
      }
      Finish(chunk.Some?, socketLength);
    }

    lemma DestroyedDrops()
      requires Valid() && !finished
      ensures destroyed ==> Drops()
    {
    }

    // The tail of `end`: the last write, the uncork, and the mark.
    method Finish(withChunk: bool, socketLength: nat)
      requires Valid() && !finished && (headerSet || (destroyed && Drops()))
      modifies `finished, `corked, `chunkedBuffer, `chunkedLength, `headerSent, `outputData, `outputSize, `sent, `emitted, `armed, conn`wire, conn`outgoingData
      ensures Kept() && finished
      ensures !Drops() ==> Msg() == DoUncork(PutEnd(old(Msg())).(corked := 1)).(finished := true)
    {
      hide HasFinish, Octets, Lengths, Payload, PutEnd, DoUncork;
      SendAll(withChunk, socketLength);
      finished := true;
    }

    method SendAll(withChunk: bool, socketLength: nat)
      requires Valid() && !finished && (headerSet || Drops())
      modifies `corked, `chunkedBuffer, `chunkedLength, `headerSent, `outputData, `outputSize, `sent, `emitted, `armed, conn`wire, conn`outgoingData
      ensures Moved() && chunkedBuffer == []
      ensures headerSent == (old(headerSent) || headerSet)
      ensures armed ==> attached
      ensures conn.status == Open && !armed ==> HasFinish(outputData)
      ensures !Drops() ==> Msg() == DoUncork(PutEnd(old(Msg())).(corked := 1))
    {
      hide HasFinish, Local, Basic, PutEnd, DoUncork;
      SendEnd(withChunk, socketLength);
      CorkOnce();
      FlushChunks();
    }

    // An empty write, which brings the header if it is due.
    method SendHeader()
      requires Valid() && headerSet
      modifies `headerSent, `outputData, `outputSize, `sent, `emitted, `armed, conn`wire, conn`outgoingData
      ensures Kept() && headerSent
      ensures !Drops() ==> Msg() == Put(old(Msg()), "")
    {
      hide HasFinish, Local, Basic;
      assert emitted + "" == emitted;
      SendPlain("", 0, true);
      StillKept();
    }

    // `flushHeaders`.
    method FlushHeaders(h: Header)
      requires Valid() && h.text != ""
      modifies `headerSet, `header, `hasBody, `chunkedEncoding, `last, `headerSent, `outputData, `outputSize, `sent, `emitted, `armed, conn`wire, conn`outgoingData
      ensures Kept() && headerSent
      ensures !Drops() ==> Msg() == Do(old(Msg()), Call.FlushHeaders(h)) && last == LastAfter(old(Msg()), old(last), Call.FlushHeaders(h))
    {
      hide Valid, Put;
      if !headerSet {
        StoreHeader(h);
      }
      SendHeader();
    }

    // ------------------------------------------------------------ the socket

    // `assignSocket`, which throws if another response has the socket, and `_flush`.
    method AssignSocket()
      requires conn.httpMessage == null && conn.status != Ended && !attached
      requires Local() && sent == ""
      modifies `attached, `base, `outputData, `outputSize, `sent, `armed, conn`httpMessage, conn`wire, conn`outgoingData
      ensures conn.httpMessage == this && attached && base == old(conn.wire)
      ensures Local()
      ensures conn.outgoingData - outputSize == old(conn.outgoingData - outputSize)
      ensures conn.status == Open ==> outputData == [] && armed == (old(armed) || HasFinish(old(outputData)))
      ensures conn.status != Open ==>
                conn.wire == old(conn.wire) && sent == "" && outputData == old(outputData) && outputSize == old(outputSize) && armed == old(armed)
    {
      hide HasFinish, Octets, Lengths;
      conn.httpMessage := this;
      attached := true;
      base := conn.wire;
      if conn.status == Open {
        FlushOutput();
      }
    }

    // `detachSocket` and the emission of 'finish' before it.
    method DetachSocket()
      requires conn.httpMessage == this
      modifies `attached, `fired, conn`httpMessage
      ensures conn.httpMessage == null && !attached && fired
    {
      fired := true;
      conn.httpMessage := null;
      attached := false;
    }
  }

  // ---------------------------------------------------------------- the responses of a connection

  ghost function Sizes(rs: seq<Response>): (xs: seq<int>)
    reads rs
    ensures |xs| == |rs| && forall k :: 0 <= k < |rs| ==> xs[k] == rs[k].outputSize
  {
    seq(|rs|, k requires 0 <= k < |rs| reads rs => rs[k].outputSize)
  }

  ghost function Sents(rs: seq<Response>): (xs: seq<string>)
    reads rs
    ensures |xs| == |rs| && forall k :: 0 <= k < |rs| ==> xs[k] == rs[k].sent
  {
    seq(|rs|, k requires 0 <= k < |rs| reads rs => rs[k].sent)
  }

  ghost function Emissions(rs: seq<Response>): (xs: seq<string>)
    reads rs
    ensures |xs| == |rs| && forall k :: 0 <= k < |rs| ==> xs[k] == rs[k].emitted
  {
    seq(|rs|, k requires 0 <= k < |rs| reads rs => rs[k].emitted)
  }

  ghost function Replies(rs: seq<Response>): (xs: seq<Reply>)
    reads rs
    ensures |xs| == |rs| && forall k :: 0 <= k < |rs| ==> xs[k] == rs[k].Shown()
  {
    seq(|rs|, k requires 0 <= k < |rs| reads rs => rs[k].Shown())
  }

  class Connection {
    var incoming: seq<nat>         // requests without a finished response
    var outgoing: seq<Response>    // responses waiting for the socket
    var outgoingData: int
    var httpMessage: Response?
    var status: Status
    var wire: string               // octets written to the socket
    var requests: nat
    ghost var all: seq<Response>   // the responses in request order
    ghost var done: nat            // how many of them have finished
    ghost var settled: nat         // how many of them are complete on the wire

    constructor ()
      ensures Valid() && fresh(this) && status == Open && all == [] && wire == "" && done == settled == 0
    {
      incoming, outgoing, outgoingData := [], [], 0;
      httpMessage, status, wire, requests := null, Open, "", 0;
      all, done, settled := [], 0, 0;
    }

    // ------------------------------------------------------------ invariants of the connection

    // Requests, queue and socket in step: the first unfinished response has the
    // socket and the others wait in request order.
    ghost predicate InStep()
      reads this
    {
      && requests == |all|
      && settled <= done <= |all|
      && (status == Open ==> settled == done)
      && (status == Open || status == HalfClosed ==> incoming == Range(done, |all|))
      && (status == Closed ==> incoming == [])
      && (if status == Ended || done == |all| then httpMessage == null else httpMessage == all[done])
      && (status != Ended ==> outgoing == if done == |all| then [] else all[done + 1..])
    }

    ghost predicate Members()
      reads this, all
    {
      forall k :: 0 <= k < |all| ==>
        && all[k].conn == this && all[k].index == k
        && (all[k].attached <==> httpMessage == all[k])
        && (all[k].fired <==> k < done)
    }

    // The wire is what the responses sent, in request order, and the counter is
    // what they still queue.
    ghost predicate Balance()
      reads this, all
    {
      && outgoingData == Sum(Sizes(all))
      && wire == Concat(Sents(all))
      && (forall k :: 0 <= k < |all| ==>
           && (k > settled ==> all[k].sent == "")
           && (all[k].attached ==> all[k].base == Concat(Sents(all)[..k])))
    }

    ghost predicate Valid()
      reads this, all
    {
      && InStep() && Members() && Balance()
      && forall k :: 0 <= k < |all| ==> all[k].Valid()
    }

    ghost predicate Has(r: Response)
      reads this, all
    {
      r.index < |all| && all[r.index] == r
    }

    // ------------------------------------------------------------ what a call on one response changes

    // Everything but response r and the two counters it shares is as before.
    twostate predicate OnlyChanged(r: Response)
      reads this, all
    {
      && all == old(all) && done == old(done) && settled == old(settled) && status == old(status)
      && requests == old(requests) && incoming == old(incoming) && outgoing == old(outgoing) && httpMessage == old(httpMessage)
      && (forall k :: 0 <= k < |all| && all[k] != r ==> unchanged(all[k]))
      && Has(r)
      && r.attached == old(r.attached) && r.fired == old(r.fired) && r.base == old(r.base)
    }

    twostate lemma BalanceKept(r: Response)
      requires old(InStep() && Members() && Balance()) && Members() && OnlyChanged(r) && r.Kept()
      ensures Balance()
    {
      hide Concat, Sum, Octets, Lengths, Response.Basic, Response.Flags;
      var k := r.index;
      SumUpdate(old(Sizes(all)), k, r.outputSize);
      assert Sizes(all) == old(Sizes(all))[k := r.outputSize];
      if r.OwnsSocket() {
        assert k == done == settled;
        assert Sents(all)[..k] == old(Sents(all))[..k];
        ConcatEnd(Sents(all), k);
      } else {
        assert Sents(all) == old(Sents(all));
      }
    }

    twostate lemma OtherKept(q: Response)
      requires q.conn == this && old(q.Valid()) && unchanged(q)
      requires status == old(status) && settled == old(settled) && (wire == old(wire) || !q.attached)
      ensures q.Valid()
    {
      hide HasFinish, Octets, Lengths, Payload;
    }

    // A call on one response keeps the connection valid.
    twostate lemma ValidKept(r: Response)
      requires old(Valid()) && OnlyChanged(r) && r.Kept()
      ensures Valid()
    {
      hide Concat, Sum, Response.Valid, Sents, Sizes;
      assert Members();
      BalanceKept(r);
      forall k | 0 <= k < |all|
        ensures all[k].Valid()
      {
        if all[k] != r {
          OtherKept(all[k]);
        }
      }
    }

    // ------------------------------------------------------------ calls of the server program

    method Write(r: Response, chunk: Chunk, h: Header)
      requires Valid() && Has(r) && ValidChunk(chunk) && h.text != ""
      modifies r, `wire, `outgoingData
      ensures Valid() && OnlyChanged(r) && (status != Open ==> wire == old(wire))
      ensures !r.Drops() ==> r.Shown() == Answer(old(r.Shown()), Call.Write(chunk, h))
    {
      hide Valid, Response.Valid;
      MemberValid(r);
      r.Write(chunk, h);
      ValidKept(r);
    }

    lemma MemberValid(r: Response)
      requires Valid() && Has(r)
      ensures r.Valid() && r.conn == this
    {
      hide Response.Valid, Balance;
    }

    method WriteHead(r: Response, h: Header)
      requires Valid() && Has(r) && h.text != ""
      modifies r, `wire, `outgoingData
      ensures Valid() && OnlyChanged(r) && wire == old(wire)
      ensures r.Shown() == Answer(old(r.Shown()), Call.WriteHead(h))
    {
      hide Valid, Response.Valid;
      MemberValid(r);
      r.WriteHead(h);
      ValidKept(r);
    }

    method FlushHeaders(r: Response, h: Header)
      requires Valid() && Has(r) && h.text != ""
      modifies r, `wire, `outgoingData
      ensures Valid() && OnlyChanged(r) && (status != Open ==> wire == old(wire))
      ensures !r.Drops() ==> r.Shown() == Answer(old(r.Shown()), Call.FlushHeaders(h))
    {
      hide Valid, Response.Valid;
      MemberValid(r);
      r.FlushHeaders(h);
      ValidKept(r);
    }

    method Cork(r: Response)
      requires Valid() && Has(r)
      modifies r, `wire, `outgoingData
      ensures Valid() && OnlyChanged(r) && wire == old(wire)
      ensures r.Shown() == Answer(old(r.Shown()), Call.Cork)
    {
      hide Valid, Response.Valid;
      MemberValid(r);
      r.Cork();
      ValidKept(r);
    }

    method Uncork(r: Response)
      requires Valid() && Has(r)
      modifies r, `wire, `outgoingData
      ensures Valid() && OnlyChanged(r) && (status != Open ==> wire == old(wire))
      ensures !r.Drops() ==> r.Shown() == Answer(old(r.Shown()), Call.Uncork)
    {
      hide Valid, Response.Valid;
      MemberValid(r);
      r.Uncork();
      ValidKept(r);
    }

    method End(r: Response, chunk: Option<Chunk>, h: Header, socketLength: nat)
      requires Valid() && Has(r) && (chunk.Some? ==> ValidChunk(chunk.value)) && h.text != ""
      modifies r, `wire, `outgoingData
      ensures Valid() && OnlyChanged(r) && (status != Open ==> wire == old(wire)) && r.finished
      ensures !r.Drops() ==> r.Shown() == Answer(old(r.Shown()), Call.End(chunk, h))
    {
      hide Valid, Response.Valid, DoEnd;
      MemberValid(r);
      r.End(chunk, h, socketLength);
      ValidKept(r);
    }

    // ------------------------------------------------------------ events of the connection

    // The state after a new response has been added.
    twostate predicate Grown(new r: Response)
      requires r in all
      reads this, all
    {
      && all == old(all) + [r] && done == old(done) && settled == old(settled) && status == old(status) == Open
      && requests == old(requests) + 1 && incoming == old(incoming) + [old(requests)]
      && wire == old(wire) && outgoingData == old(outgoingData)
      && (if old(httpMessage) != null then httpMessage == old(httpMessage) && outgoing == old(outgoing) + [r] && !r.attached
          else httpMessage == r && outgoing == old(outgoing) && r.attached && r.base == wire)
      && (forall k :: 0 <= k < |old(all)| ==> all[k] == old(all)[k] && unchanged(all[k]))
      && r.index == old(requests) && Unused(r)
    }

    // A response nothing was done with.
    ghost predicate Unused(r: Response)
      reads r
    {
      && r.conn == this
      && r.outputData == [] && r.outputSize == 0 && !r.headerSet && !r.headerSent && !r.chunkedEncoding
      && r.corked == 0 && r.chunkedBuffer == [] && r.chunkedLength == 0
      && !r.finished && !r.destroyed && r.sent == "" && r.emitted == "" && !r.armed && !r.fired && !r.last
    }

    twostate lemma GrownSums(new r: Response)
      requires r in all && Grown(r) && old(Balance())
      ensures Sents(all) == old(Sents(all)) + [""]
      ensures outgoingData == Sum(Sizes(all)) && wire == Concat(Sents(all))
    {
      hide Concat, Sum;
      var sizes, sents := old(Sizes(all)), old(Sents(all));
      assert Sizes(all) == sizes + [0];
      SumPush(sizes, 0);
      assert Sents(all) == sents + [""];
      PushFrame(sents, "");
      assert wire + "" == wire;
    }

    twostate lemma GrownBalance(new r: Response)
      requires r in all && Grown(r) && old(InStep() && Members() && Balance())
      ensures Balance()
    {
      hide Concat, Sum, Range, Sizes, Sents;
      GrownSums(r);
      var sents := old(Sents(all));
      forall k | 0 <= k < |all|
        ensures k > settled ==> all[k].sent == ""
        ensures all[k].attached ==> all[k].base == Concat(Sents(all)[..k])
      {
        if k < |sents| {
          assert Sents(all)[..k] == sents[..k];
        } else {
          assert Sents(all)[..k] == sents;
        }
      }
    }

    static lemma SumPush(xs: seq<int>, x: int)
      ensures Sum(xs + [x]) == Sum(xs) + x
    {
      assert (xs + [x])[..|xs|] == xs;
    }

    static lemma RangePush(a: nat, b: nat)
      requires a <= b
      ensures Range(a, b) + [b] == Range(a, b + 1)
    {
    }

    twostate lemma GrownInStep(new r: Response)
      requires r in all && Grown(r) && old(InStep())
      ensures InStep()
    {
      hide Range;
      RangePush(done, |old(all)|);
    }

    twostate lemma GrownMembers(new r: Response)
      requires r in all && Grown(r) && old(InStep() && Members())
      ensures Members()
    {
      hide Range;
    }

    twostate lemma GrownValid(new r: Response)
      requires r in all && Grown(r) && old(Valid())
      ensures Valid()
    {
      hide Concat, Sum, Sents, Sizes, Range, Response.Valid;
      var n := |old(all)|;
      GrownInStep(r);
      GrownMembers(r);
      GrownBalance(r);
      hide InStep, Members, Balance;
      forall k | 0 <= k <= n
        ensures all[k].Valid()
      {
        if k < n {
          OtherKept(all[k]);
        } else {
          NewValid(r);
        }
      }
    }

    lemma NewValid(r: Response)
      requires r.conn == this && settled <= r.index && (r.attached ==> r.base == wire && status != Ended)
      requires r.outputData == [] && r.outputSize == 0 && !r.headerSet && !r.headerSent && !r.chunkedEncoding
      requires r.corked == 0 && r.chunkedBuffer == [] && r.chunkedLength == 0
      requires !r.finished && !r.destroyed && r.sent == "" && r.emitted == "" && !r.armed && !r.fired
      ensures r.Valid()
    {
      Response.NothingQueued();
      Response.NoPayload();
    }

    // `parserOnIncoming`: a new response takes the free socket or queues up.
    method OnIncoming(hasBody: bool) returns (r: Response)
      requires Valid() && status == Open
      modifies this
      ensures Valid() && fresh(r) && r.conn == this
      ensures all == old(all) + [r] && done == old(done) && status == Open && wire == old(wire)
      ensures Unused(r) && r.Shown() == Reply(New(hasBody), false)
      ensures forall k :: 0 <= k < |old(all)| ==> unchanged(old(all)[k])
    {
      hide Valid, InStep, Members, Balance, Range, Response.Valid;
      Response.NothingQueued();
      r := new Response(this, requests, hasBody);
      Admit(r);
      if httpMessage != null {
        outgoing := outgoing + [r];
      } else {
        r.AssignSocket();
      }
      GrownValid(r);
    }

    method Admit(r: Response)
      modifies `incoming, `requests, `all
      ensures incoming == old(incoming) + [old(requests)] && requests == old(requests) + 1 && all == old(all) + [r]
    {
      incoming := incoming + [requests];
      requests := requests + 1;
      all := all + [r];
    }

    // ------------------------------------------------------------ a finished response

    // Between two responses: nobody has the socket and the next one is first in the queue.
    ghost predicate Released()
      reads this, all
    {
      && requests == |all|
      && settled <= done <= |all|
      && status != Ended && httpMessage == null
      && (status == Open ==> settled == done)
      && (status == Open || status == HalfClosed ==> incoming == Range(done, |all|))
      && (status == Closed ==> incoming == [])
      && outgoing == all[done..] && (done < |all| ==> all[done].sent == "")
      && Members() && Balance()
      && forall k :: 0 <= k < |all| ==> all[k].Valid()
    }

    // The change of state when response r has been finished.
    twostate predicate Detached(r: Response)
      reads this, all
    {
      && all == old(all) && status == old(status) && requests == old(requests) && outgoing == old(outgoing)
      && wire == old(wire) && outgoingData == old(outgoingData) && httpMessage == null
      && done == old(done) + 1 && settled == (if status == Open then done else old(settled))
      && incoming == (if old(incoming) == [] then [] else old(incoming)[1..])
      && (forall k :: 0 <= k < |all| && all[k] != r ==> unchanged(all[k]))
      && Has(r) && !r.attached && r.fired
      && r.outputData == old(r.outputData) && r.outputSize == old(r.outputSize) && r.sent == old(r.sent) && r.emitted == old(r.emitted)
      && r.headerSet == old(r.headerSet) && r.header == old(r.header) && r.headerSent == old(r.headerSent)
      && r.hasBody == old(r.hasBody) && r.chunkedEncoding == old(r.chunkedEncoding)
      && r.corked == old(r.corked) && r.chunkedBuffer == old(r.chunkedBuffer) && r.chunkedLength == old(r.chunkedLength)
      && r.finished == old(r.finished) && r.destroyed == old(r.destroyed) && r.armed == old(r.armed)
    }

    // A due 'finish' belongs to the response with the socket, whose request is the first.
    lemma DueIsCurrent(r: Response)
      requires Valid() && Has(r) && r.armed && !r.fired
      ensures status != Ended && done < |all| && r == all[done] == httpMessage && r.attached && r.finished
      ensures r.conn == this && r.index == done
      ensures incoming == [] || incoming[0] == r.index
      ensures outgoing == all[done + 1..]
      ensures status == Open ==> r.sent == r.emitted && r.headerSent
      ensures status == Open || status == HalfClosed ==> incoming == Range(done, |all|)
      ensures status == Closed ==> incoming == []
    {
      hide Octets, Lengths, Payload, Concat, Sum, Sents, Sizes;
      MemberValid(r);
      Response.NothingQueued();
    }

    twostate lemma DetachedOther(q: Response)
      requires q.conn == this && old(q.Valid()) && unchanged(q)
      requires status == old(status) && wire == old(wire) && (q.index < settled ==> q.index < old(settled))
      ensures q.Valid()
    {
      hide HasFinish, Octets, Lengths, Payload;
    }

    twostate lemma DetachedSelf(r: Response)
      requires r.conn == this && Detached(r) && old(r.Valid() && r.armed && r.finished)
      requires old(status == Open ==> r.sent == r.emitted && r.headerSent)
      requires old(status != Open ==> r.index >= settled)
      ensures r.Valid()
    {
      hide HasFinish, Octets, Lengths, Payload;
    }

    twostate lemma DetachedBalance(r: Response)
      requires old(Balance() && Members() && settled <= done) && Detached(r)
      ensures Balance()
    {
      hide Concat, Sum;
      assert Sizes(all) == old(Sizes(all));
      assert Sents(all) == old(Sents(all));
    }

    twostate lemma DetachedReleases(r: Response)
      requires old(Valid() && Has(r) && r.armed && r.finished && !r.fired) && Detached(r)
      requires old(status != Ended && done < |all| && r == all[done] && outgoing == all[done + 1..])
      requires old(status == Open ==> r.sent == r.emitted && r.headerSent)
      ensures Released()
    {
      hide Concat, Sum, Sents, Sizes, Response.Valid, Response.Kept;
      assert Members();
      DetachedBalance(r);
      forall k | 0 <= k < |all|
        ensures all[k].Valid()
      {
        if all[k] != r {
          DetachedOther(all[k]);
        } else {
          DetachedSelf(r);
        }
      }
      assert Range(old(done), |all|)[1..] == Range(done, |all|);
    }

    // The change of state when the next response m gets the socket.
    twostate predicate Assigned(m: Response)
      requires m.conn == this && |old(outgoing)| > 0
      reads this, all
    {
      && all == old(all) && status == old(status) && requests == old(requests) && done == old(done) && settled == old(settled)
      && incoming == old(incoming) && outgoing == old(outgoing)[1..] && httpMessage == m
      && (forall k :: 0 <= k < |all| && all[k] != m ==> unchanged(all[k]))
      && Has(m) && m.attached && m.base == old(wire) && m.Local()
      && outgoingData - m.outputSize == old(outgoingData - m.outputSize)
      && (if status == Open then m.outputData == [] && m.armed == (old(m.armed) || HasFinish(old(m.outputData)))
          else wire == old(wire) && m.sent == "" && m.outputData == old(m.outputData) && m.outputSize == old(m.outputSize) && m.armed == old(m.armed))
      && m.emitted == old(m.emitted) && m.fired == old(m.fired)
      && m.headerSet == old(m.headerSet) && m.header == old(m.header) && m.headerSent == old(m.headerSent)
      && m.hasBody == old(m.hasBody) && m.chunkedEncoding == old(m.chunkedEncoding)
      && m.corked == old(m.corked) && m.chunkedBuffer == old(m.chunkedBuffer) && m.chunkedLength == old(m.chunkedLength)
      && m.finished == old(m.finished) && m.destroyed == old(m.destroyed)
    }

    twostate lemma AssignedSelf(m: Response)
      requires m.conn == this && |old(outgoing)| > 0 && Assigned(m) && old(m.Valid() && !m.fired && !m.attached) && old(settled <= m.index && status != Ended)
      ensures m.Valid()
    {
      hide Octets, Lengths, Payload;
    }

    twostate lemma AssignedBalance(m: Response)
      requires old(Balance() && Members() && settled <= done < |all| && m == all[done] && httpMessage == null && m.conn == this && |outgoing| > 0)
      requires Assigned(m) && Members() && old(m.sent) == "" && (status == Open ==> settled == done)
      ensures Balance()
    {
      hide Concat, Sum, Octets, Lengths;
      SumUpdate(old(Sizes(all)), m.index, m.outputSize);
      assert Sizes(all) == old(Sizes(all))[m.index := m.outputSize];
      AssignedWire(m);
      forall j | 0 <= j < |all| && all[j].attached
        ensures j == m.index
      {
        assert all[j] == m;
      }
    }

    twostate lemma AssignedWire(m: Response)
      requires old(Balance() && Members() && settled <= done < |all| && m == all[done] && m.conn == this && |outgoing| > 0)
      requires Assigned(m) && old(m.sent) == "" && m.index == done
      ensures wire == Concat(Sents(all)) && m.base == Concat(Sents(all)[..done])
    {
      hide Concat, Sum, Octets, Lengths;
      var k := done;
      var sents := old(Sents(all));
      assert forall j :: 0 <= j < |all| && j != k ==> Sents(all)[j] == sents[j];
      assert Sents(all)[..k] == sents[..k];
      QuietTail(sents, k);
      ConcatEnd(Sents(all), k);
    }

    static lemma {:induction false} QuietTail(xs: seq<string>, k: nat)
      requires k <= |xs| && forall j :: k <= j < |xs| ==> xs[j] == ""
      ensures Concat(xs) == Concat(xs[..k])
      decreases |xs|
    {
      if k < |xs| {
        var n := |xs| - 1;
        QuietTail(xs[..n], k);
        assert xs[..n][..k] == xs[..k];
      } else {
        assert xs[..k] == xs;
      }
    }

    twostate lemma AssignedValid(m: Response)
      requires old(Released() && done < |all| && m == all[done] && !m.fired && !m.attached && m.sent == "" && m.conn == this && |outgoing| > 0) && Assigned(m)
      ensures Valid()
    {
      hide Concat, Sum, Sents, Sizes, Response.Valid, HasFinish;
      assert Members();
      AssignedBalance(m);
      forall k | 0 <= k < |all|
        ensures all[k].Valid()
      {
        if all[k] != m {
          OtherKept(all[k]);
        } else {
          AssignedSelf(m);
        }
      }
    }

    // `resOnFinish`: its assertion on the first request and the one in `detachSocket`
    // hold, and the socket is free when the next response is given it.
    method OnFinish(r: Response)
      requires Valid() && Has(r) && r.armed && !r.fired
      modifies this, all
      ensures Valid() && all == old(all) && done == old(done) + 1 && r.index == old(done)
      ensures old(wire) <= wire && (old(status) != Open ==> wire == old(wire))
      ensures status == (if old(r.last) then Ended else old(status))
      ensures forall k :: 0 <= k < |all| ==> all[k].Shown() == old(all[k].Shown())
      ensures old(r.last) ==> wire == old(wire)
      ensures settled == if old(status) == Open then done else old(settled)
    {
      hide Valid, Released, Response.Valid, Response.Shown;
      Release(r);
      if r.last {
        EndNow();
      } else {
        NextResponse();
      }
    }

    method Release(r: Response)
      requires Valid() && Has(r) && r.armed && !r.fired
      modifies this, all
      ensures Released() && all == old(all) && done == old(done) + 1 && r.index == old(done)
      ensures wire == old(wire) && status == old(status) && r.last == old(r.last)
      ensures forall k :: 0 <= k < |all| ==> all[k].Shown() == old(all[k].Shown())
      ensures settled == if old(status) == Open then done else old(settled)
    {
      hide Valid, Released, Response.Valid, Sents, Sizes, HasFinish;
      DueIsCurrent(r);
      assert |incoming| == 0 || incoming[0] == r.index;
      assert httpMessage == r;
      r.DetachSocket();
      Shift();
      DetachedReleases(r);
    }

    // The first request is answered.
    method Shift()
      modifies `incoming, `done, `settled
      ensures incoming == (if old(incoming) == [] then [] else old(incoming)[1..])
      ensures done == old(done) + 1 && settled == (if status == Open then done else old(settled))
    {
      incoming := if |incoming| == 0 then [] else incoming[1..];
      done := done + 1;
      if status == Open {
        settled := done;
      }
    }

    method EndNow()
      requires Released()
      modifies `status
      ensures Valid() && status == Ended
    {
      hide Concat, Sum, Sents, Sizes, HasFinish, Octets, Lengths, Payload;
      status := Ended;
    }

    method NextResponse()
      requires Released()
      modifies this, all
      ensures Valid() && all == old(all) && done == old(done) && status == old(status)
      ensures old(wire) <= wire && (status != Open ==> wire == old(wire)) && settled == old(settled)
      ensures forall k :: 0 <= k < |all| ==> all[k].Shown() == old(all[k].Shown())
    {
      hide Released, Valid, Response.Valid, Sents, Sizes, HasFinish, Octets, Lengths;
      if |outgoing| == 0 {
        AllServed();
        return;
      }
      FirstWaiting();
      var m := outgoing[0];
      outgoing := outgoing[1..];
      m.AssignSocket();
      AssignedValid(m);
    }

    lemma AllServed()
      requires Released() && outgoing == []
      ensures Valid()
    {
      hide Sents, Sizes, Concat, Sum, Response.Valid;
      assert |all[done..]| == 0;
    }

    lemma FirstWaiting()
      requires Released() && outgoing != []
      ensures done < |all| && outgoing[0] == all[done] && httpMessage == null && status != Ended
      ensures var m := outgoing[0];
              m.conn == this && m.index == done && m.Local() && !m.attached && !m.fired && m.sent == ""
      ensures forall k :: 0 <= k < |all| ==> all[k].conn == this
    {
      hide Sents, Sizes, Concat, Sum, Octets, Lengths;
      assert |all[done..]| > 0;
    }

    // `socketOnClose`: pending requests are aborted and the response with the socket,
    // which nobody is after a last response, is marked.
    method OnClose()
      requires Valid()
      modifies this, all
      ensures Valid() && all == old(all) && done == old(done) && wire == old(wire) && incoming == []
      ensures status == (if old(status) == Ended then Ended else Closed) && settled == old(settled)
      ensures forall k :: 0 <= k < |all| ==> all[k].Shown() == old(all[k].Shown())
    {
      hide Valid, Response.Valid;
      if status == Ended {
        Abandon();
        return;
      }
      CurrentMember();
      status := Closed;
      incoming := [];
      if httpMessage != null {
        httpMessage.destroyed := true;
      }
      ClosedValid();
    }

    method Abandon()
      requires Valid() && status == Ended
      modifies `incoming
      ensures Valid() && incoming == []
    {
      hide Concat, Sum, Sents, Sizes, HasFinish, Octets, Lengths, Payload;
      incoming := [];
    }

    // `socketOnEnd`: the peer has ended. The server ends its side too, or in half-open
    // mode after the last pending response.
    method OnEnd(allowHalfOpen: bool)
      requires Valid() && status == Open
      modifies this, all
      ensures Valid() && all == old(all) && done == old(done) && wire == old(wire) && settled == old(settled)
      ensures status == if !allowHalfOpen || done == |all| then HalfClosed else Open
      ensures forall k :: 0 <= k < |all| ==>
                all[k].Msg() == old(all[k].Msg()) && all[k].last == (old(all[k].last) || (status == Open && k == |all| - 1))
    {
      hide Valid, Response.Valid;
      CurrentMember();
      LastPending();
      if !allowHalfOpen || (|outgoing| == 0 && httpMessage == null) {
        status := HalfClosed;
        HalfClosedValid();
      } else {
        var r := if |outgoing| > 0 then outgoing[|outgoing| - 1] else httpMessage;
        assert r == all[|all| - 1];
        r.last := true;
        MarkedValid(r);
      }
    }

    // The last pending response is the last of all.
    lemma LastPending()
      requires Valid() && status == Open
      ensures done <= |all| && (|outgoing| == 0 && httpMessage == null <==> done == |all|)
      ensures done < |all| ==> all[|all| - 1] == if |outgoing| > 0 then outgoing[|outgoing| - 1] else httpMessage
      ensures forall i, j :: 0 <= i < j < |all| ==> all[i] != all[j]
    {
      hide Response.Valid, Balance, Range;
      assert forall k :: 0 <= k < |all| ==> all[k].index == k;
    }

    twostate predicate SameState()
      reads this
    {
      && all == old(all) && done == old(done) && settled == old(settled) && requests == old(requests) && incoming == old(incoming)
      && outgoing == old(outgoing) && httpMessage == old(httpMessage) && wire == old(wire) && outgoingData == old(outgoingData)
    }

    twostate lemma HalfClosedValid()
      requires old(Valid() && status == Open) && SameState() && status == HalfClosed
      requires forall k :: 0 <= k < |all| ==> unchanged(all[k])
      ensures Valid()
    {
      hide Concat, Sum, Response.Valid;
      assert Sents(all) == old(Sents(all)) && Sizes(all) == old(Sizes(all));
      forall k | 0 <= k < |all|
        ensures all[k].Valid()
      {
        HalfClosedResponse(all[k]);
      }
    }

    twostate lemma HalfClosedResponse(r: Response)
      requires r.conn == this && old(r.Valid()) && unchanged(r)
      requires old(status) == Open && status == HalfClosed && wire == old(wire) && settled == old(settled)
      ensures r.Valid()
    {
      hide HasFinish, Octets, Lengths, Payload;
    }

    // Only the mark of the last response differs.
    twostate predicate OnlyMarked(r: Response)
      reads r
    {
      OnlyDestroyed(r) && r.destroyed == old(r.destroyed)
    }

    twostate lemma MarkedValid(r: Response)
      requires old(Valid()) && SameState() && status == old(status)
      requires forall k :: 0 <= k < |all| ==> OnlyMarked(all[k])
      ensures Valid()
    {
      hide Concat, Sum, Response.Valid, Range;
      assert Sents(all) == old(Sents(all)) && Sizes(all) == old(Sizes(all));
      hide Sents, Sizes;
      forall k | 0 <= k < |all|
        ensures all[k].Valid()
      {
        MarkedResponse(all[k]);
      }
    }

    twostate lemma MarkedResponse(r: Response)
      requires r.conn == this && old(r.Valid()) && OnlyMarked(r)
      requires status == old(status) && wire == old(wire) && settled == old(settled)
      ensures r.Valid()
    {
      hide HasFinish, Octets, Lengths, Payload;
    }

    lemma CurrentMember()
      requires Valid()
      ensures httpMessage != null ==> httpMessage in all
      ensures status != Ended ==> forall i :: 0 <= i < |outgoing| ==> outgoing[i] in all
    {
      hide Response.Valid, Balance;
    }

    twostate predicate OnlyDestroyed(r: Response)
      reads r
    {
      && unchanged(r`outputData, r`outputSize, r`headerSet, r`header, r`headerSent, r`hasBody, r`chunkedEncoding)
      && unchanged(r`corked, r`chunkedBuffer, r`chunkedLength, r`finished, r`attached, r`armed, r`fired)
      && unchanged(r`sent, r`base, r`emitted)
      && (old(r.destroyed) ==> r.destroyed)
    }

    twostate lemma ClosedResponse(r: Response)
      requires r.conn == this && old(r.Valid()) && OnlyDestroyed(r) && (unchanged(r) || r.attached)
      requires status == Closed && old(status) != Ended && wire == old(wire) && settled == old(settled)
      ensures r.Valid()
    {
      hide HasFinish, Octets, Lengths, Payload;
    }

    twostate lemma ClosedValid()
      requires old(Valid() && status != Ended)
      requires all == old(all) && done == old(done) && settled == old(settled) && requests == old(requests)
      requires outgoing == old(outgoing) && httpMessage == old(httpMessage) && wire == old(wire) && outgoingData == old(outgoingData)
      requires status == Closed && incoming == []
      requires forall k :: 0 <= k < |all| ==> OnlyDestroyed(all[k]) && (all[k] == httpMessage || unchanged(all[k]))
      ensures Valid()
    {
      hide Concat, Sum, Response.Valid;
      assert Sents(all) == old(Sents(all)) && Sizes(all) == old(Sizes(all));
      forall k | 0 <= k < |all|
        ensures all[k].Valid()
      {
        ClosedResponse(all[k]);
      }
    }

    // ------------------------------------------------------------ the result

    // The wire holds the complete responses in request order, then a prefix of the
    // next one; nothing of later responses is on it.
    lemma WireInOrder()
      requires Valid()
      ensures settled <= |all| && forall k :: 0 <= k < settled ==> all[k].finished && all[k].fired
      ensures settled == |all| ==> wire == Concat(Emissions(all))
      ensures settled < |all| ==>
                && wire == Concat(Emissions(all[..settled])) + all[settled].sent
                && all[settled].sent <= all[settled].emitted
    {
      hide Concat, Sum, Sizes, Octets, Lengths, HasFinish;
      if settled < |all| {
        ConcatEnd(Sents(all), settled);
        assert Sents(all)[..settled] == Emissions(all[..settled]);
      } else {
        assert Sents(all) == Emissions(all);
      }
    }

    // The connection as its session.
    ghost function View(): Session
      reads this, all
    {
      Session(status, Replies(all), done)
    }

    // The response with an open socket has nothing queued.
    lemma NothingWaits(r: Response)
      requires Valid() && status == Open && Has(r) && r.index == done
      ensures r.sent == r.emitted
    {
      hide HasFinish, Lengths, Payload, Concat, Sum, Sents, Sizes;
      MemberValid(r);
      Response.NothingQueued();
    }

    // No stall: on an open connection 'finish' is due exactly for the first response that
    // has not finished, as soon as it has ended.
    lemma DueExactly(r: Response)
      requires Valid() && status == Open && Has(r)
      ensures r.armed && !r.fired <==> r.index == done && r.finished
    {
      hide Octets, Lengths, Payload, Concat, Sum, Sents, Sizes, HasFinish;
      MemberValid(r);
      Response.NothingQueued();
    }

    // On an open socket the wire holds all finished responses and everything the next one
    // has handed over.
    lemma OpenWire()
      requires Valid() && status == Open
      ensures done <= |all| && settled == done && wire == Wire(View())
    {
      hide Concat, Response.Valid, Response.Shown;
      WireInOrder();
      var emissions := Emissions(all[..settled]);
      assert settled == done;
      assert Emitted(Replies(all)[..done]) == emissions by { SameTexts(done); }
      if done < |all| {
        Everyone();
        NothingWaits(all[done]);
        ShownText(all[done]);
      } else {
        assert all[..settled] == all;
        assert Concat(emissions) + "" == Concat(emissions);
      }
    }

    lemma SameTexts(n: nat)
      requires n <= |all|
      ensures Emitted(Replies(all)[..n]) == Emissions(all[..n])
    {
    }

    lemma ShownText(r: Response)
      ensures r.Shown().message.emitted == r.emitted
    {
    }

    lemma Everyone()
      requires Valid()
      ensures forall k :: 0 <= k < |all| ==> all[k].index == k && all[k].conn == this && Has(all[k])
    {
      hide Response.Valid, Balance;
    }

    // Until a close or a last response, each response waits for one request, in the same order.
    lemma OneToOne()
      requires Valid() && (status == Open || status == HalfClosed)
      ensures |incoming| == (if httpMessage == null then 0 else 1) + |outgoing|
      ensures if httpMessage == null then outgoing == [] else incoming[0] == httpMessage.index
      ensures forall i :: 0 <= i < |outgoing| ==> incoming[i + 1] == outgoing[i].index
    {
      hide Concat, Sum, Sizes, Sents, Response.Valid;
    }
  }

  // ---------------------------------------------------------------- runs

  // A new response, while the socket is open.
  method Accept(c: Connection, rs: seq<Response>, hasBody: bool) returns (rs': seq<Response>)
    requires c.Valid() && rs == c.all && c.status == Open
    modifies c
    ensures c.Valid() && rs' == c.all && rs <= rs' && fresh(set r | r in rs' && r !in rs)
    ensures c.View() == Advance(old(c.View()), Request(hasBody)) && c.status == Open
    ensures forall k :: 0 <= k < |rs| ==> unchanged(rs[k])
  {
    hide Connection.Valid, Response.Valid, Response.Shown, Do;
    var r := c.OnIncoming(hasBody);
    rs' := rs + [r];
    assert Replies(c.all) == old(Replies(c.all)) + [Reply(New(hasBody), false)];
  }

  // A call on a response.
  method Call(c: Connection, rs: seq<Response>, k: nat, call: HttpMessage.Call, pending: nat)
    requires c.Valid() && rs == c.all && ValidCall(call) && k < |rs|
    modifies rs[k], c`wire, c`outgoingData
    ensures c.Valid() && c.OnlyChanged(rs[k]) && (c.status != Open ==> c.wire == old(c.wire))
    ensures c.status != Closed ==> rs[k].Shown() == Answer(old(rs[k].Shown()), call)
  {
    hide Connection.Valid, Response.Valid, Response.Shown, Answer;
    c.Everyone();
    match call {
      case WriteHead(h) => c.WriteHead(rs[k], h);
      case FlushHeaders(h) => c.FlushHeaders(rs[k], h);
      case Write(chunk, h) => c.Write(rs[k], chunk, h);
      case Cork => c.Cork(rs[k]);
      case Uncork => c.Uncork(rs[k]);
      case End(last, h) => c.End(rs[k], last, h, pending);
    }
  }

  // A call on any response of the connection.
  method Apply(c: Connection, rs: seq<Response>, k: nat, call: HttpMessage.Call, pending: nat)
    requires c.Valid() && rs == c.all && ValidCall(call) && k < |rs|
    modifies c, rs
    ensures c.Valid() && c.all == rs && c.status == old(c.status) && c.settled == old(c.settled) && c.done == old(c.done)
    ensures c.status != Open ==> c.wire == old(c.wire)
    ensures c.status == Open ==> c.View() == Advance(old(c.View()), Invoke(k, call, pending))
    ensures c.status != Closed ==> forall j :: 0 <= j < |rs| ==> rs[j].Msg() == if j == k then Do(old(rs[j].Msg()), call) else old(rs[j].Msg())
  {
    hide Connection.Valid, Response.Valid, Do, LastAfter;
    c.Everyone();
    ghost var before := Replies(rs);
    Call(c, rs, k, call, pending);
    assert forall j :: 0 <= j < |rs| && j != k ==> rs[j] != rs[k] && rs[j].Shown() == before[j];
    assert c.status != Closed ==> Replies(rs) == before[k := Answer(before[k], call)];
  }

  // 'finish', once it is due.
  method Emit(c: Connection, rs: seq<Response>, k: nat)
    requires c.Valid() && rs == c.all && k < |rs|
    modifies c, rs
    ensures c.Valid() && c.all == rs && (c.status != Open ==> c.wire == old(c.wire))
    ensures old(c.status) == Open ==> c.View() == Advance(old(c.View()), Finish(k)) && c.settled == c.done
    ensures old(c.status) != Open ==> c.status != Open && c.settled == old(c.settled)
    ensures old(c.status) != Closed ==> c.status != Closed
    ensures forall j :: 0 <= j < |rs| ==> rs[j].Shown() == old(rs[j].Shown())
  {
    hide Connection.Valid, Response.Valid, Response.Shown, Do;
    c.Everyone();
    if c.status == Open {
      c.DueExactly(rs[k]);
      c.OpenWire();
      assert rs[k].Shown().message.finished == rs[k].finished by { ShownFinished(rs[k]); }
      assert rs[k].Shown().last == rs[k].last by { ShownFinished(rs[k]); }
    }
    if rs[k].armed && !rs[k].fired {
      c.OnFinish(rs[k]);
    }
    assert Replies(rs) == old(Replies(rs));
  }

  lemma ShownFinished(r: Response)
    ensures r.Shown().message.finished == r.finished && r.Shown().last == r.last
  {
  }

  // The peer's end, while the socket is open.
  method EndOfPeer(c: Connection, rs: seq<Response>, allowHalfOpen: bool)
    requires c.Valid() && rs == c.all && c.status == Open
    modifies c, rs
    ensures c.Valid() && c.all == rs && c.wire == old(c.wire) && c.settled == c.done
    ensures c.View() == Advance(old(c.View()), PeerEnd(allowHalfOpen)) && c.status != Closed
    ensures forall j :: 0 <= j < |rs| ==> rs[j].Msg() == old(rs[j].Msg())
  {
    hide Connection.Valid, Response.Valid, Response.Msg, Do;
    c.OpenWire();
    c.OnEnd(allowHalfOpen);
    if c.status == Open {
      var n := |rs|;
      assert Replies(rs) == old(Replies(rs))[n - 1 := old(Replies(rs))[n - 1].(last := true)];
    } else {
      assert Replies(rs) == old(Replies(rs));
    }
  }

  method Shut(c: Connection, rs: seq<Response>)
    requires c.Valid() && rs == c.all
    modifies c, rs
    ensures c.Valid() && c.all == rs && c.wire == old(c.wire) && c.settled == old(c.settled) && c.status != Open
    ensures old(c.status) == Open ==> c.View() == Advance(old(c.View()), Close) && c.settled == c.done
  {
    hide Connection.Valid, Response.Valid, Response.Shown, Do;
    if c.status == Open { c.OpenWire(); }
    c.OnClose();
    assert Replies(rs) == old(Replies(rs));
  }

  // One event, if it is possible in the state: requests arrive while the socket is open,
  // calls go to existing responses, and 'finish' is emitted once it is due. On an open
  // socket the session advances; afterwards nothing is written any more.
  method Step(c: Connection, rs: seq<Response>, e: Event) returns (rs': seq<Response>)
    requires c.Valid() && rs == c.all && ValidEvent(e)
    modifies c, rs
    ensures c.Valid() && rs' == c.all && rs <= rs'
    ensures fresh(set r | r in rs' && r !in rs)
    ensures old(c.status) == Open ==> c.View() == Advance(old(c.View()), e) && c.settled == c.done
    ensures c.status != Open ==> c.wire == old(c.wire)
    ensures old(c.status) != Open ==> c.status != Open && rs' == rs && c.settled == old(c.settled)
    ensures old(c.status) != Closed && !e.Close? ==>
              c.status != Closed && forall k :: 0 <= k < |rs| ==> rs[k].Msg() == After(old(rs[k].Msg()), CallOn(e, k))
  {
    hide Connection.Valid, Response.Valid, Response.Msg, Do, Advance;
    rs' := rs;
    if (e.Invoke? || e.Finish?) && e.k >= |rs| { NoSuchReply(c.View(), e); }
    match e {
      case Request(hasBody) =>
        if c.status == Open {
          rs' := Accept(c, rs, hasBody);
        }
      case Invoke(k, call, pending) => if k < |rs| { Apply(c, rs, k, call, pending); }
      case Finish(k) => if k < |rs| { Emit(c, rs, k); }
      case PeerEnd(allowHalfOpen) => if c.status == Open { EndOfPeer(c, rs, allowHalfOpen); }
      case Close => Shut(c, rs);
    }
    if c.status == Open { c.OpenWire(); }
  }

  // ---------------------------------------------------------------- every run

  // Every response is what its calls make of it.
  ghost predicate AsTold(c: Connection, events: seq<Event>)
    reads c, c.all
  {
    && |c.all| <= |Requests(events)|
    && (c.status == Open ==> |c.all| == |Requests(events)|)
    && forall k :: 0 <= k < |c.all| ==> c.all[k].Msg() == Told(events, k)
  }

  // The socket is not torn down.
  predicate NoClose(events: seq<Event>) { forall i :: 0 <= i < |events| ==> !events[i].Close? }

  // The calls made on a response, and what it has become, for all responses.
  lemma ToldStep(c: Connection, rs: seq<Response>, events: seq<Event>, e: Event, msgs: seq<Message>)
    requires |msgs| == |rs| <= |c.all| && rs <= c.all
    requires |rs| <= |Requests(events)| && forall k :: 0 <= k < |rs| ==> msgs[k] == Told(events, k)
    requires forall k :: 0 <= k < |rs| ==> c.all[k].Msg() == After(msgs[k], CallOn(e, k))
    requires |c.all| > |rs| ==> e.Request? && |c.all| == |rs| + 1 && |rs| == |Requests(events)| && c.all[|rs|].Msg() == New(e.hasBody)
    requires c.status == Open ==> |c.all| == |Requests(events)| + if e.Request? then 1 else 0
    ensures AsTold(c, events + [e])
  {
    hide Told, Requests, CallOn, After;
    ToldNext(events, e, 0);
    forall k | 0 <= k < |c.all| ensures c.all[k].Msg() == Told(events + [e], k) {
      ToldNext(events, e, k);
    }
  }

  // The connection follows the session of the events: as it is while the socket is open,
  // and the wire, the number of responses and of complete ones always.
  ghost predicate Follows(c: Connection, events: seq<Event>)
    reads c, c.all
  {
    var s := Serve(events);
    && (c.status == Open <==> s.status == Open)
    && (c.status == Open ==> c.View() == s)
    && |c.all| == |s.replies| && c.settled == s.done <= |s.replies|
    && c.wire == Wire(s)
  }

  // One event keeps the connection in step with the session.
  lemma FollowsNext(c: Connection, events: seq<Event>, e: Event, was: Session, wire: string, open: bool)
    requires c.Valid() && (was.status == Open <==> open)
    requires open ==> was == Serve(events) && c.View() == Advance(was, e) && c.settled == c.done && was.done <= |was.replies| && wire == Wire(was)
    requires !open ==> Serve(events).status != Open && c.status != Open && |c.all| == |Serve(events).replies| && c.settled == Serve(events).done <= |c.all| && wire == Wire(Serve(events))
    requires c.status != Open ==> c.wire == wire
    ensures Follows(c, events + [e])
  {
    hide Wire, Connection.Valid;
    var all := events + [e];
    assert all[..|events|] == events;
    assert Serve(all) == Advance(Serve(events), e);
    if c.status == Open {
      hide Advance;
      c.OpenWire();
    } else if open {
      ExitWire(was, e);
    }
  }

  // The wire holds the complete responses in request order, then a prefix of the next.
  ghost predicate InOrder(c: Connection)
    reads c, c.all
  {
    && c.settled <= |c.all| && (forall k :: 0 <= k < c.settled ==> c.all[k].finished)
    && (c.settled == |c.all| ==> c.wire == Concat(Emissions(c.all)))
    && (c.settled < |c.all| ==>
          && c.wire == Concat(Emissions(c.all[..c.settled])) + c.all[c.settled].sent
          && c.all[c.settled].sent <= c.all[c.settled].emitted)
  }

  // Pending requests and responses match one to one.
  ghost predicate Matched(c: Connection)
    reads c, c.httpMessage, c.outgoing
  {
    && |c.incoming| == (if c.httpMessage == null then 0 else 1) + |c.outgoing|
    && (if c.httpMessage == null then c.outgoing == [] else c.incoming[0] == c.httpMessage.index)
    && forall i :: 0 <= i < |c.outgoing| ==> c.incoming[i + 1] == c.outgoing[i].index
  }

  // Every run of events on a new connection follows its session, so that the wire is what
  // the events make it: complete responses in request order and all the next one has handed
  // over. Until the socket is torn down each response is what its calls alone determine,
  // whenever it got the socket, and its receiver reads the header once and the body that
  // was written.
  method Run(events: seq<Event>) returns (c: Connection)
    requires forall i :: 0 <= i < |events| ==> ValidEvent(events[i])
    ensures fresh(c) && c.Valid() && Follows(c, events) && InOrder(c)
    ensures c.status == Open || c.status == HalfClosed ==> Matched(c)
    ensures NoClose(events) ==> AsTold(c, events) && forall k :: 0 <= k < |c.all| ==> Received(events, k, c.all[k].Msg())
  {
    hide Connection.Valid, Response.Valid, AsTold, Follows, Received, InOrder, Matched, NoClose;
    c := new Connection();
    var rs: seq<Response> := [];
    Unstarted(c);
    for i := 0 to |events|
      invariant c.Valid() && rs == c.all && fresh(c) && fresh(rs)
      invariant Follows(c, events[..i])
      invariant NoClose(events[..i]) ==> AsTold(c, events[..i]) && c.status != Closed
    {
      assert events[..i + 1] == events[..i] + [events[i]];
      rs := Progress(c, rs, events[..i], events[i]);
    }
    assert events[..|events|] == events;
    Summary(c, events);
  }

  // One more event.
  method Progress(c: Connection, rs: seq<Response>, ghost events: seq<Event>, e: Event) returns (rs': seq<Response>)
    requires c.Valid() && rs == c.all && ValidEvent(e) && Follows(c, events)
    requires NoClose(events) ==> AsTold(c, events) && c.status != Closed
    modifies c, rs
    ensures c.Valid() && rs' == c.all && fresh(set r | r in rs' && r !in rs) && Follows(c, events + [e])
    ensures NoClose(events + [e]) ==> AsTold(c, events + [e]) && c.status != Closed
  {
    hide Connection.Valid, Response.Valid, Told, Requests, CallOn, After, Follows, Advance, Wire;
    ghost var msgs := seq(|rs|, k requires 0 <= k < |rs| reads rs => rs[k].Msg());
    ghost var session, wire, open := c.View(), c.wire, c.status == Open;
    FollowsFacts(c, events);
    rs' := Step(c, rs, e);
    FollowsNext(c, events, e, session, wire, open);
    Grew(session, e, c.View(), open);
    if NoClose(events + [e]) {
      NoCloseFront(events, e);
      ToldStep(c, rs, events, e, msgs);
    }
  }

  lemma NoCloseFront(events: seq<Event>, e: Event)
    requires NoClose(events + [e])
    ensures NoClose(events) && !e.Close?
  {
    assert forall i :: 0 <= i < |events| ==> (events + [e])[i] == events[i];
    assert (events + [e])[|events|] == e;
  }

  lemma Summary(c: Connection, events: seq<Event>)
    requires c.Valid() && (NoClose(events) ==> AsTold(c, events))
    ensures InOrder(c) && (c.status == Open || c.status == HalfClosed ==> Matched(c))
    ensures NoClose(events) ==> AsTold(c, events) && forall k :: 0 <= k < |c.all| ==> Received(events, k, c.all[k].Msg())
  {
    hide Connection.Valid, Response.Valid, Told, Requests, Received, NoClose;
    c.WireInOrder();
    if c.status == Open || c.status == HalfClosed { c.OneToOne(); }
    if NoClose(events) {
      forall k | 0 <= k < |c.all| ensures Received(events, k, c.all[k].Msg()) {
        ToldReceived(events, k);
      }
    }
  }

  lemma FollowsFacts(c: Connection, events: seq<Event>)
    requires c.Valid() && Follows(c, events)
    ensures var s := Serve(events);
            && (c.status == Open ==> c.View() == s && c.settled == c.done && s.done <= |s.replies| && c.wire == Wire(s))
            && (c.status != Open ==> s.status != Open && |c.all| == |s.replies| && c.settled == s.done <= |c.all| && c.wire == Wire(s))
  {
    hide Wire, Serve, Connection.Valid;
    if c.status == Open { c.OpenWire(); }
  }

  // Only a request adds a response.
  lemma Grew(s: Session, e: Event, t: Session, open: bool)
    requires open ==> s.status == Open && t == Advance(s, e)
    ensures open ==> |t.replies| == |s.replies| + if e.Request? then 1 else 0
    ensures open && e.Request? ==> t.replies[|s.replies|].message == New(e.hasBody)
  {
    hide Do;
  }

  lemma Unstarted(c: Connection)
    requires c.all == [] && c.status == Open && c.wire == "" && c.done == c.settled == 0
    ensures AsTold(c, []) && Follows(c, [])
  {
  }
}
