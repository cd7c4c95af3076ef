# Verified models of the runtime's JavaScript library

This project models the parts of `libjs-node/` that are algorithms and state machines
rather than bindings, and proves what they are for:

- **Punycode** (RFC 3492): decoding what was encoded gives the string back, or one side
  reports an overflow; up to 1927 code points nothing overflows, and 1927 is the exact
  bound. The encoder with its cached count is the encoder of section 6.3, the bias is the
  formula of section 6.1, and samples of section 7.1 come out as printed there.
- **POSIX paths**: the one-pass scanner is a stack machine over segments;
  `resolve(from, relative(from, to))` is `resolve(to)`, and `relative` is the only shortest
  path with that property; `resolve` follows its arguments one after the other;
  `normalize` is idempotent; `join` flattens, exactly for which parts.
- **HTTP/1.1 responses on one connection**: on every run of requests, calls on any pending
  response, `finish`, the peer's end and `close`, the wire is a function of the events: the
  finished responses in request order and all the next one has handed over. Until the socket
  is torn down each response is a function of the calls made on it, whenever it got the
  socket, and its receiver reads the header once and then exactly the body that was written;
  requests and responses match, and sizes add up. The connection ends after exactly the
  responses whose first header says so or that a half-open end of the peer found last.
- **Query strings**: the one-pass parser with its "was anything encoded" shortcut is split,
  cut and decode on all text where skipping the decoding is right, and what it does on any
  other text is stated too; printing and parsing give every object back exactly when the
  limit on pairs is not exceeded.
- **Events**: the async iterator of `events.on` with its two queues delivers a stream whose
  i-th item settles the i-th `next()`, whatever the interleaving, exactly unless an error is
  lost or added; the function-or-array
  listener table is a map to lists; an emission calls the listeners present at its start in
  order, whatever changes meanwhile; `once` functions run at most once.
- **Connecting to several addresses** (RFC 8305): the order of attempts, and the machine of
  attempts, timeouts and failures: what every run of events makes of the socket, which is
  connected exactly by the success of a live request.
- **The buffer pool**: slices are in bounds, aligned and disjoint, for exactly which pool sizes.

Each file of loops has a specification beside it: a `...Spec` module (or the first part of
the file) says what is computed, the code module proves the source's loops and field
updates against it, and a `...Laws` module proves what the specification promises.
`dafny verify dfyconfig.toml` checks the project.

Characters of paths, query strings and HTTP messages are Dafny characters; Punycode works
on UTF-16 code units. The file system's working directory, `isIP`, `decodeURIComponent`,
UTF-8 decoding, `escape`, the header text, the answers of the operating system and the
order of events are parameters, so every theorem holds for all of them.

Where the code and its documentation or a natural expectation differ, the code is modelled:

- `end()` on a corked chunked message writes the last chunk before the buffered data;
  `HttpMessageLaws.ChunkedBodyReceived` states exactly when the body is still right and
  `CorkedEndBreaks` shows a message where it is not.
- An async iterator loses a falsy error that no reader waits for, although it hands the same
  error to a reader that does (`IteratorLaws.FalsyErrorLost`), and `throw()` on a finished
  iterator fails a second read or replaces an error nobody has read, although the comment in
  `next` says that the error comes once (`IteratorLaws.LateThrowSeen`).
  `IteratorLaws.OutcomeOfRead` states exactly on which runs none of this happens.
- The high watermark of an async iterator bounds the queue of a stream that is not paused
  exactly if the low one is at most one above it (`IteratorLaws.WatermarkExact`).
- `alignPool` uses 32-bit operators, so a pool of more than 2^31 octets comes to an offset
  below zero, where no slice can be made (`PoolSpec.SafeExact`).
- `off` undoes `prependListener` only under a condition (`EmitterSpec.RemoveUndoesPrepend`).
- Joining some arguments of `join` first can change the result, if they are all empty, climb
  above the root, or lead to the root without ending in a slash
  (`PathLaws.JoinFlattensExactly`).

## Model

| member | source | states |
|---|---|---|
| `Utf16.Ucs2Decode` | libjs-node/punycode.js:113-135 | the loop with its bit masks decodes surrogate pairs and leaves lone surrogates alone |
| `Utf16.UnitsRoundTrip` | libjs-node/punycode.js:113-145 | every string, ill-formed ones included, is recovered from its code points |
| `Utf16.MaskTests` | libjs-node/punycode.js:119-124 | the mask tests and the mask arithmetic are the surrogate ranges and the pair formula |
| `Bootstring.DigitToBasic` | libjs-node/punycode.js:180-184 | a lower-case basic code unit other than the delimiter that `basicToDigit` maps back |
| `Bootstring.DigitsExact` | libjs-node/punycode.js:156-184 | `basicToDigit` gives a digit exactly for the code units that write it, letters in either case |
| `Bootstring.Threshold` | libjs-node/punycode.js:364-364 | the threshold lies between tMin and tMax |
| `Bootstring.ComputeAdapt` | libjs-node/punycode.js:191-199 | the loop terminates with the adapted bias, whose formula is `PunycodeSamples.AdaptFormula` |
| `Bootstring.AdaptBound` | libjs-node/punycode.js:191-199 | for 31-bit deltas the bias never exceeds 198 |
| `Bootstring.AdaptIgnoresCount` | libjs-node/punycode.js:191-199 | a delta below the count is divided to nothing, so the count does not matter |
| `PunycodeSamples.AdaptFormula` | libjs-node/punycode.js:191-199 | for every delta, count and flag the bias is the formula of section 6.1 of RFC 3492: the delta divided by 700 the first time and by 2 later, increased by its share, i times divided by 35 until at most 455, gives 36 i + 36 e / (e + 38) |
| `PunycodeSamples.DownAtOnce` | libjs-node/punycode.js:191-199 | the repeated division is one division by a power of 35 |
| `PunycodeSamples.DigitTable` | libjs-node/punycode.js:156-184 | `a` to `z` in either case are 0 to 25 and `0` to `9` are 26 to 35; digits are written in lower case |
| `PunycodeSamples.ThresholdFormula` | libjs-node/punycode.js:364-364 | the threshold is the distance to the bias, kept between 1 and 26 |
| `PunycodeSamples.SampleR` | libjs-node/punycode.js:208-388 | sample (R) of section 7.1 of RFC 3492, seven code points without a basic one, is written as the standard says and read back |
| `PunycodeSamples.SampleL` | libjs-node/punycode.js:208-388 | sample (L) of that section, six code points among two basic ones |
| `Bootstring.VarIntShape` | libjs-node/punycode.js:361-376 | for every delta and bias the digits lie in 0..35, all but the last reach their threshold and the last does not |
| `Bootstring.WeightGuard` | libjs-node/punycode.js:255-271 | the guard on the weight fires only where the guard on the next digit would |
| `Bootstring.DecodeVarInt` | libjs-node/punycode.js:243-273 | the decoder consumes exactly the digits of a delta and adds it, or reports overflow exactly when the sum leaves 31 bits |
| `PunycodeSpec.NextExists` | libjs-node/punycode.js:339-344 | while code points are unhandled the search for the smallest one at least n succeeds |
| `PunycodeSpec.HandledStep` | libjs-node/punycode.js:356-381 | what one step of the encoder's scan adds to the handled code points, and where |
| `PunycodeCode.EncodeDelta` | libjs-node/punycode.js:361-376 | the q loop writes the variable-length integer |
| `PunycodeCode.FindNext` | libjs-node/punycode.js:339-344 | the smallest code point at least n |
| `PunycodeCode.CopyBasic` | libjs-node/punycode.js:317-321 | the basic code points in order |
| `PunycodeCode.StaleCount` | libjs-node/punycode.js:348-380 | the cached count gives the same bias as the current one: a repeat within a pass has a delta below it |
| `PunycodeCode.ScanPass` | libjs-node/punycode.js:356-381 | one pass over the input, with the cached count, emits what the RFC encoder emits or overflows with it |
| `PunycodeCode.EncodePass` | libjs-node/punycode.js:335-386 | one round of the outer loop is one round of the RFC encoder |
| `PunycodeCode.Encode` | libjs-node/punycode.js:302-388 | the code is the encoder of section 6.3 of RFC 3492, errors included |
| `PunycodeCode.DecodeDelta` | libjs-node/punycode.js:243-273 | the inner loop reads one variable-length integer or fails with the same error |
| `PunycodeCode.FindLastDelimiter` | libjs-node/punycode.js:220-223 | the last delimiter |
| `PunycodeCode.Decode` | libjs-node/punycode.js:208-293 | the code is the decoder of section 6.2 of RFC 3492, errors included |
| `PunycodeLaws.Land` | libjs-node/punycode.js:275-288 | when encoder and decoder are in step, the decoder lands on the code point and position the encoder stands at |
| `PunycodeLaws.PassRecovers` | libjs-node/punycode.js:335-386 | the lock-step invariant at the start of a pass: what is still to be written is read back to the whole input |
| `PunycodeLaws.ScanRecovers` | libjs-node/punycode.js:356-381 | the lock-step invariant inside a pass |
| `PunycodeLaws.ReadDeltas` | libjs-node/punycode.js:236-290 | the decoder's bias follows the encoder's over any sequence of deltas |
| `PunycodeLaws.DecodeParts` | libjs-node/punycode.js:220-231 | the decoder finds the basic part and the digits the encoder joined, also without a delimiter |
| `PunycodeLaws.PointsRecover` | libjs-node/punycode.js:208-388 | on code points: recovered or overflow, and no overflow up to the safe length |
| `PunycodeLaws.RoundTrip` | libjs-node/punycode.js:208-388 | for every string, encoding gives text that decodes to the string or overflows; never `not-basic` or `invalid-input` |
| `PunycodeLaws.RoundTripShort` | libjs-node/punycode.js:208-388 | up to 1927 code points neither side overflows and the string comes back |
| `PunycodeLaws.EncodeInjective` | libjs-node/punycode.js:302-388 | different strings of that length have different encodings |
| `PunycodeLaws.SafeLengthIsExact` | libjs-node/punycode.js:348-351 | some input one code point longer overflows |
| `PunycodeErrors.DecodeRefuses` | libjs-node/punycode.js:208-293 | `not-basic` exactly if a code unit before the last delimiter is not basic; text that is decoded has only digits behind it |
| `PunycodeErrors.DecodeIgnoresCase` | libjs-node/punycode.js:156-293 | the case of digits does not matter |
| `PosixPath.DotsMeaning` | libjs-node/path.js:107-150 | the dot counter is 1 or 2 exactly for the segments `.` and `..` |
| `PosixPath.Pop` | libjs-node/path.js:113-132 | cutting the result at its last slash pops the stack it stands for |
| `PosixPath.GoUp` | libjs-node/path.js:109-137 | a `..` segment pops, is kept, or is dropped as `allowAboveRoot` says |
| `PosixPath.EndSegment` | libjs-node/path.js:106-146 | the end of a segment pushes it on the stack |
| `PosixPath.NormalizeString` | libjs-node/path.js:92-154 | the scanner equals split, fold the stack machine, join, for both values of `allowAboveRoot` |
| `PosixPath.Normalize` | libjs-node/path.js:1293-1316 | the code equals its specification, with the empty path, roots and trailing slashes |
| `PosixPath.JoinPaths` | libjs-node/path.js:1332-1349 | the non-empty arguments joined by slashes and normalized |
| `PosixPath.Collect` | libjs-node/path.js:1252-1267 | the backward loop takes arguments up to the last absolute one |
| `PosixPath.Resolve` | libjs-node/path.js:1245-1287 | the code equals its specification |
| `PosixRelative.ResolveOne` | libjs-node/path.js:1245-1287 | resolving one path gives the slash-joined stack of its location, which is normal |
| `PosixRelative.Compare` | libjs-node/path.js:1377-1386 | the common prefix of the two texts and its last separator |
| `PosixRelative.Diverge` | libjs-node/path.js:1377-1411 | that separator is where the segment lists diverge |
| `PosixRelative.Branch` | libjs-node/path.js:1387-1411 | where the two paths part, also when one is above the other or the root |
| `PosixRelative.Climb` | libjs-node/path.js:1413-1421 | one `..` for each segment left of `from` |
| `PosixRelative.Relative` | libjs-node/path.js:1356-1426 | the text comparison equals: one `..` for each segment of `from` after the common ones, then the rest of `to` |
| `PathSpec.FoldReduced` | libjs-node/path.js:92-154 | folding segments that were folded already, keeping `..`, gives what folding them directly gives |
| `PathSpec.FoldIdempotent` | libjs-node/path.js:92-154 | a normal stack folds to itself |
| `PathLaws.UpThenDown` | libjs-node/path.js:1356-1426 | from one location up to the common part and down again leads to the other |
| `PathLaws.ResolveRelative` | libjs-node/path.js:1245-1426 | `resolve(from, relative(from, to))` is `resolve(to)` for every `from` and `to` |
| `PathRoutes.RelativeShortest` | libjs-node/path.js:1356-1426 | of all relative paths that lead from `from` to `to`, `relative` gives the one with the fewest segments, and no other is as short; it is empty exactly if the two resolve alike |
| `PathRoutes.RouteLength` | libjs-node/path.js:1356-1426 | a walk between two locations takes at least the steps up to their common part and down again, and only that walk takes no more |
| `PathRoutes.ResolveConcat` | libjs-node/path.js:1245-1287 | resolving all arguments is resolving the later ones from where the earlier ones lead |
| `PathRoutes.AbsoluteRestarts` | libjs-node/path.js:1252-1267 | an absolute argument makes the earlier ones and the working directory immaterial |
| `PathRoutes.ResolveSteps` | libjs-node/path.js:1245-1287 | a name leads into a directory and `..` out of it again; the root is its own parent; `.` and nothing lead nowhere |
| `PathRoutes.ResolveSlash` | libjs-node/path.js:1245-1287 | a path is followed segment by segment |
| `PathRoutes.JoinResolves` | libjs-node/path.js:1245-1349 | joining and then resolving is resolving, if no argument after the first non-empty one is absolute |
| `PathRoutes.RelativeCwd` | libjs-node/path.js:1268-1287 | from a relative working directory, with relative arguments, resolving is joining without the slash at the end |
| `PathLaws.NormalizeShape` | libjs-node/path.js:1293-1316 | a normalized path is non-empty, keeps absoluteness and trailing slash, and has the folded stack as segments |
| `PathLaws.NormalizeIdempotent` | libjs-node/path.js:1293-1316 | `normalize` is idempotent |
| `PathLaws.NormalizeKeepsTarget` | libjs-node/path.js:1245-1316 | resolving a normalized path leads where the path leads |
| `PathLaws.JoinFlattens` | libjs-node/path.js:1332-1349 | joining some arguments first changes nothing if the first non-empty one of them is relative, or they climb nowhere above the root and lead below it or end in a slash |
| `PathLaws.JoinFlattensExactly` | libjs-node/path.js:1332-1349 | joining some arguments first changes nothing, whatever stands before and after them, if and only if that condition holds |
| `PathLaws.AbsoluteBreaks` | libjs-node/path.js:1332-1349 | absolute arguments outside the condition change what stands behind a directory |
| `PathLaws.EmptyBreaks` | libjs-node/path.js:1332-1349 | arguments that are all empty become a dot, which hides a trailing slash |
| `ChunkedBody.ReadHexInvertsToHex` | libjs-node/_http_outgoing.js:961-961 | the chunk size is read back |
| `ChunkedBody.DecodeFrames` | libjs-node/_http_outgoing.js:954-968 | frames and the last chunk decode to the concatenated data (section 7.1 of RFC 9112) |
| `ChunkedBody.FramesHaveNoEnd` | libjs-node/_http_outgoing.js:954-968 | frames alone are not a complete body |
| `ChunkedBody.FrameText` | libjs-node/_http_outgoing.js:961-964 | the size in lower-case hexadecimal, a line end, the data, a line end |
| `HttpCallLaws.HeaderIsFirst` | libjs-node/_http_outgoing.js:843-1187 | the first call that brings a header decides header, framing and body, and the message has ended exactly if `end` was called |
| `HttpCallLaws.BodyIsWritten` | libjs-node/_http_outgoing.js:843-1107 | the body is everything written up to and with the first `end`, or nothing if there may be none |
| `HttpCallLaws.HeaderSentExactly` | libjs-node/_http_outgoing.js:341-364 | the header is out exactly after it was flushed, something that may be written was, or the message ended |
| `HttpCallLaws.HeldWrites` | libjs-node/_http_outgoing.js:954-960 | while corked, writes hand nothing over |
| `HttpCallLaws.CorkMerges` | libjs-node/_http_outgoing.js:258-298 | corked writes go out at the uncork as one chunk, uncorked ones as a chunk each |
| `HttpMessageLaws.FlushShape` | libjs-node/_http_outgoing.js:265-298 | corked writes merged into one chunk keep the body |
| `HttpMessageLaws.CallsShape` | libjs-node/_http_outgoing.js:258-1107 | on every sequence of calls with no uncork lacking its cork, what was emitted is the header once and the framed or plain body |
| `HttpMessageLaws.LateExact` | libjs-node/_http_outgoing.js:1077-1095 | payload comes after the last chunk exactly if `end` found something corked |
| `HttpMessageLaws.ChunkedBodyReceived` | libjs-node/_http_outgoing.js:258-1107 | before `end` a receiver has no complete body; after it, it decodes exactly the writes with nothing following if and only if `end` found nothing corked (section 7.1 of RFC 9112) |
| `HttpMessageLaws.PlainBodyReceived` | libjs-node/_http_outgoing.js:341-1107 | a message that is not chunked is the header once and everything written; without a body just the header |
| `HttpMessageLaws.CorksInvisible` | libjs-node/_http_outgoing.js:258-298 | the receiver decodes the same as if no cork had been called |
| `HttpMessageLaws.CorkedEndBreaks` | libjs-node/_http_outgoing.js:1077-1095 | a message ended while a chunk is corked: the chunk follows the last chunk and the receiver does not read what was written |
| `HttpMessageLaws.UnbalancedReorders` | libjs-node/_http_outgoing.js:258-298 | an uncork without its cork lets a later write overtake an earlier one |
| `Http.Response.FlushOutput` | libjs-node/_http_outgoing.js:1154-1177 | the queue goes to the socket in order and its size is subtracted |
| `Http.Response.WriteRaw` | libjs-node/_http_outgoing.js:367-393 | octets go to the owned socket after what is queued, to the queue otherwise, or are dropped on a destroyed message |
| `Http.Response.Send` | libjs-node/_http_outgoing.js:341-364 | the first write carries the header, exactly once, before everything else; what is emitted grows by exactly the header if due and the octets |
| `Http.Response.SendFrame` | libjs-node/_http_outgoing.js:275-294 | size, data and line ends add up to one frame |
| `Http.Response.StoreHeader` | libjs-node/_http_server.js:353-444 | the message gets the header before anything is written; the mark of the last response is only added, or decided afresh if the program removed the connection header |
| `Http.Response.WriteHead` | libjs-node/_http_server.js:353-357 | the message follows its specification: a second header is refused and changes nothing |
| `Http.Response.Cork` | libjs-node/_http_outgoing.js:258-263 | the message follows its specification: one cork more, nothing written |
| `Http.Response.FlushChunks` | libjs-node/_http_outgoing.js:265-298 | the message follows its specification: the last uncork writes the buffered chunks as one frame and empties the buffer |
| `Http.Response.Uncork` | libjs-node/_http_outgoing.js:265-298 | the message follows its specification unless its socket is destroyed |
| `Http.Response.WriteChunk` | libjs-node/_http_outgoing.js:954-968 | the message follows its specification: a chunk is buffered while corked and framed otherwise |
| `Http.Response.Write` | libjs-node/_http_outgoing.js:843-972 | the message follows its specification unless its socket is destroyed; nothing happens after `end` |
| `Http.Response.SendEnd` | libjs-node/_http_outgoing.js:1077-1085 | the message follows its specification: the last chunk exactly for a chunked message with a body; the finish callback is due or queued |
| `Http.Response.End` | libjs-node/_http_outgoing.js:1029-1107 | the message follows its specification unless its socket is destroyed: last write, last chunk, then what is buffered; a second `end` changes nothing |
| `Http.Response.Finish` | libjs-node/_http_outgoing.js:1077-1095 | the last write, the uncork and the mark, as specified |
| `Http.Response.FlushHeaders` | libjs-node/_http_outgoing.js:1180-1187 | the message follows its specification unless its socket is destroyed: the header goes out and nothing else |
| `Http.Response.AssignSocket` | libjs-node/_http_server.js:291-300 | the socket is free, becomes this response's, and what was queued goes out; late attachment cannot be seen on the wire |
| `Http.Response.DetachSocket` | libjs-node/_http_server.js:302-307 | the socket was this response's and is free |
| `Http.Connection.Write` | libjs-node/_http_outgoing.js:843-972 | a write on any pending response, in any order, keeps the connection valid and the other responses as they were; the message becomes what the call makes of it |
| `Http.Connection.WriteHead` | libjs-node/_http_server.js:353-444 | the same for `writeHead` |
| `Http.Connection.FlushHeaders` | libjs-node/_http_outgoing.js:1180-1187 | the same for `flushHeaders` |
| `Http.Connection.Cork` | libjs-node/_http_outgoing.js:258-263 | the same for `cork` |
| `Http.Connection.Uncork` | libjs-node/_http_outgoing.js:265-298 | the same for `uncork` |
| `Http.Connection.End` | libjs-node/_http_outgoing.js:1029-1107 | the same for `end` |
| `Http.Connection.OnIncoming` | libjs-node/_http_server.js:1084-1156 | a new, unused response takes the free socket or joins the queue; never an occupied socket; the other responses are unchanged |
| `Http.Connection.DueIsCurrent` | libjs-node/_http_server.js:1014-1027 | a response whose `finish` is due owns the socket and answers the first pending request |
| `Http.Connection.DueExactly` | libjs-node/_http_server.js:1014-1067 | on an open connection `finish` is due exactly for the first response that has not finished, as soon as it has ended: nothing stalls |
| `Http.Connection.OnFinish` | libjs-node/_http_server.js:1014-1067 | the assertion on the first request and the one in `detachSocket` hold; the next response gets a free socket, or a last response ends the connection; no message changes |
| `Http.Connection.OnClose` | libjs-node/_http_server.js:836-848 | pending requests are aborted and nothing more is written, also after a last response |
| `Http.Connection.OnEnd` | libjs-node/_http_server.js:850-866 | when the peer ends, the server ends its side, or in half-open mode with responses pending marks exactly the last of them; requests and responses stay in step and no message changes |
| `Http.Connection.WireInOrder` | libjs-node/_http_server.js:1014-1156 | in every valid state the wire is the complete responses in request order and a prefix of the next one (section 9.3.2 of RFC 9112) |
| `Http.Connection.NothingWaits` | libjs-node/_http_outgoing.js:1137-1177 | everything the response with an open socket has handed over is on the wire |
| `Http.Connection.OpenWire` | libjs-node/_http_server.js:1014-1156 | on an open socket the wire is the finished responses and all of the next one |
| `Http.Connection.OneToOne` | libjs-node/_http_server.js:1014-1156 | up to a close or a last response, the current response and the queue match the pending requests one to one, in order |
| `Http.Connection.GrownBalance` | libjs-node/_http_server.js:802-805 | a new response keeps `outgoingData` the sum of the sizes of all queues |
| `Http.Connection.BalanceKept` | libjs-node/_http_outgoing.js:352-391 | a call on one response keeps that sum and the order of the wire |
| `Http.Step` | libjs-node/_http_server.js:836-1156 | every event advances the session on an open socket, status, responses and finished ones included; once the socket is not writable nothing is written; until it is torn down a call changes exactly the message it is made on |
| `HttpSession.ToldReceived` | libjs-node/_http_outgoing.js:258-1107 | what the calls on response k make of it is received as header and body |
| `HttpSession.SessionTold` | libjs-node/_http_server.js:1084-1156 | every request on an open connection has its response, which is what the calls on it make of it |
| `HttpSession.FinishedInOrder` | libjs-node/_http_server.js:1014-1067 | responses finish in request order, each after it has ended |
| `HttpSession.StaysOpen` | libjs-node/_http_server.js:1014-1067 | without a close, a peer's end or a last response the connection stays open |
| `HttpSession.ExitWire` | libjs-node/_http_server.js:836-1067 | when the socket ceases to be open the wire stays as it is |
| `HttpSessionLaws.LastExactly` | libjs-node/_http_outgoing.js:467-513 | on every run of an open connection a response is the last one exactly if the first header its calls brought says so, or a half-open end of the peer found it last and no header decided afresh afterwards |
| `HttpSessionLaws.StoredExactly` | libjs-node/_http_outgoing.js:843-1187 | a response has its header exactly if a call brought one, and has ended exactly if `end` was called |
| `HttpSessionLaws.FinishEnds` | libjs-node/_http_server.js:1014-1067 | without an end of the peer, the response that finishes ends the connection if and only if the first header its calls brought says that it is the last |
| `HttpSessionLaws.LeavesOpen` | libjs-node/_http_server.js:836-1067 | an open connection ceases to be open exactly at a close, at an end of the peer that waits for no response, and when the last response finishes; `finish` counts exactly for the next response, once it has ended |
| `Http.Apply` | libjs-node/_http_outgoing.js:258-1187 | a call on any response advances the session by exactly that call |
| `Http.Emit` | libjs-node/_http_server.js:1014-1067 | `finish` advances the session exactly if it is due: one response more is finished, and the connection ends if it was the last |
| `Http.Run` | libjs-node/_http_server.js:836-1156 | every run follows its session: the status is open exactly if the session is, the wire is the finished responses in request order and all the next one has handed over, and there is one response for each request taken; pending requests and responses match one to one; without a close each response is what the calls on it make of it, and with corks at least uncorks its receiver reads the header once, no complete body before `end`, and after it exactly the writes if and only if `end` found nothing corked |
| `QueryCode.UnescapeBuffer` | libjs-node/querystring.js:84-124 | the buffer loop decodes every `%HH` and nothing else, and returning the whole buffer without escapes is right |
| `QueryCode.UnescapePlain` | libjs-node/querystring.js:131-137 | text without escapes is decoded to itself |
| `QueryLaws.BytesEscaped` | libjs-node/querystring.js:84-124 | octets written as `%HH`, each digit in either case, are read back, and the text behind them is read by itself |
| `QueryLaws.BytesPlainFirst` | libjs-node/querystring.js:84-124 | any other ASCII character stands for itself, or as `+` for a space if asked |
| `QueryCode.CountsNext` | libjs-node/querystring.js:406-449 | the counter reaches three exactly when an escape is complete |
| `QueryCode.KeyChecked` | libjs-node/querystring.js:405-422 | the flag of the key is up exactly if the key read so far has an escape |
| `QueryCode.KeyBeyond` | libjs-node/querystring.js:423-449 | behind its first escape the key feeds the flag of the value |
| `QueryCode.ValueChecked` | libjs-node/querystring.js:431-449 | the flag of the value is up exactly if the value without its `+` has an escape, or the key has one behind its first |
| `QueryCode.CheckCharacter` | libjs-node/querystring.js:436-449 | the flag goes up at the third character of a possible escape |
| `QueryCode.KeyStep` | libjs-node/querystring.js:404-449 | a key character keeps the collected key right; feeding the value's check does no harm |
| `QueryCode.ValueStep` | libjs-node/querystring.js:431-449 | a value character keeps the collected value right |
| `QueryCode.PieceEnd` | libjs-node/querystring.js:362-388 | at a separator key and value are decoded exactly as their flags say |
| `QueryCode.AddKeyVal` | libjs-node/querystring.js:286-304 | a repeated key collects its values in order |
| `QueryCode.Parse` | libjs-node/querystring.js:317-467 | for every text: the first pieces up to the limit, without empty ones, cut at the first `=`, `+` to space, the key decoded exactly if it has an escape and the value if its flag is up, collected |
| `QueryCode.AsIsRight` | libjs-node/querystring.js:286-304 | skipping the decoding is right for a part that is ASCII, has no `%`, or has an escape |
| `QueryCode.ParseRight` | libjs-node/querystring.js:317-467 | on text of such parts the parser equals split, cut and decode |
| `QueryCode.StrayPercent` | libjs-node/querystring.js:405-449 | a part outside ASCII with a `%` but no escape is kept as it is, while decoding would cut its characters to octets |
| `QueryLaws.EscapedIsDecoded` | libjs-node/querystring.js:286-304 | whatever has an escape is decoded |
| `QueryLaws.PlainIsKept` | libjs-node/querystring.js:286-304 | where neither key nor value has an escape, and the value no `+`, both are kept, whatever the decoder is |
| `QueryLaws.FlagTooEarly` | libjs-node/querystring.js:423-449 | the flag of a value goes up over `%+41` and by a second escape of the key |
| `QueryLaws.PairAt` | libjs-node/querystring.js:389-449 | a piece is cut at its first `=`; without one it is a key with an empty value |
| `QueryLaws.ParseCons` | libjs-node/querystring.js:317-467 | one piece after another, empty ones ignored; the limit counts the pieces, empty or not |
| `QueryPrint.JoinEmpty` | libjs-node/querystring.js:250-263 | the text so far is empty exactly if no field was printed, so testing it places the separators |
| `QueryPrint.AppendValues` | libjs-node/querystring.js:245-264 | one field for each value, none for an empty array |
| `QueryPrint.Stringify` | libjs-node/querystring.js:227-269 | the loops print the fields of all keys and values in order |
| `QueryLaws.PairsInOrder` | libjs-node/querystring.js:227-269 | the keys one after another, each with its values in order |
| `QueryLaws.PrintedCons` | libjs-node/querystring.js:227-269 | the fields with one `&` between two |
| `QueryLaws.PairOfField` | libjs-node/querystring.js:227-467 | a printed field is cut and decoded to its key and value |
| `QueryLaws.PiecesOfFields` | libjs-node/querystring.js:227-467 | the pieces of a printed text are its fields |
| `QueryLaws.AddAllValues` | libjs-node/querystring.js:286-304 | every key holds exactly its values in order |
| `QueryLaws.RoundTrip` | libjs-node/querystring.js:227-467 | for every object and key order, parsing the printed text gives its canonical form if and only if the pairs do not exceed the limit |
| `QueryLaws.CanonicalSame` | libjs-node/querystring.js:286-304 | the canonical form is the object itself exactly if its arrays hold at least two values |
| `QueryLaws.StringifyInjective` | libjs-node/querystring.js:227-269 | objects that print alike hold the same values |
| `QueryLaws.PrintAndParse` | libjs-node/querystring.js:227-467 | the printer's loops and then the parser's give an object back exactly when the pairs do not exceed the limit |
| `EventIterator.QueueSize` | libjs-node/events.js:1058-1065 | the event queue holds the unread events, and one of the two queues is empty |
| `EventIterator.LateError` | libjs-node/events.js:1180-1185 | an error after the end replaces an unread one or follows what is buffered |
| `EventIterator.Iterator.Settle` | libjs-node/events.js:1177-1193 | only a promise that is pending is settled |
| `EventIterator.Iterator.EventHandler` | libjs-node/events.js:1169-1178 | the queues follow the stream when an event arrives |
| `EventIterator.Iterator.ErrorHandler` | libjs-node/events.js:1180-1185 | the same for an error, which goes to the first waiting reader or behind the buffered events, where a falsy one is not noticed |
| `EventIterator.Iterator.Throw` | libjs-node/events.js:1103-1109 | the same for `throw`, which refuses what is falsy or no instance of Error |
| `EventIterator.Iterator.CloseHandler` | libjs-node/events.js:1187-1197 | every waiting promise is told that there is no more |
| `EventIterator.Iterator.Next` | libjs-node/events.js:1068-1097 | unread events first, then the error if it is truthy, then the end, otherwise a pending promise |
| `EventIterator.Iterator.Execute` | libjs-node/events.js:1058-1197 | every run of the two queues is a run of the stream |
| `IteratorLaws.OutcomeOfRead` | libjs-node/events.js:1058-1197 | every read i gets item i of: events before the close, the error once, then done, whenever reads are made, if and only if no error is lost or added |
| `IteratorLaws.DeliveryExact` | libjs-node/events.js:1058-1197 | the same of the items: exactly if a falsy error met a waiting reader and the last error thrown after the close is the closing one, still unread |
| `IteratorLaws.FalsyErrorLost` | libjs-node/events.js:1083-1181 | a falsy error is lost without a reader waiting and delivered with one |
| `IteratorLaws.LateThrowSeen` | libjs-node/events.js:1103-1185 | a throw after the close fails a second read, or replaces an unread error |
| `IteratorLaws.NoneLost` | libjs-node/events.js:1058-1197 | on every run the events read and then the events unread are the events emitted before the close, in order |
| `IteratorLaws.SettledStays` | libjs-node/events.js:1058-1197 | a settled promise never changes |
| `IteratorLaws.WatermarkExact` | libjs-node/events.js:1070-1175 | not paused implies at most `high` unread events on every run if and only if `low <= high + 1` |
| `IteratorLaws.Overfull` | libjs-node/events.js:1070-1175 | the run that breaks the bound for larger low watermarks |
| `IteratorLaws.PauseOnRuns` | libjs-node/events.js:1070-1175 | on every run the emitter is paused at exactly the emissions that take the queue above the high watermark and resumed at exactly the reads that take it below the low one |
| `EmitterSpec.RemoveAt` | libjs-node/events.js:694-710 | the last matching position is removed |
| `EmitterSpec.RemoveLength` | libjs-node/events.js:669-720 | one listener goes if there is a match, none otherwise |
| `EmitterSpec.RemoveUndoesAppend` | libjs-node/events.js:536-720 | `off` undoes `on` |
| `EmitterSpec.RemoveUndoesPrepend` | libjs-node/events.js:612-720 | `off` undoes `prependListener` exactly if nothing but the listener stands before its last match |
| `EmitterSpec.PrependNotUndone` | libjs-node/events.js:612-720 | a list where it does not |
| `EmitterSpec.OnceAtMostOnce` | libjs-node/events.js:617-633 | in every run, with emissions nested and interleaved with changes, a `once` function runs at most once |
| `EmitterSpec.EmissionCalls` | libjs-node/events.js:502-530 | an emission calls the listeners present at its start, each once, in list order, and nobody else, whatever is added or removed meanwhile; a wrapper that has fired runs nothing, and one that has not runs itself and what it wraps |
| `EmitterSpec.PlainRuns` | libjs-node/events.js:519-530 | without `once` what is run is the list itself |
| `EmitterSpec.SilentEmit` | libjs-node/events.js:502-505 | without listeners nothing happens |
| `EmitterSpec.OuterFrames` | libjs-node/events.js:519-530 | an emission inside another leaves the listeners the outer one has still to call |
| `EmitterSpec.EmissionLeaves` | libjs-node/events.js:502-633 | after an emission the functions added by `on` are listed as before and those added by `once` are gone |
| `EmitterSpec.ListsAfter` | libjs-node/events.js:536-750 | what each change makes of the list of a type; other types keep theirs |
| `EmitterSpec.RemoveOnce` | libjs-node/events.js:669-720 | `off` with the function given to `once` removes its wrapper |
| `Emitter.Lookup` | libjs-node/events.js:536-591 | absent for no listener, a function for one, an array for two or more |
| `Emitter.EventEmitter.AddListener` | libjs-node/events.js:536-591 | the representation follows the list, appended or prepended; the count follows the types |
| `Emitter.EventEmitter.RemoveListener` | libjs-node/events.js:669-720 | the last match goes; a single listener left is stored bare, an empty type disappears |
| `Emitter.EventEmitter.RemoveAllListeners` | libjs-node/events.js:731-741 | no listener is left |
| `Emitter.EventEmitter.RemoveAllOf` | libjs-node/events.js:738-750 | no listener of the type is left |
| `Emitter.EventEmitter.BeginEmit` | libjs-node/events.js:502-519 | the listeners to be called are those present now; reports whether there are any |
| `Emitter.EventEmitter.CallNext` | libjs-node/events.js:519-530 | the innermost emission calls its next listener or returns |
| `Emitter.EventEmitter.Invoke` | libjs-node/events.js:617-625 | a wrapper removes itself, then calls what it wraps, be it a wrapper again; one that fired does nothing |
| `Emitter.EventEmitter.Execute` | libjs-node/events.js:536-777 | every run of the representation is a run of the plain lists |
| `AddressSort.Groups` | libjs-node/net.js:1462-1487 | one pass deduplicates each family; the first usable address decides which is first |
| `AddressSort.Alternate` | libjs-node/net.js:1507-1516 | the index loop interleaves the families |
| `AddressSort.Prepare` | libjs-node/net.js:1462-1553 | attempt list, single address, or the error about the first address |
| `AddressLaws.OrderPerFamily` | libjs-node/net.js:1462-1516 | each family appears as its usable addresses with repeats dropped, in order |
| `AddressLaws.DistinctKeepsOrder` | libjs-node/net.js:1481-1485 | dropping repeats keeps the order of first occurrences |
| `AddressLaws.OrderMembers` | libjs-node/net.js:1462-1516 | exactly the usable addresses are tried |
| `AddressLaws.OrderOnce` | libjs-node/net.js:1481-1485 | none is tried twice |
| `AddressLaws.OrderAlternates` | libjs-node/net.js:1507-1516 | the first usable address is first and the families alternate while both last (section 4 of RFC 8305) |
| `AddressLaws.PlanErrors` | libjs-node/net.js:1490-1505 | exactly when each plan comes about: an error exactly if nothing is usable, about the first address; one usable address is connected to directly |
| `ConnectSpec.FailuresExact` | libjs-node/net.js:1706-1744 | the errors are those of the attempts that failed or timed out |
| `ConnectSpec.FailuresOrdered` | libjs-node/net.js:1706-1744 | at most one for each attempt, in order |
| `ConnectSpec.AttemptedOnce` | libjs-node/net.js:1190-1190 | each address is attempted at most once, in order |
| `ConnectSpec.AttemptedExactly` | libjs-node/net.js:1140-1190 | exactly the attempts made whose socket could be bound and that were not blocked are listed |
| `ConnectSpec.VerdictAccounts` | libjs-node/net.js:1127-1136 | a connection follows one error for each earlier attempt; a failure carries one for each attempt; no failure is without errors |
| `ConnectSpec.RunSound` | libjs-node/net.js:1118-1744 | on every run at most one request is live, while connecting and not aborted one is, and the verdict is the one the attempts determine unless someone else destroyed or aborted |
| `ConnectSpec.RunJudged` | libjs-node/net.js:1118-1744 | without an abort or a destroy the verdict is exactly the one the attempts determine |
| `ConnectSpec.VerdictFinal` | libjs-node/net.js:1118-1744 | a verdict and the fate of an attempt never change: the socket connects at most once |
| `ConnectSpec.FailureRecorded` | libjs-node/net.js:1706-1744 | a live request that fails or times out leaves exactly one error about its attempt, for good |
| `ConnectSpec.SuccessConnects` | libjs-node/net.js:1590-1730 | a live request that succeeds on an undecided socket connects it to that attempt for good, after one error for each earlier one |
| `ConnectSpec.ConnectedBySuccess` | libjs-node/net.js:1590-1730 | a socket is connected to an attempt only by an event that completed this attempt while it was live |
| `ConnectSpec.NothingAfter` | libjs-node/net.js:1691-1744 | after a verdict with no live request nothing is attempted any more |
| `ConnectSpec.DestroyWins` | libjs-node/net.js:1590-1730 | a destroy by someone else before a verdict is final |
| `ConnectSpec.AbortStops` | libjs-node/net.js:1118-1125 | after an abort no further address is tried |
| `AddressLaws.AddressesOnce` | libjs-node/net.js:1140-1190 | however a run goes, no address of the list is attempted twice |
| `Connect.Context.Record` | libjs-node/net.js:1706-1709 | one error for the attempt that failed |
| `Connect.Context.Attempt` | libjs-node/net.js:1140-1219 | an attempt fails at once with an error or leaves one live request, with a timer unless it is the last |
| `Connect.Context.ConnectMultiple` | libjs-node/net.js:1118-1220 | the context follows the machine: attempts until a request is live or nothing is left; the assertion on `connecting` holds |
| `Connect.Context.Completed` | libjs-node/net.js:1691-1730 | the context follows the machine: a success of the live request connects, unless the socket was destroyed, and a failure is recorded and the next address tried |
| `Connect.Context.Success` | libjs-node/net.js:1590-1603 | the assertion on `connecting` holds; a success after the socket was destroyed changes nothing |
| `Connect.Context.TimedOut` | libjs-node/net.js:1732-1744 | the context follows the machine: the timed-out attempt is recorded and its request no longer heard |
| `Connect.Context.Step` | libjs-node/net.js:1691-1744 | every event takes the machine one step |
| `Connect.Context.Execute` | libjs-node/net.js:1118-1744 | every run of the context is a run of the machine, with the errors and attempted addresses of its attempts |
| `PoolSpec.AlignExact` | libjs-node/buffer.js:165-171 | the 32-bit operators round up to a multiple of eight exactly below 2^31 or where nothing is to be done |
| `PoolSpec.SlicesSound` | libjs-node/buffer.js:156-171 | for all allocations and changes of the pool size among safe sizes, slices are in bounds, aligned and disjoint |
| `PoolSpec.SafeExact` | libjs-node/buffer.js:156-171 | a pool size is safe, at most 2^31 or pooling nothing, if and only if all allocation sequences under it are sound |
| `PoolSpec.PooledExactly` | libjs-node/buffer.js:446-486 | for sizes of 32 bits, exactly requests below half the pool size come from the pool |
| `PoolSpec.TakeExact` | libjs-node/buffer.js:446-459 | a request takes the next aligned place if it fits and else the start of a new pool of the size set; a large one leaves the pool alone |
| `PoolSpec.SlicesSnug` | libjs-node/buffer.js:156-171 | on every run each slice starts at the next multiple of eight behind the one before, or at the start of a new pool |
| `PoolSpec.Unsafe` | libjs-node/buffer.js:165-171 | the allocations that break every other size |
| `BufferPool.Allocator.Reserve` | libjs-node/buffer.js:451-452 | after a new pool where needed the request fits |
| `BufferPool.Allocator.AlignPool` | libjs-node/buffer.js:165-171 | the offset is aligned with 32-bit operators |
| `BufferPool.Allocator.Claim` | libjs-node/buffer.js:453-456 | the slice starts at the old offset, before everything handed out later |
| `BufferPool.Allocator.Fill` | libjs-node/buffer.js:480-480 | octets written at the offset change no slice handed out before |
| `BufferPool.Allocator.Allocate` | libjs-node/buffer.js:446-459 | a slice of the size asked for, from the pool or of its own |
| `BufferPool.Allocator.FromArrayLike` | libjs-node/buffer.js:536-549 | the slice holds the elements reduced to octets and all earlier slices hold what they held |
| `BufferPool.Allocator.FromString` | libjs-node/buffer.js:461-505 | the same for the encoded text, whichever estimate of its length is used |

## Left out

- Windows paths, and the POSIX functions that only look at one path (`dirname`, `basename`, `extname`, `parse`, `format`): easy or without clean laws.
- Punycode for whole domain names (`toASCII`, `toUnicode`, `mapDomain`): regular expressions and case folding around the codec.
- PunycodeCode.Decode: `String.fromCodePoint` is modelled as an error for numbers that are no code point; argument-count limits of a spread call are not modelled.
- Header rendering and matching, `Content-Length` checks, trailers, `Expect`, upgrade, `writeContinue`, `writeProcessing` and `writeEarlyHints` (the header may be put in front of these).
- Http.Connection.OnIncoming: requests that arrive after the peer's end or after a last response has finished are not modelled, because the socket is being destroyed then.
- Http.Connection.OnFinish: timeouts, the `drain` and pause bookkeeping and the `close` event of the response are not modelled; neither are writes made by `drain` handlers in the middle of a flush.
- Http.Run: what a response hands over after the socket is destroyed is dropped and not described; the wire is fixed by then and described on every run.
- Http.Response.Send: the length of a header is its number of characters, which is its number of octets for the Latin-1 text headers are made of.
- Http.Response.Write: non-empty text whose encoding has no octets is excluded.
- Client requests and the agent, whose socket limit is not an invariant of the code.
- QueryCode.Parse: default separators, the default decoder and integer limits only.
- QueryCode.UnescapeBuffer: a character is one unit, so characters beyond 16 bits count as one rather than two.
- QueryPrint.Stringify: values are strings or arrays of strings; numbers and booleans print directly; the order of an object's keys is a parameter.
- The listener-leak warning, `errorMonitor`, captured rejections and the throw for an unhandled `error` event; `newListener` and `removeListener` observers; shape mode of the listener table.
- EventIterator.Iterator.EventHandler: event names that are at once the iterated event and a close event are not modelled.
- Connect.Context.Attempt: event handlers do not destroy the socket in the middle of a step.
- Single-address connection, socket options, performance hooks and diagnostics.
- BufferPool.Allocator.Allocate: the initial contents of an unsafe buffer are not specified; pool sizes are natural numbers, elements integers; running out of memory is not modelled.
- `Buffer.concat`, `Buffer.copy` and the encodings: copying loops that would only add easy members.
- Everything that is bindings or input and output: `fs`, `dns`, `child_process`, `dgram`, `tls`, `crypto`, timers, streams and the rest of the library.
