/**
 The chunked transfer coding of section 7.1 of RFC 9112, without extensions and
 trailers: the frames that `_http_outgoing.js` writes and a decoder for them.
 Octets are written as characters.
 */
module ChunkedBody {

  import opened Texts

  const CRLF := "\r\n"
  const LAST_CHUNK := "0\r\n\r\n"

  // ---------------------------------------------------------------- chunk sizes

  function HexDigit(d: nat): char
    requires d < 16
  {
    "0123456789abcdef"[d]
  }

  // The source's `toString(16)`.
  function ToHex(n: nat): (s: string)
    ensures |s| > 0
  {
    if n < 16 then [HexDigit(n)] else ToHex(n / 16) + [HexDigit(n % 16)]
  }

  // All leading hexadecimal digits, after the value read so far.
  function ReadHex(s: string, acc: nat): (nat, string)
  {
    if s == "" || HexValue(s[0]) < 0 then (acc, s) else ReadHex(s[1..], acc * 16 + HexValue(s[0]))
  }

  lemma HexValueOfDigit(d: nat)
    requires d < 16
    ensures HexValue(HexDigit(d)) == d
  {
    assert "0123456789abcdef"[d] == if d < 10 then '0' + d as char else 'a' + (d - 10) as char;
  }

  lemma {:induction false} ReadHexInvertsToHex(n: nat, rest: string)
    ensures ReadHex(ToHex(n) + rest, 0) == ReadHex(rest, n)
    ensures HexValue(ToHex(n)[0]) >= 0
  {
    if n < 16 {
      HexValueOfDigit(n);
      assert (ToHex(n) + rest)[1..] == rest;
    } else {
      var d := HexDigit(n % 16);
      HexValueOfDigit(n % 16);
      ReadHexInvertsToHex(n / 16, [d] + rest);
      assert ToHex(n) + rest == ToHex(n / 16) + ([d] + rest);
      assert ([d] + rest)[1..] == rest;
    }
  }

  // ---------------------------------------------------------------- frames

  function Frame(data: string): string { ToHex(|data|) + CRLF + data + CRLF }

  function Frames(chunks: seq<string>): string
  {
    if chunks == [] then "" else Frames(chunks[..|chunks| - 1]) + Frame(chunks[|chunks| - 1])
  }

  function Concat(chunks: seq<string>): string
  {
    if chunks == [] then "" else Concat(chunks[..|chunks| - 1]) + chunks[|chunks| - 1]
  }

  // A chunk at the head of s: its data and what follows.
  function ReadChunk(s: string): Option<(string, string)>
  {
    if s == "" || HexValue(s[0]) < 0 then None
    else
      var (size, rest) := ReadHex(s, 0);
      if |rest| < size + 4 || rest[..2] != CRLF || rest[size + 2..size + 4] != CRLF then None
      else Some((rest[2..size + 2], rest[size + 4..]))
  }

  lemma {:induction false} ReadHexShrinks(s: string, acc: nat)
    ensures |ReadHex(s, acc).1| <= |s|
  {
    if s != "" && HexValue(s[0]) >= 0 {
      ReadHexShrinks(s[1..], acc * 16 + HexValue(s[0]));
    }
  }

  // A whole chunked body at the head of s: its content and what follows it.
  function Decode(s: string): Option<(string, string)>
    decreases |s|
  {
    match ReadChunk(s)
    case None => None
    case Some((data, rest)) =>
      ReadHexShrinks(s, 0);
      if data == "" then Some(("", rest))
      else
        match Decode(rest)
        case None => None
        case Some((more, rest')) => Some((data + more, rest'))
  }

  lemma ReadFrame(data: string, rest: string)
    ensures ReadChunk(Frame(data) + rest) == Some((data, rest))
  {
    var tail := CRLF + data + CRLF + rest;
    var s := Frame(data) + rest;
    assert s == ToHex(|data|) + tail;
    ReadHexInvertsToHex(|data|, tail);
    assert tail[0] == '\r';
    assert ReadHex(tail, |data|) == (|data|, tail);
    assert s[0] == ToHex(|data|)[0];
    assert tail[..2] == CRLF && tail[2..|data| + 2] == data;
    assert tail[|data| + 2..|data| + 4] == CRLF && tail[|data| + 4..] == rest;
  }

  lemma ReadLast(rest: string)
    ensures ReadChunk(LAST_CHUNK + rest) == Some(("", rest))
  {
    assert ToHex(0) == "0";
    assert Frame("") == LAST_CHUNK;
    ReadFrame("", rest);
  }

  lemma {:induction false} FramesCons(chunk: string, chunks: seq<string>)
    ensures Frames([chunk] + chunks) == Frame(chunk) + Frames(chunks)
    ensures Concat([chunk] + chunks) == chunk + Concat(chunks)
    decreases |chunks|
  {
    hide Frame;
    var all := [chunk] + chunks;
    if chunks == [] {
      assert all[..0] == [];
    } else {
      var n := |chunks| - 1;
      FramesCons(chunk, chunks[..n]);
      assert all[..|all| - 1] == [chunk] + chunks[..n];
      assert Frame(chunk) + Frames(chunks[..n]) + Frame(chunks[n]) == Frame(chunk) + (Frames(chunks[..n]) + Frame(chunks[n]));
      assert chunk + Concat(chunks[..n]) + chunks[n] == chunk + (Concat(chunks[..n]) + chunks[n]);
    }
  }

  // Frames of non-empty chunks and the last chunk are one chunked body with the
  // concatenation of the chunks as content; whatever comes later is not part of it.
  lemma {:induction false} DecodeFrames(chunks: seq<string>, rest: string)
    requires "" !in chunks
    ensures Decode(Frames(chunks) + LAST_CHUNK + rest) == Some((Concat(chunks), rest))
    decreases |chunks|
  {
    hide Frame, ReadChunk;
    if chunks == [] {
      assert Frames(chunks) + LAST_CHUNK + rest == LAST_CHUNK + rest;
      ReadLast(rest);
    } else {
      var tail := chunks[1..];
      assert chunks == [chunks[0]] + tail;
      FramesCons(chunks[0], tail);
      var rest' := Frames(tail) + LAST_CHUNK + rest;
      assert Frames(chunks) + LAST_CHUNK + rest == Frame(chunks[0]) + rest';
      ReadFrame(chunks[0], rest');
      assert chunks[0] in chunks;
      DecodeFrames(tail, rest);
    }
  }

  // Before the last chunk there is no body end: no prefix of the frames decodes.
  lemma {:induction false} FramesHaveNoEnd(chunks: seq<string>)
    requires "" !in chunks
    ensures Decode(Frames(chunks)) == None
    decreases |chunks|
  {
    hide Frame, ReadChunk;
    if chunks == [] {
      assert ReadChunk("") == None by { NoChunkInNothing(); }
    } else {
      var tail := chunks[1..];
      assert chunks == [chunks[0]] + tail;
      FramesCons(chunks[0], tail);
      ReadFrame(chunks[0], Frames(tail));
      assert chunks[0] in chunks;
      FramesHaveNoEnd(tail);
    }
  }

  lemma NoChunkInNothing()
    ensures ReadChunk("") == None
  {
  }

  // A chunk as it is written.
  lemma FrameText()
    ensures Frame("abc") == "3\r\nabc\r\n" && ToHex(26) == "1a" && ToHex(4095) == "fff"
  {
    assert ToHex(3) == "3" && ToHex(1) == "1" && ToHex(15) == "f" && ToHex(255) == ToHex(15) + "f";
  }
}
