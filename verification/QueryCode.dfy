/**
 `unescapeBuffer`, `parse` and `stringify` of querystring.js as loops, proved
 equal to their specification on ASCII input.
 */
module QueryCode {
  import opened Texts
  import opened QuerySpec

  // ---------------------------------------------------------------- unescapeBuffer

  // The octet written for the character at `index` and the characters it takes.
  method Octet(s: string, index: nat, decodeSpaces: bool) returns (value: nat, step: nat)
    requires index < |s|
    ensures (step == 1 || step == 3) && index + step <= |s|
    ensures Bytes(s[index..], decodeSpaces) == [value] + Bytes(s[index + step..], decodeSpaces)
  {
    ghost var rest := s[index..];
    value, step := s[index] as int % 256, 1;
    if s[index] == '+' && decodeSpaces {
      value := 32;
    } else if s[index] == '%' && index < |s| - 2 {
      if IsHex(s[index + 1]) && IsHex(s[index + 2]) {
        value, step := HexValue(s[index + 1]) * 16 + HexValue(s[index + 2]), 3;
      }
    }
    assert rest[step..] == s[index + step..];
  }

  lemma BytesEmpty(decodeSpaces: bool)
    ensures Bytes("", decodeSpaces) == []
  { }

  // The loop writes into a buffer of the input's length; without an escape it
  // fills the buffer, so returning the whole of it is right.
  method UnescapeBuffer(s: string, decodeSpaces: bool) returns (out: seq<nat>)
    ensures out == Bytes(s, decodeSpaces)
  {
    hide Bytes;
    BytesEmpty(decodeSpaces);
    var buffer := new nat[|s|];
    var index, outIndex, hasHex := 0, 0, false;
    assert s[0..] == s;
    while index < |s|
      invariant 0 <= outIndex <= index <= |s|
      invariant !hasHex ==> outIndex == index
      invariant Bytes(s, decodeSpaces) == buffer[..outIndex] + Bytes(s[index..], decodeSpaces)
    {
      ghost var done := buffer[..outIndex];
      var value, step := Octet(s, index, decodeSpaces);
      buffer[outIndex] := value;
      assert buffer[..outIndex + 1] == done + [value];
      outIndex, index, hasHex := outIndex + 1, index + step, hasHex || step == 3;
    }
    assert s[index..] == "";
    out := if hasHex then buffer[..outIndex] else buffer[..];
    assert out == buffer[..outIndex];
  }

  // ---------------------------------------------------------------- text without escapes

  // Plain text has its own codes as octets.
  lemma {:induction false} BytesPlain(s: string)
    requires Ascii(s) && !HasEscape(s)
    ensures Bytes(s, false) == Codes(s)
  {
    if s != "" {
      var t := s[1..];
      assert !EscapeAt(s, 0);
      assert !HasEscape(t) by {
        if HasEscape(t) {
          var i :| 0 <= i < |t| && EscapeAt(t, i);
          assert EscapeAt(s, i + 1);
        }
      }
      BytesPlain(t);
      assert Codes(s) == [s[0] as int] + Codes(t);
    }
  }

  // Decoding changes nothing, so it may be skipped.
  lemma UnescapePlain(lib: Library, s: string)
    requires ValidLibrary(lib) && Plain(s) && !HasEscape(s)
    ensures Unescape(lib, s) == s
  {
    if Ascii(s) { BytesPlain(s); }
  }

  // Text that decoding leaves alone.
  predicate Plain(s: string) { Ascii(s) || '%' !in s }

  lemma PlusKeepsEscapes(s: string)
    ensures HasEscape(Plus(s)) ==> HasEscape(s)
    ensures Plain(s) ==> Plain(Plus(s))
  {
    if HasEscape(Plus(s)) {
      var i :| 0 <= i < |s| && EscapeAt(Plus(s), i);
      assert EscapeAt(s, i);
    }
  }

  // ---------------------------------------------------------------- the encode check

  // How much of an escape a text ends in.
  function Started(text: string): (r: nat)
    ensures r <= 2
  {
    var n := |text|;
    if n >= 1 && text[n - 1] == '%' then 1
    else if n >= 2 && text[n - 2] == '%' && IsHex(text[n - 1]) then 2
    else 0
  }

  // The counter after the next character, 3 when an escape is complete.
  function NextCheck(check: int, c: char): int
  {
    if c == '%' then 1 else if check > 0 && IsHex(c) then check + 1 else 0
  }

  // The counter is right about a text without escapes; one that was left behind by an
  // earlier escape is out of range until the next `%`.
  ghost predicate Counts(text: string, check: int)
  {
    !HasEscape(text) && check >= 0 && (check == Started(text) || (Started(text) == 0 && check >= 3))
  }

  lemma EscapeGrows(text: string, c: char)
    ensures HasEscape(text + [c]) <==> HasEscape(text) || (Started(text) == 2 && IsHex(c))
  {
    var t := text + [c];
    if HasEscape(text) {
      var i :| 0 <= i < |text| && EscapeAt(text, i);
      assert EscapeAt(t, i);
    }
    if HasEscape(t) {
      var i :| 0 <= i < |t| && EscapeAt(t, i);
      if i + 2 < |text| { assert EscapeAt(text, i); }
    }
    if Started(text) == 2 && IsHex(c) { assert EscapeAt(t, |text| - 2); }
  }

  lemma StartedGrows(text: string, c: char)
    requires !HasEscape(text)
    ensures Started(text + [c]) == if c == '%' then 1 else if Started(text) == 1 && IsHex(c) then 2 else 0
  { }

  // The counter reaches 3 exactly when an escape is complete.
  lemma CountsNext(text: string, check: int, c: char)
    requires Counts(text, check)
    ensures HasEscape(text + [c]) <==> NextCheck(check, c) == 3
    ensures !HasEscape(text + [c]) ==> Counts(text + [c], NextCheck(check, c))
  {
    EscapeGrows(text, c);
    StartedGrows(text, c);
  }

  // ---------------------------------------------------------------- the flags

  function NoPlus(s: string): string
  {
    if s == "" then "" else NoPlus(s[..|s| - 1]) + if s[|s| - 1] == '+' then "" else [s[|s| - 1]]
  }

  // What follows the first escape.
  function Beyond(s: string): string
  {
    if s == "" then "" else if EscapeAt(s, 0) then s[3..] else Beyond(s[1..])
  }

  // The value is decoded if it has an escape, or would have without its `+`, or the key
  // has one behind its first.
  predicate ValueFlag(key: string, value: string) { HasEscape(NoPlus(value)) || HasEscape(NoPlus(Beyond(key))) }

  lemma NoPlusNext(s: string, c: char)
    ensures NoPlus(s + [c]) == if c == '+' then NoPlus(s) else NoPlus(s) + [c]
  {
    assert (s + [c])[..|s|] == s;
  }

  lemma {:induction false} BeyondNext(s: string, c: char)
    ensures HasEscape(s) ==> Beyond(s + [c]) == Beyond(s) + [c]
    ensures !HasEscape(s) ==> Beyond(s) == "" && Beyond(s + [c]) == ""
  {
    var t := s + [c];
    if s == "" {
      assert t[1..] == "";
    } else {
      var rest := s[1..];
      BeyondNext(rest, c);
      assert t[1..] == rest + [c];
      EscapeTail(s);
      if EscapeAt(s, 0) {
        assert EscapeAt(t, 0) && t[3..] == s[3..] + [c];
      } else if EscapeAt(t, 0) {
        assert |s| == 2 && t[3..] == "";
        assert !HasEscape(rest);
      }
    }
  }

  lemma EscapeTail(s: string)
    requires s != ""
    ensures HasEscape(s) <==> EscapeAt(s, 0) || HasEscape(s[1..])
  {
    if HasEscape(s) && !EscapeAt(s, 0) {
      var i :| 0 <= i < |s| && EscapeAt(s, i);
      assert EscapeAt(s[1..], i - 1);
    }
    if HasEscape(s[1..]) {
      var i :| 0 <= i < |s[1..]| && EscapeAt(s[1..], i);
      assert EscapeAt(s, i + 1);
    }
  }

  // The flags and the counter while the key is read.
  ghost predicate KeyFlags(key: string, keyEncoded: bool, valEncoded: bool, check: int)
  {
    && keyEncoded == HasEscape(key)
    && valEncoded == HasEscape(NoPlus(Beyond(key)))
    && (if !keyEncoded then check == Started(key) && !valEncoded else valEncoded || Counts(NoPlus(Beyond(key)), check))
  }

  // And while the value is read.
  ghost predicate ValueFlags(key: string, value: string, keyEncoded: bool, valEncoded: bool, check: int)
  {
    && keyEncoded == HasEscape(key)
    && valEncoded == ValueFlag(key, value)
    && (valEncoded || Counts(NoPlus(value), check))
  }

  lemma NothingYet()
    ensures NoPlus("") == "" && Beyond("") == "" && !HasEscape("") && Started("") == 0
  { }

  // A key character before any escape.
  lemma KeyChecked(key: string, check: int, c: char)
    requires KeyFlags(key, false, false, check)
    ensures KeyFlags(key + [c], NextCheck(check, c) == 3, false, NextCheck(check, c))
  {
    hide Beyond, HasEscape, NoPlus, Started;
    assert Counts(key, check);
    CountsNext(key, check, c);
    BeyondNext(key, c);
    NothingYet();
  }

  // A key character after an escape.
  lemma KeyBeyond(key: string, valEncoded: bool, check: int, c: char, valEncoded': bool, check': int)
    requires KeyFlags(key, true, valEncoded, check)
    requires if c == '+' || valEncoded then valEncoded' == valEncoded && check' == check
             else check' == NextCheck(check, c) && valEncoded' == (check' == 3)
    ensures KeyFlags(key + [c], true, valEncoded', check')
  {
    hide Beyond, NoPlus, Started;
    EscapeGrows(key, c);
    BeyondNext(key, c);
    NoPlusNext(Beyond(key), c);
    EscapeGrows(NoPlus(Beyond(key)), c);
    if !valEncoded { CountsNext(NoPlus(Beyond(key)), check, c); }
  }

  lemma FlagsCut(key: string, keyEncoded: bool, valEncoded: bool, check: int)
    requires KeyFlags(key, keyEncoded, valEncoded, check)
    ensures ValueFlags(key, "", keyEncoded, valEncoded, 0)
  {
    hide Beyond, HasEscape, NoPlus, Started;
    NothingYet();
  }

  lemma ValueChecked(key: string, value: string, keyEncoded: bool, valEncoded: bool, check: int, c: char, valEncoded': bool, check': int)
    requires ValueFlags(key, value, keyEncoded, valEncoded, check)
    requires if c == '+' || valEncoded then valEncoded' == valEncoded && check' == check
             else check' == NextCheck(check, c) && valEncoded' == (check' == 3)
    ensures ValueFlags(key, value + [c], keyEncoded, valEncoded', check')
  {
    hide Beyond, NoPlus, Started;
    NoPlusNext(value, c);
    EscapeGrows(NoPlus(value), c);
    if !valEncoded { CountsNext(NoPlus(value), check, c); }
  }

  // Taking out `+` signs breaks no escape.
  lemma {:induction false} NoPlusEscape(s: string)
    ensures HasEscape(s) ==> HasEscape(NoPlus(s))
    ensures Started(s) > 0 ==> Started(NoPlus(s)) == Started(s)
  {
    if s != "" {
      var n := |s| - 1;
      var t, c := s[..n], s[n];
      assert s == t + [c];
      NoPlusEscape(t);
      NoPlusNext(t, c);
      EscapeGrows(t, c);
      EscapeGrows(NoPlus(t), c);
      StartedEnds(t, c);
      StartedEnds(NoPlus(t), c);
      hide HasEscape, NoPlus;
    }
  }

  lemma StartedEnds(text: string, c: char)
    ensures Started(text + [c]) == if c == '%' then 1 else if |text| > 0 && text[|text| - 1] == '%' && IsHex(c) then 2 else 0
  { }

  // ---------------------------------------------------------------- what the parser makes of a piece

  // `decodeStr` when the flag asks for it and there is something to decode.
  function Decoded(lib: Library, text: string, encoded: bool): string
  {
    if |text| > 0 && encoded then Unescape(lib, text) else text
  }

  function ValuePart(piece: string): string { if Cut(piece) < |piece| then piece[Cut(piece) + 1..] else "" }

  // Key and value: the key decoded exactly if it has an escape, the value if its flag is up.
  function AsIs(lib: Library, piece: string): (string, string)
  {
    var key, value := piece[..Cut(piece)], ValuePart(piece);
    (Decoded(lib, Plus(key), HasEscape(key)), Decoded(lib, Plus(value), ValueFlag(key, value)))
  }

  // A key or value the encode check is right about: outside ASCII a `%` that starts no
  // escape is trouble, because decoding would cut the other characters to octets.
  predicate Sound(part: string) { Plain(part) || HasEscape(part) }

  predicate SoundPiece(piece: string)
  {
    var k := Cut(piece);
    Sound(piece[..k]) && (k < |piece| ==> Sound(piece[k + 1..]))
  }

  predicate AllSound(pieces: seq<string>) { forall i :: 0 <= i < |pieces| ==> SoundPiece(pieces[i]) }

  // Such a text: the flag stays down and the text is kept, while decoding it would cut
  // its first character to one octet.
  lemma StrayPercent(lib: Library)
    requires ValidLibrary(lib)
    ensures var s := ['\U{E9}', '%'];
            !Sound(s) && AsIs(lib, s).0 == s && Unescape(lib, Plus(s)) == lib.utf8([0xE9, 0x25])
  {
    var s := ['\U{E9}', '%'];
    assert s[1] == '%' && s[0] as int >= 128;
    assert !HasEscape(s);
    assert s[1..] == ['%'] && ['%'][1..] == [];
    assert Bytes(s, false) == [0xE9] + Bytes(['%'], false);
    assert Bytes(['%'], false) == [0x25] + Bytes([], false);
    assert Bytes(s, false) == [0xE9, 0x25];
    assert '%' in s && lib.uri(s) == None;
  }

  // Skipping the decoding of text whose flag is down gives the decoded text.
  lemma DecodedRight(lib: Library, raw: string, encoded: bool)
    requires ValidLibrary(lib) && Sound(raw)
    requires !encoded ==> !HasEscape(raw)
    ensures Decoded(lib, Plus(raw), encoded) == Unescape(lib, Plus(raw))
  {
    PlusKeepsEscapes(raw);
    if !encoded { UnescapePlain(lib, Plus(raw)); }
    else if raw == "" { UnescapePlain(lib, Plus(raw)); }
  }

  // For such pieces skipping is right.
  lemma AsIsRight(lib: Library, piece: string)
    requires ValidLibrary(lib) && SoundPiece(piece)
    ensures AsIs(lib, piece) == Pair(lib, piece)
  {
    hide HasEscape, Unescape, ValidLibrary, Sound, NoPlus, Beyond;
    var key, value := piece[..Cut(piece)], ValuePart(piece);
    NoEscapeInEmpty();
    NoPlusEscape(value);
    DecodedRight(lib, key, HasEscape(key));
    DecodedRight(lib, value, ValueFlag(key, value));
  }

  lemma NoEscapeInEmpty()
    ensures !HasEscape("") && Sound("")
  { }

  lemma NothingSound()
    ensures SoundPiece("")
  {
    assert ""[..0] == "";
  }

  // ---------------------------------------------------------------- one piece

  lemma {:induction false} CutAt(s: string, k: nat)
    requires k < |s| && s[k] == '=' && '=' !in s[..k]
    ensures Cut(s) == k
  {
    if k > 0 {
      assert s[0] == s[..k][0];
      assert s[1..][..k - 1] == s[..k][1..];
      CutAt(s[1..], k - 1);
    }
  }

  lemma CutNone(s: string)
    requires '=' !in s
    ensures Cut(s) == |s|
  { }

  lemma PlusAppend(s: string, c: char)
    ensures Plus(s + [c]) == Plus(s) + [if c == '+' then ' ' else c]
  { }

  // What the scanner knows while it reads the key: `key` and the pending slice hold it.
  ghost predicate InKey(text: string, key: string, pending: string, keyEncoded: bool, valEncoded: bool, check: int)
  {
    && '=' !in text && key + pending == Plus(text)
    && KeyFlags(text, keyEncoded, valEncoded, check)
  }

  // And while it reads the value.
  ghost predicate InValue(text: string, key: string, value: string, pending: string, keyEncoded: bool, valEncoded: bool, check: int)
  {
    var k := Cut(text);
    && k < |text|
    && key == Plus(text[..k])
    && value + pending == Plus(text[k + 1..])
    && ValueFlags(text[..k], text[k + 1..], keyEncoded, valEncoded, check)
  }

  // Before the first `=` and after it.
  ghost predicate Scanning(text: string, eqFound: bool, key: string, value: string, pending: string, keyEncoded: bool, valEncoded: bool, check: int)
  {
    if eqFound then InValue(text, key, value, pending, keyEncoded, valEncoded, check)
    else value == "" && InKey(text, key, pending, keyEncoded, valEncoded, check)
  }

  // A plain character joins the pending slice.
  lemma KeyCharacter(text: string, key: string, pending: string, c: char)
    requires '=' !in text && key + pending == Plus(text) && c != '=' && c != '+'
    ensures '=' !in text + [c] && key + (pending + [c]) == Plus(text + [c])
  {
    PlusAppend(text, c);
    assert key + (pending + [c]) == (key + pending) + [c];
  }

  // A `+` moves the pending slice and a space to the key.
  lemma KeyPlus(text: string, key: string, pending: string)
    requires '=' !in text && key + pending == Plus(text)
    ensures '=' !in text + "+" && key + pending + " " + "" == Plus(text + "+")
  {
    PlusAppend(text, '+');
    assert key + pending + " " + "" == (key + pending) + " ";
  }

  // The first `=` ends the key.
  lemma KeyEnd(text: string, key: string, pending: string, keyEncoded: bool, valEncoded: bool, check: int)
    requires InKey(text, key, pending, keyEncoded, valEncoded, check)
    ensures InValue(text + "=", key + pending, "", "", keyEncoded, valEncoded, 0)
  {
    hide KeyFlags, ValueFlags;
    var t := text + "=";
    assert t[..|text|] == text && t[|text| + 1..] == "";
    CutAt(t, |text|);
    FlagsCut(text, keyEncoded, valEncoded, check);
    assert Plus("") == "";
  }

  lemma CutStays(text: string, c: char)
    requires Cut(text) < |text|
    ensures Cut(text + [c]) == Cut(text)
    ensures (text + [c])[..Cut(text)] == text[..Cut(text)]
    ensures (text + [c])[Cut(text) + 1..] == text[Cut(text) + 1..] + [c]
  {
    hide Cut;
    var k := Cut(text);
    assert (text + [c])[..k] == text[..k];
    CutAt(text + [c], k);
  }

  // A character of the value joins the pending slice, or as a `+` moves it to the value.
  lemma ValueCharacter(text: string, key: string, value: string, pending: string, keyEncoded: bool, valEncoded: bool, check: int, c: char, value': string, pending': string, valEncoded': bool, check': int)
    requires InValue(text, key, value, pending, keyEncoded, valEncoded, check)
    requires if c == '+' then value' == value + pending + " " && pending' == "" else value' == value && pending' == pending + [c]
    requires if c == '+' || valEncoded then valEncoded' == valEncoded && check' == check
             else check' == NextCheck(check, c) && valEncoded' == (check' == 3)
    ensures InValue(text + [c], key, value', pending', keyEncoded, valEncoded', check')
  {
    hide ValueFlags, NextCheck;
    CutStays(text, c);
    var k := Cut(text);
    var t := text[k + 1..];
    PlusAppend(t, c);
    ValueChecked(text[..k], t, keyEncoded, valEncoded, check, c, valEncoded', check');
    assert value + (pending + [c]) == (value + pending) + [c];
    assert value + pending + " " + "" == (value + pending) + [' '];
  }

  // At the end of a piece its key and value are at hand.
  lemma PieceEnd(lib: Library, text: string, eqFound: bool, key: string, value: string, pending: string, keyEncoded: bool, valEncoded: bool, check: int)
    requires Scanning(text, eqFound, key, value, pending, keyEncoded, valEncoded, check)
    ensures var key' := if eqFound then key else key + pending;
            var value' := if eqFound then value + pending else value;
            AsIs(lib, text) == (Decoded(lib, key', keyEncoded), Decoded(lib, value', valEncoded))
  {
    hide HasEscape, Unescape, Counts, NoPlus, Beyond, Started;
    if !eqFound {
      CutNone(text);
      assert text[..|text|] == text;
      assert Plus("") == "";
    }
  }

  // ---------------------------------------------------------------- the pieces

  lemma OnePiece(text: string)
    requires '&' !in text
    ensures Pieces(text) == [text]
  {
    hide SplitOn;
    SplitOnFirst(text, "", '&');
  }

  lemma FirstPiece(text: string, rest: string)
    requires '&' !in text
    ensures Pieces(text + "&" + rest) == [text] + Pieces(rest)
  {
    hide SplitOn;
    SplitOnFirst(text, rest, '&');
    assert ['&'] == "&";
  }

  function PairsAsIs(lib: Library, pieces: seq<string>): seq<(string, string)>
  {
    if pieces == [] then []
    else (if pieces[0] == "" then [] else [AsIs(lib, pieces[0])]) + PairsAsIs(lib, pieces[1..])
  }

  // What the parser makes of any text.
  function ParseAsIs(lib: Library, qs: string, limit: int): Object
  {
    AddAll(map[], PairsAsIs(lib, Take(Pieces(qs), limit)))
  }

  lemma {:induction false} PairsRight(lib: Library, pieces: seq<string>)
    requires ValidLibrary(lib) && AllSound(pieces)
    ensures PairsAsIs(lib, pieces) == PairsOf(lib, pieces)
  {
    hide ValidLibrary, SoundPiece, AsIs, Pair;
    if pieces != [] {
      AsIsRight(lib, pieces[0]);
      PairsRight(lib, pieces[1..]);
    }
  }

  // The shortcut of skipping the decoding is right on sound text.
  lemma ParseRight(lib: Library, qs: string, limit: int)
    requires ValidLibrary(lib) && AllSound(Take(Pieces(qs), limit))
    ensures ParseAsIs(lib, qs, limit) == QuerySpec.Parse(lib, qs, limit)
  {
    hide ValidLibrary, AllSound, Pieces;
    PairsRight(lib, Take(Pieces(qs), limit));
  }

  // The object with a piece added, unless the piece is empty.
  function AddPiece(lib: Library, obj: Object, piece: string): Object
  {
    if piece == "" then obj else Add(obj, AsIs(lib, piece).0, AsIs(lib, piece).1)
  }

  // What is left to compute when s is still to be read.
  function Remaining(lib: Library, obj: Object, s: string, limit: int): Object
  {
    AddAll(obj, PairsAsIs(lib, Take(Pieces(s), limit)))
  }

  lemma AddFirst(lib: Library, obj: Object, piece: string, pieces: seq<string>)
    ensures AddAll(obj, PairsAsIs(lib, [piece] + pieces)) == AddAll(AddPiece(lib, obj, piece), PairsAsIs(lib, pieces))
  {
    hide AsIs, Add;
    var all := [piece] + pieces;
    var tail := PairsAsIs(lib, pieces);
    assert all[0] == piece && all[1..] == pieces;
    if piece != "" {
      assert PairsAsIs(lib, all) == [AsIs(lib, piece)] + tail;
      assert ([AsIs(lib, piece)] + tail)[1..] == tail;
    } else {
      assert PairsAsIs(lib, all) == tail;
    }
  }

  lemma NextPiece(lib: Library, obj: Object, text: string, rest: string, limit: int)
    requires '&' !in text && limit != 0
    ensures Remaining(lib, obj, text + "&" + rest, limit) == Remaining(lib, AddPiece(lib, obj, text), rest, limit - 1)
  {
    hide AddPiece, PairsAsIs, AddAll, Pieces;
    FirstPiece(text, rest);
    var pieces := Pieces(rest);
    assert Take([text] + pieces, limit) == [text] + Take(pieces, limit - 1);
    AddFirst(lib, obj, text, Take(pieces, limit - 1));
  }

  lemma LastPiece(lib: Library, obj: Object, text: string, limit: int)
    requires '&' !in text && limit != 0
    ensures Remaining(lib, obj, text, limit) == AddPiece(lib, obj, text)
  {
    hide AddPiece, AsIs;
    OnePiece(text);
    assert Take([text], limit) == [text] + [];
    AddFirst(lib, obj, text, []);
  }

  lemma NoMore(lib: Library, obj: Object, s: string)
    ensures Remaining(lib, obj, s, 0) == obj
  { }

  // ---------------------------------------------------------------- addKeyVal

  method AddKeyVal(lib: Library, obj: Object, key0: string, value0: string, keyEncoded: bool, valEncoded: bool) returns (r: Object)
    ensures r == Add(obj, Decoded(lib, key0, keyEncoded), Decoded(lib, value0, valEncoded))
  {
    var key, value := key0, value0;
    if |key| > 0 && keyEncoded { key := Unescape(lib, key); }
    if |value| > 0 && valEncoded { value := Unescape(lib, value); }
    if key !in obj {
      r := obj[key := One(value)];
    } else {
      match obj[key]
      case Many(texts) => r := obj[key := Many(texts + [value])];
      case One(current) => r := obj[key := Many([current, value])];
    }
  }

  // ---------------------------------------------------------------- parse

  // The encode check of one character: the flag goes up at the third character of `%HH`.
  method CheckCharacter(code: char, encoded: bool, check: nat) returns (encoded': bool, check': nat)
    requires !encoded
    ensures check' == NextCheck(check, code) && encoded' == (check' == 3)
  {
    encoded', check' := encoded, check;
    if code == '%' {
      check' := 1;
    } else if check' > 0 {
      if IsHex(code) {
        check' := check' + 1;
        if check' == 3 { encoded' := true; }
      } else {
        check' := 0;
      }
    }
  }

  // A character of the key that is neither separator. Once the key is known to be
  // encoded its characters feed the check of the value.
  method KeyStep(qs: string, i: nat, lastPos0: nat, key0: string, keyEncoded0: bool, valEncoded0: bool, check0: nat, ghost text: string)
    returns (lastPos: nat, key: string, keyEncoded: bool, valEncoded: bool, check: nat)
    requires i < |qs| && lastPos0 <= i && qs[i] != '='
    requires InKey(text, key0, qs[lastPos0..i], keyEncoded0, valEncoded0, check0)
    ensures lastPos0 <= lastPos <= i + 1
    ensures InKey(text + [qs[i]], key, qs[lastPos..i + 1], keyEncoded, valEncoded, check)
  {
    hide NextCheck, KeyFlags;
    var c := qs[i];
    lastPos, key, keyEncoded, valEncoded, check := lastPos0, key0, keyEncoded0, valEncoded0, check0;
    KeyDown(text, keyEncoded0, valEncoded0, check0);
    if !keyEncoded {
      keyEncoded, check := CheckCharacter(c, keyEncoded, check);
      KeyChecked(text, check0, c);
    }
    if c == '+' {
      if lastPos < i { key := key + qs[lastPos..i]; }
      key := key + " ";
      lastPos := i + 1;
      KeyPlus(text, key0, qs[lastPos0..i]);
      assert key == key0 + qs[lastPos0..i] + " " && [c] == "+" && qs[lastPos..i + 1] == "";
    } else {
      KeyCharacter(text, key0, qs[lastPos0..i], c);
      if keyEncoded0 && !valEncoded {
        valEncoded, check := CheckCharacter(c, valEncoded, check);
      }
      assert qs[lastPos..i + 1] == qs[lastPos..i] + [c];
    }
    if keyEncoded0 { KeyBeyond(text, valEncoded0, check0, c, valEncoded, check); }
  }

  // The value's flag stays down while the key's is.
  lemma KeyDown(key: string, keyEncoded: bool, valEncoded: bool, check: int)
    requires KeyFlags(key, keyEncoded, valEncoded, check)
    ensures !keyEncoded ==> !valEncoded
  { }

  // A character of the value.
  method ValueStep(qs: string, i: nat, lastPos0: nat, ghost key: string, value0: string, ghost keyEncoded: bool, valEncoded0: bool, check0: nat, ghost text: string)
    returns (lastPos: nat, value: string, valEncoded: bool, check: nat)
    requires i < |qs| && lastPos0 <= i
    requires InValue(text, key, value0, qs[lastPos0..i], keyEncoded, valEncoded0, check0)
    ensures lastPos0 <= lastPos <= i + 1
    ensures InValue(text + [qs[i]], key, value, qs[lastPos..i + 1], keyEncoded, valEncoded, check)
  {
    hide InValue, NextCheck;
    lastPos, value, valEncoded, check := lastPos0, value0, valEncoded0, check0;
    if qs[i] == '+' {
      if lastPos < i { value := value + qs[lastPos..i]; }
      value := value + " ";
      lastPos := i + 1;
      assert value == value0 + qs[lastPos0..i] + " " && qs[lastPos..i + 1] == "";
    } else {
      if !valEncoded {
        valEncoded, check := CheckCharacter(qs[i], valEncoded, check);
      }
      assert qs[lastPos..i + 1] == qs[lastPos..i] + [qs[i]];
    }
    ValueCharacter(text, key, value0, qs[lastPos0..i], keyEncoded, valEncoded0, check0, qs[i], value, qs[lastPos..i + 1], valEncoded, check);
  }

  // A piece is empty exactly when no `=` was found and nothing is collected or pending.
  lemma EmptyPiece(text: string, eqFound: bool, key: string, value: string, pending: string, keyEncoded: bool, valEncoded: bool, check: int)
    requires Scanning(text, eqFound, key, value, pending, keyEncoded, valEncoded, check)
    ensures text == "" <==> !eqFound && key == "" && pending == ""
  {
    if !eqFound { assert |key + pending| == |text|; }
  }

  lemma FreshPiece()
    ensures Scanning("", false, "", "", "", false, false, 0)
  {
    assert Plus("") == "";
    NothingYet();
  }

  // The pending text joins the key or the value and the pair is added.
  method AddPending(lib: Library, obj: Object, eqFound: bool, key: string, value: string, pending: string, keyEncoded: bool, valEncoded: bool, ghost check: nat, ghost text: string)
    returns (r: Object)
    requires Scanning(text, eqFound, key, value, pending, keyEncoded, valEncoded, check)
    requires text != ""
    ensures r == AddPiece(lib, obj, text)
  {
    hide Scanning;
    PieceEnd(lib, text, eqFound, key, value, pending, keyEncoded, valEncoded, check);
    var key', value' := key, value;
    if !eqFound { key' := key' + pending; } else { value' := value' + pending; }
    r := AddKeyVal(lib, obj, key', value', keyEncoded, valEncoded);
  }

  // The one-pass parser. `pairs` is 1000, the caller's maximum, or -1 for no maximum.
  method Parse(lib: Library, qs: string, pairs0: int) returns (obj: Object)
    requires pairs0 != 0
    ensures obj == ParseAsIs(lib, qs, pairs0)
  {
    hide InKey, InValue, Pieces, PairsAsIs, AddAll, Take, AsIs, Add;
    obj := map[];
    var pairs, lastPos, eqFound, key, value, keyEncoded, valEncoded := pairs0, 0, false, "", "", false, false;
    var encodeCheck: nat := 0;
    ghost var start := 0;
    FreshPiece();
    assert qs[0..] == qs;
    var i := 0;
    while i < |qs|
      invariant 0 <= start <= lastPos <= i <= |qs|
      invariant pairs != 0
      invariant '&' !in qs[start..i]
      invariant Scanning(qs[start..i], eqFound, key, value, qs[lastPos..i], keyEncoded, valEncoded, encodeCheck)
      invariant Remaining(lib, obj, qs[start..], pairs) == ParseAsIs(lib, qs, pairs0)
    {
      ghost var text := qs[start..i];
      assert qs[start..i + 1] == text + [qs[i]];
      if qs[i] == '&' {
        assert qs[start..] == text + "&" + qs[i + 1..];
        NextPiece(lib, obj, text, qs[i + 1..], pairs);
        EmptyPiece(text, eqFound, key, value, qs[lastPos..i], keyEncoded, valEncoded, encodeCheck);
        if !eqFound && lastPos == i && |key| == 0 {
          assert text == "";
        } else {
          obj := AddPending(lib, obj, eqFound, key, value, qs[lastPos..i], keyEncoded, valEncoded, encodeCheck, text);
        }
        pairs := pairs - 1;
        if pairs == 0 {
          NoMore(lib, obj, qs[i + 1..]);
          return;
        }
        keyEncoded, valEncoded, key, value, encodeCheck := false, false, "", "", 0;
        lastPos, eqFound := i + 1, false;
        start := i + 1;
        FreshPiece();
        assert qs[lastPos..i + 1] == "";
      } else if eqFound {
        lastPos, value, valEncoded, encodeCheck := ValueStep(qs, i, lastPos, key, value, keyEncoded, valEncoded, encodeCheck, text);
      } else if qs[i] == '=' {
        KeyEnd(text, key, qs[lastPos..i], keyEncoded, valEncoded, encodeCheck);
        ghost var whole := key + qs[lastPos..i];
        if lastPos < i { key := key + qs[lastPos..i]; }
        assert key == whole && [qs[i]] == "=";
        encodeCheck, lastPos, eqFound := 0, i + 1, true;
        assert qs[lastPos..i + 1] == "";
      } else {
        lastPos, key, keyEncoded, valEncoded, encodeCheck := KeyStep(qs, i, lastPos, key, keyEncoded, valEncoded, encodeCheck, text);
      }
      i := i + 1;
    }
    assert qs[start..] == qs[start..i] && qs[lastPos..] == qs[lastPos..i];
    LastPiece(lib, obj, qs[start..], pairs);
    EmptyPiece(qs[start..i], eqFound, key, value, qs[lastPos..i], keyEncoded, valEncoded, encodeCheck);
    if lastPos == |qs| && !eqFound && |key| == 0 {
      assert qs[start..] == "";
    } else {
      obj := AddPending(lib, obj, eqFound, key, value, qs[lastPos..], keyEncoded, valEncoded, encodeCheck, qs[start..]);
    }
  }
}
