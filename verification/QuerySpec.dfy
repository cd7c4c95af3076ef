/**
 Query strings: what `querystring.parse` and `querystring.stringify` compute with
 the default separators.
 */
module QuerySpec {
  import opened Texts

  // A parsed value: one string, or an array of several.
  datatype Value = One(text: string) | Many(texts: seq<string>)

  type Object = map<string, Value>

  // ---------------------------------------------------------------- percent decoding

  predicate Ascii(s: string) { forall i :: 0 <= i < |s| ==> s[i] as int < 128 }

  // An escape `%HH` at position i.
  predicate EscapeAt(s: string, i: int) { 0 <= i < |s| - 2 && s[i] == '%' && IsHex(s[i + 1]) && IsHex(s[i + 2]) }

  predicate HasEscape(s: string) { exists i :: 0 <= i < |s| && EscapeAt(s, i) }

  // `unescapeBuffer`: the octets of s with its escapes decoded.
  function Bytes(s: string, decodeSpaces: bool): seq<nat>
    decreases |s|
  {
    if s == "" then []
    else if s[0] == '+' && decodeSpaces then [32] + Bytes(s[1..], decodeSpaces)
    else if EscapeAt(s, 0) then [HexValue(s[1]) * 16 + HexValue(s[2])] + Bytes(s[3..], decodeSpaces)
    else [s[0] as int % 256] + Bytes(s[1..], decodeSpaces)
  }

  function Codes(s: string): seq<nat> { seq(|s|, i requires 0 <= i < |s| => s[i] as int) }

  // The two library functions that are not part of the model: decodeURIComponent,
  // None where it throws, and the UTF-8 decoding of a buffer.
  datatype Library = Library(uri: string -> Option<string>, utf8: seq<nat> -> string)

  // What ECMAScript says of decodeURIComponent on text without escapes, and UTF-8 of ASCII.
  ghost predicate ValidLibrary(lib: Library)
  {
    && (forall s :: '%' !in s ==> lib.uri(s) == Some(s))
    && (forall s :: '%' in s && !HasEscape(s) ==> lib.uri(s) == None)
    && (forall s :: Ascii(s) ==> lib.utf8(Codes(s)) == s)
  }

  // `qsUnescape`.
  function Unescape(lib: Library, s: string): string
  {
    match lib.uri(s)
    case Some(t) => t
    case None => lib.utf8(Bytes(s, false))
  }

  // ---------------------------------------------------------------- parse

  // The pieces between separators.
  function Pieces(s: string): (r: seq<string>)
    ensures |r| > 0
  {
    SplitOn(s, '&')
  }

  // `+` stands for a space.
  function Plus(s: string): (r: string)
    ensures |r| == |s|
    ensures forall i :: 0 <= i < |s| ==> r[i] == if s[i] == '+' then ' ' else s[i]
  {
    seq(|s|, i requires 0 <= i < |s| => if s[i] == '+' then ' ' else s[i])
  }

  // Position of the first `=`, the length if there is none.
  function Cut(s: string): (k: nat)
    ensures k <= |s| && '=' !in s[..k]
    ensures k < |s| ==> s[k] == '='
  {
    if s == "" || s[0] == '=' then 0
    else
      var k := 1 + Cut(s[1..]);
      assert s[..k] == [s[0]] + s[1..][..k - 1];
      k
  }

  // Key and value of a piece.
  function Pair(lib: Library, piece: string): (string, string)
  {
    var k := Cut(piece);
    var value := if k < |piece| then piece[k + 1..] else "";
    (Unescape(lib, Plus(piece[..k])), Unescape(lib, Plus(value)))
  }

  // `addKeyVal` on decoded text: a repeated key collects its values.
  function Add(obj: Object, key: string, value: string): Object
  {
    if key !in obj then obj[key := One(value)]
    else
      match obj[key]
      case One(first) => obj[key := Many([first, value])]
      case Many(texts) => obj[key := Many(texts + [value])]
  }

  function AddAll(obj: Object, pairs: seq<(string, string)>): Object
    decreases |pairs|
  {
    if pairs == [] then obj else AddAll(Add(obj, pairs[0].0, pairs[0].1), pairs[1..])
  }

  // The pairs of the pieces that are not empty.
  function PairsOf(lib: Library, pieces: seq<string>): seq<(string, string)>
  {
    if pieces == [] then []
    else (if pieces[0] == "" then [] else [Pair(lib, pieces[0])]) + PairsOf(lib, pieces[1..])
  }

  // At most `limit` pieces count; a negative limit is none.
  function Take(pieces: seq<string>, limit: int): seq<string>
  {
    if 0 <= limit < |pieces| then pieces[..limit] else pieces
  }

  function Parse(lib: Library, qs: string, limit: int): Object
  {
    AddAll(map[], PairsOf(lib, Take(Pieces(qs), limit)))
  }

  // ---------------------------------------------------------------- stringify

  function List(v: Value): seq<string>
  {
    match v
    case One(t) => [t]
    case Many(ts) => ts
  }

  // `encodeStringified` on a string.
  function Encode(esc: string -> string, s: string): string { if s == "" then "" else esc(s) }

  function Field(esc: string -> string, key: string, value: string): string
  {
    Encode(esc, key) + "=" + Encode(esc, value)
  }

  function KeyPairs(key: string, values: seq<string>): (r: seq<(string, string)>)
    ensures |r| == |values| && forall i :: 0 <= i < |r| ==> r[i] == (key, values[i])
  {
    seq(|values|, i requires 0 <= i < |values| => (key, values[i]))
  }

  // All key and value pairs of an object, its keys taken in the given order.
  function ObjectPairs(obj: Object, keys: seq<string>): seq<(string, string)>
    requires forall k :: k in keys ==> k in obj
  {
    if keys == [] then []
    else ObjectPairs(obj, keys[..|keys| - 1]) + KeyPairs(keys[|keys| - 1], List(obj[keys[|keys| - 1]]))
  }

  function JoinFields(esc: string -> string, pairs: seq<(string, string)>): string
  {
    if pairs == [] then ""
    else
      var n := |pairs| - 1;
      JoinFields(esc, pairs[..n]) + (if n == 0 then "" else "&") + Field(esc, pairs[n].0, pairs[n].1)
  }

  function Stringify(esc: string -> string, obj: Object, keys: seq<string>): string
    requires forall k :: k in keys ==> k in obj
  {
    JoinFields(esc, ObjectPairs(obj, keys))
  }

  // An enumeration of an object's keys.
  ghost predicate Enumerates(obj: Object, keys: seq<string>)
  {
    && (forall k :: k in keys <==> k in obj)
    && (forall i, j :: 0 <= i < j < |keys| ==> keys[i] != keys[j])
  }

  // An escape function whose output is ASCII, survives the separators and is undone by Unescape.
  ghost predicate ValidEscape(lib: Library, esc: string -> string)
  {
    forall s :: Ascii(esc(s)) && '&' !in esc(s) && '=' !in esc(s) && '+' !in esc(s) && Unescape(lib, esc(s)) == s
  }
}
