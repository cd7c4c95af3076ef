/**
 Parsing what was printed gives the object back.
 */
module QueryLaws {
  import opened Texts
  import opened QuerySpec
  import QueryCode
  import QueryPrint

  type Pairs = seq<(string, string)>

  // ---------------------------------------------------------------- the text

  function Fields(esc: string -> string, pairs: Pairs): (r: seq<string>)
    ensures |r| == |pairs|
  {
    seq(|pairs|, i requires 0 <= i < |pairs| => Field(esc, pairs[i].0, pairs[i].1))
  }

  // The last separator splits off the last piece.
  lemma LastSplit(a: string, t: string)
    requires '&' !in t
    ensures Pieces(a + "&" + t) == Pieces(a) + [t]
  {
    hide SplitOn;
    SplitOnConcat(a, t, '&');
    SplitOnFirst(t, "", '&');
    assert ['&'] == "&";
  }

  lemma EncodeSafe(lib: Library, esc: string -> string, s: string)
    requires ValidLibrary(lib) && ValidEscape(lib, esc)
    ensures var e := Encode(esc, s);
            '&' !in e && '=' !in e && Plus(e) == e && Unescape(lib, Plus(e)) == s
  {
    var e := Encode(esc, s);
    assert '+' !in e;
    assert forall i :: 0 <= i < |e| ==> e[i] in e;
    assert Plus(e) == e;
  }

  lemma PairOfField(lib: Library, esc: string -> string, key: string, value: string)
    requires ValidLibrary(lib) && ValidEscape(lib, esc)
    ensures Pair(lib, Field(esc, key, value)) == (key, value)
    ensures '&' !in Field(esc, key, value)
  {
    hide ValidLibrary, ValidEscape, Unescape, Plus, Encode;
    EncodeSafe(lib, esc, key);
    EncodeSafe(lib, esc, value);
    var ek, ev := Encode(esc, key), Encode(esc, value);
    var f := Field(esc, key, value);
    assert f[..|ek|] == ek && f[|ek| + 1..] == ev;
    QueryCode.CutAt(f, |ek|);
  }

  lemma FieldsSnoc(esc: string -> string, pairs: Pairs)
    requires pairs != []
    ensures var n := |pairs| - 1;
            Fields(esc, pairs) == Fields(esc, pairs[..n]) + [Field(esc, pairs[n].0, pairs[n].1)]
  {
    hide Field;
  }

  lemma FirstJoined(esc: string -> string, p: (string, string))
    ensures JoinFields(esc, [p]) == Field(esc, p.0, p.1) && Fields(esc, [p]) == [Field(esc, p.0, p.1)]
  {
    hide Field;
    assert [p][..0] == [];
    assert JoinFields(esc, []) == "";
  }

  // The pieces of the printed text are its fields.
  lemma {:induction false} PiecesOfFields(lib: Library, esc: string -> string, pairs: Pairs)
    requires ValidLibrary(lib) && ValidEscape(lib, esc)
    requires pairs != []
    ensures Pieces(JoinFields(esc, pairs)) == Fields(esc, pairs)
  {
    hide ValidLibrary, ValidEscape, Pieces, Field, Fields;
    var n := |pairs| - 1;
    var last := Field(esc, pairs[n].0, pairs[n].1);
    PairOfField(lib, esc, pairs[n].0, pairs[n].1);
    if n == 0 {
      assert pairs == [pairs[0]];
      FirstJoined(esc, pairs[0]);
      QueryCode.OnePiece(last);
    } else {
      FieldsSnoc(esc, pairs);
      PiecesOfFields(lib, esc, pairs[..n]);
      LastSplit(JoinFields(esc, pairs[..n]), last);
    }
  }

  lemma {:induction false} PairsOfFields(lib: Library, esc: string -> string, pairs: Pairs)
    requires ValidLibrary(lib) && ValidEscape(lib, esc)
    ensures PairsOf(lib, Fields(esc, pairs)) == pairs
  {
    hide ValidLibrary, ValidEscape, Pair;
    if pairs != [] {
      var p := pairs[0];
      PairOfField(lib, esc, p.0, p.1);
      PairsOfFields(lib, esc, pairs[1..]);
      assert |Field(esc, p.0, p.1)| > 0;
      hide Field;
      var fields := Fields(esc, pairs);
      assert fields[0] == Field(esc, p.0, p.1) && fields[1..] == Fields(esc, pairs[1..]);
      assert [p] + pairs[1..] == pairs;
    }
  }

  // How many of n pairs a limit lets through.
  function Kept(n: nat, limit: int): (m: nat)
    ensures m <= n
    ensures m == n <==> limit < 0 || n <= limit
  {
    if 0 <= limit < n then limit else n
  }

  lemma NoPairs(lib: Library, limit: int)
    ensures PairsOf(lib, Take([""], limit)) == []
  {
    hide Pair;
    var none: seq<string> := [];
    assert PairsOf(lib, none) == [];
    assert [""][1..] == none && [""][..0] == none;
  }

  lemma TakeFields(esc: string -> string, pairs: Pairs, limit: int)
    ensures Take(Fields(esc, pairs), limit) == Fields(esc, pairs[..Kept(|pairs|, limit)])
  {
    hide Field;
  }

  // Parsing adds the printed pairs up to the limit.
  lemma ParseFields(lib: Library, esc: string -> string, pairs: Pairs, limit: int)
    requires ValidLibrary(lib) && ValidEscape(lib, esc)
    ensures Parse(lib, JoinFields(esc, pairs), limit) == AddAll(map[], pairs[..Kept(|pairs|, limit)])
  {
    hide ValidLibrary, ValidEscape, AddAll, Pair, Field, Pieces;
    if pairs == [] {
      QueryCode.OnePiece("");
      NoPairs(lib, limit);
    } else {
      hide PairsOf, Fields, Take, JoinFields;
      PiecesOfFields(lib, esc, pairs);
      TakeFields(esc, pairs, limit);
      PairsOfFields(lib, esc, pairs[..Kept(|pairs|, limit)]);
    }
  }

  // ---------------------------------------------------------------- the object

  function ValuesOf(obj: Object, key: string): seq<string>
  {
    if key in obj then List(obj[key]) else []
  }

  // The values given to a key, in order.
  function Select(pairs: Pairs, key: string): seq<string>
  {
    if pairs == [] then []
    else (if pairs[0].0 == key then [pairs[0].1] else []) + Select(pairs[1..], key)
  }

  lemma {:induction false} SelectConcat(a: Pairs, b: Pairs, key: string)
    ensures Select(a + b, key) == Select(a, key) + Select(b, key)
  {
    if a == [] {
      assert a + b == b;
    } else {
      assert (a + b)[1..] == a[1..] + b;
      SelectConcat(a[1..], b, key);
    }
  }

  // An array holds several values.
  predicate Proper(obj: Object) { forall k :: k in obj && obj[k].Many? ==> |obj[k].texts| >= 2 }

  lemma AddValues(obj: Object, key: string, value: string, k: string)
    requires Proper(obj)
    ensures Proper(Add(obj, key, value))
    ensures ValuesOf(Add(obj, key, value), k) == ValuesOf(obj, k) + if k == key then [value] else []
  { }

  // The parser gives every key exactly its values, in order.
  lemma {:induction false} AddAllValues(obj: Object, pairs: Pairs, k: string)
    requires Proper(obj)
    ensures Proper(AddAll(obj, pairs))
    ensures ValuesOf(AddAll(obj, pairs), k) == ValuesOf(obj, k) + Select(pairs, k)
    decreases |pairs|
  {
    hide Add, ValuesOf, Proper;
    if pairs == [] {
      assert ValuesOf(obj, k) + [] == ValuesOf(obj, k);
    } else {
      var p := pairs[0];
      AddValues(obj, p.0, p.1, k);
      AddAllValues(Add(obj, p.0, p.1), pairs[1..], k);
      var head := if p.0 == k then [p.1] else [];
      assert ValuesOf(obj, k) + head + Select(pairs[1..], k) == ValuesOf(obj, k) + Select(pairs, k);
    }
  }

  // The form in which the parser can return an object: no empty arrays, no arrays of one.
  function Canonical(obj: Object): (r: Object)
    ensures Proper(r)
    ensures forall k :: ValuesOf(r, k) == ValuesOf(obj, k)
    ensures forall k :: k in r <==> ValuesOf(r, k) != []
  {
    map k | k in obj && List(obj[k]) != [] :: if |List(obj[k])| == 1 then One(List(obj[k])[0]) else Many(List(obj[k]))
  }

  // Its values determine a proper object.
  lemma SameValues(a: Object, b: Object)
    requires Proper(a) && Proper(b) && forall k :: ValuesOf(a, k) == ValuesOf(b, k)
    ensures a == b
  {
    forall k
      ensures k in a <==> k in b
      ensures k in a && k in b ==> a[k] == b[k]
    {
      assert ValuesOf(a, k) == ValuesOf(b, k);
      assert k in a ==> |ValuesOf(a, k)| >= 1;
      assert k in b ==> |ValuesOf(b, k)| >= 1;
    }
  }

  lemma {:induction false} SelectKey(key: string, values: seq<string>, k: string)
    ensures Select(KeyPairs(key, values), k) == if k == key then values else []
  {
    if values != [] {
      SelectKey(key, values[1..], k);
      assert KeyPairs(key, values)[1..] == KeyPairs(key, values[1..]);
    }
  }

  // An object lists for each key its values.
  lemma {:induction false} SelectObject(obj: Object, keys: seq<string>, k: string)
    requires forall x :: x in keys ==> x in obj
    requires forall i, j :: 0 <= i < j < |keys| ==> keys[i] != keys[j]
    ensures Select(ObjectPairs(obj, keys), k) == if k in keys then List(obj[k]) else []
  {
    hide List, Select;
    if keys == [] {
      SelectConcat([], [], k);
      SelectNone(k);
    } else {
      var n := |keys| - 1;
      var last := keys[n];
      var rest := keys[..n];
      SelectObject(obj, rest, k);
      SelectConcat(ObjectPairs(obj, rest), KeyPairs(last, List(obj[last])), k);
      SelectKey(last, List(obj[last]), k);
      assert last !in rest;
      assert k in keys <==> k in rest || k == last by { assert keys == rest + [last]; }
    }
  }

  lemma SelectNone(k: string)
    ensures Select([], k) == []
  { }

  // Leaving out later pairs loses a value of the first one left out.
  lemma SelectShorter(pairs: Pairs, m: nat)
    requires m < |pairs|
    ensures |Select(pairs[..m], pairs[m].0)| < |Select(pairs, pairs[m].0)|
  {
    assert pairs == pairs[..m] + pairs[m..];
    SelectConcat(pairs[..m], pairs[m..], pairs[m].0);
    assert |Select(pairs[m..], pairs[m].0)| >= 1;
  }

  // ---------------------------------------------------------------- the round trip

  // Every object comes back, up to arrays of fewer than two values, exactly when the
  // limit on pairs is not exceeded; the order of the keys does not matter.
  lemma RoundTrip(lib: Library, esc: string -> string, obj: Object, keys: seq<string>, limit: int)
    requires ValidLibrary(lib) && ValidEscape(lib, esc) && Enumerates(obj, keys)
    ensures Parse(lib, Stringify(esc, obj, keys), limit) == Canonical(obj)
       <==> limit < 0 || |ObjectPairs(obj, keys)| <= limit
  {
    hide ValidLibrary, ValidEscape, Parse, AddAll, Proper, Canonical, List, ObjectPairs, Select, ValuesOf;
    var pairs := ObjectPairs(obj, keys);
    var m := Kept(|pairs|, limit);
    ParseFields(lib, esc, pairs, limit);
    ComesBack(obj, keys, pairs, m);
  }

  // The first m pairs make up the object exactly if they are all.
  lemma ComesBack(obj: Object, keys: seq<string>, pairs: Pairs, m: nat)
    requires Enumerates(obj, keys) && pairs == ObjectPairs(obj, keys) && m <= |pairs|
    ensures AddAll(map[], pairs[..m]) == Canonical(obj) <==> m == |pairs|
  {
    hide AddAll, Proper, Canonical, List, ObjectPairs, Select, ValuesOf;
    var back := AddAll(map[], pairs[..m]);
    forall k ensures ValuesOf(Canonical(obj), k) == Select(pairs, k) && ValuesOf(back, k) == Select(pairs[..m], k) && Proper(back) {
      BothValues(obj, keys, pairs, m, k);
    }
    BothValues(obj, keys, pairs, m, "");
    if m == |pairs| {
      assert pairs[..m] == pairs;
      SameValues(back, Canonical(obj));
    } else {
      SelectShorter(pairs, m);
      assert ValuesOf(back, pairs[m].0) != ValuesOf(Canonical(obj), pairs[m].0);
    }
  }

  lemma BothValues(obj: Object, keys: seq<string>, pairs: Pairs, m: nat, k: string)
    requires Enumerates(obj, keys) && pairs == ObjectPairs(obj, keys) && m <= |pairs|
    ensures ValuesOf(Canonical(obj), k) == Select(pairs, k)
    ensures ValuesOf(AddAll(map[], pairs[..m]), k) == Select(pairs[..m], k) && Proper(AddAll(map[], pairs[..m]))
  {
    hide AddAll, Proper, Canonical, ObjectPairs, Select, List;
    SelectObject(obj, keys, k);
    ProperEmpty(k);
    AddAllValues(map[], pairs[..m], k);
    assert [] + Select(pairs[..m], k) == Select(pairs[..m], k);
  }

  lemma ProperEmpty(k: string)
    ensures Proper(map[]) && ValuesOf(map[], k) == []
  { }

  // An object whose arrays hold at least two values is its own canonical form.
  lemma CanonicalSame(obj: Object)
    ensures Canonical(obj) == obj <==> Proper(obj)
  {
    if Proper(obj) { SameValues(Canonical(obj), obj); }
  }

  // Two objects printing alike hold the same values under the same keys.
  lemma StringifyInjective(lib: Library, esc: string -> string, a: Object, keysA: seq<string>, b: Object, keysB: seq<string>)
    requires ValidLibrary(lib) && ValidEscape(lib, esc) && Enumerates(a, keysA) && Enumerates(b, keysB)
    requires Stringify(esc, a, keysA) == Stringify(esc, b, keysB)
    ensures Canonical(a) == Canonical(b)
  {
    RoundTrip(lib, esc, a, keysA, -1);
    RoundTrip(lib, esc, b, keysB, -1);
  }

  // ---------------------------------------------------------------- the code

  lemma FieldSound(lib: Library, esc: string -> string, key: string, value: string)
    requires ValidLibrary(lib) && ValidEscape(lib, esc)
    ensures QueryCode.SoundPiece(Field(esc, key, value))
  {
    hide ValidLibrary;
    EncodeSafe(lib, esc, key);
    var ek, ev := Encode(esc, key), Encode(esc, value);
    var f := Field(esc, key, value);
    assert f[..|ek|] == ek && f[|ek| + 1..] == ev;
    QueryCode.CutAt(f, |ek|);
  }

  // The parser is right about printed text.
  lemma PrintedSound(lib: Library, esc: string -> string, pairs: Pairs, limit: int)
    requires ValidLibrary(lib) && ValidEscape(lib, esc)
    ensures QueryCode.AllSound(Take(Pieces(JoinFields(esc, pairs)), limit))
  {
    hide ValidLibrary, ValidEscape, Pieces, QueryCode.SoundPiece, Field;
    if pairs == [] {
      QueryCode.OnePiece("");
      QueryCode.NothingSound();
    } else {
      PiecesOfFields(lib, esc, pairs);
      forall i | 0 <= i < |pairs| ensures QueryCode.SoundPiece(Fields(esc, pairs)[i]) {
        FieldSound(lib, esc, pairs[i].0, pairs[i].1);
      }
    }
  }

  // The printer and the parser themselves: every object comes back exactly when the limit
  // on pairs is not exceeded.
  method PrintAndParse(lib: Library, esc: string -> string, obj: Object, keys: seq<string>, limit: int) returns (back: Object)
    requires ValidLibrary(lib) && ValidEscape(lib, esc) && Enumerates(obj, keys) && limit != 0
    ensures back == Canonical(obj) <==> limit < 0 || |ObjectPairs(obj, keys)| <= limit
  {
    hide ValidLibrary, ValidEscape, Canonical, Parse, AddAll, QueryCode.AllSound, QueryCode.ParseAsIs;
    var text := QueryPrint.Stringify(esc, obj, keys);
    PrintedSound(lib, esc, ObjectPairs(obj, keys), limit);
    back := QueryCode.Parse(lib, text, limit);
    QueryCode.ParseRight(lib, text, limit);
    RoundTrip(lib, esc, obj, keys, limit);
  }

  // ---------------------------------------------------------------- escapes

  // A hexadecimal digit in either case.
  function Digit(d: nat, upper: bool): char
    requires d < 16
  {
    if upper then "0123456789ABCDEF"[d] else "0123456789abcdef"[d]
  }

  lemma DigitValue(d: nat, upper: bool)
    requires d < 16
    ensures HexValue(Digit(d, upper)) == d
  {
    if upper {
      assert "0123456789ABCDEF"[d] == if d < 10 then '0' + d as char else 'A' + (d - 10) as char;
    } else {
      assert "0123456789abcdef"[d] == if d < 10 then '0' + d as char else 'a' + (d - 10) as char;
    }
  }

  datatype Octet = Octet(value: nat, highUpper: bool, lowUpper: bool)

  // Octets written as `%HH`, each digit in the case given.
  function Escaped(octets: seq<Octet>): string
    requires forall i :: 0 <= i < |octets| ==> octets[i].value < 256
  {
    if octets == [] then ""
    else
      var o := octets[0];
      ['%', Digit(o.value / 16, o.highUpper), Digit(o.value % 16, o.lowUpper)] + Escaped(octets[1..])
  }

  lemma BytesEscape(high: char, low: char, value: nat, rest: string, decodeSpaces: bool)
    requires IsHex(high) && IsHex(low) && value == HexValue(high) * 16 + HexValue(low)
    ensures Bytes(['%', high, low] + rest, decodeSpaces) == [value] + Bytes(rest, decodeSpaces)
  {
    hide HexValue;
    var text := ['%', high, low] + rest;
    assert text[0] == '%' && text[1] == high && text[2] == low && text[3..] == rest;
  }

  function Values(octets: seq<Octet>): seq<nat> { seq(|octets|, i requires 0 <= i < |octets| => octets[i].value) }

  // The text of the first octet.
  lemma FirstOctet(o: Octet, rest: string, decodeSpaces: bool)
    requires o.value < 256
    ensures Bytes(['%', Digit(o.value / 16, o.highUpper), Digit(o.value % 16, o.lowUpper)] + rest, decodeSpaces)
         == [o.value] + Bytes(rest, decodeSpaces)
  {
    hide Bytes, Digit, HexValue;
    DigitValue(o.value / 16, o.highUpper);
    DigitValue(o.value % 16, o.lowUpper);
    BytesEscape(Digit(o.value / 16, o.highUpper), Digit(o.value % 16, o.lowUpper), o.value, rest, decodeSpaces);
  }

  lemma FirstValue(octets: seq<Octet>)
    requires |octets| > 0
    ensures Values(octets) == [octets[0].value] + Values(octets[1..])
  { }

  // The octets of escaped text are those that were written, and the text that follows is
  // read by itself.
  lemma {:induction false} BytesEscaped(octets: seq<Octet>, rest: string, decodeSpaces: bool)
    requires forall i :: 0 <= i < |octets| ==> octets[i].value < 256
    ensures Bytes(Escaped(octets) + rest, decodeSpaces) == Values(octets) + Bytes(rest, decodeSpaces)
  {
    hide Bytes, Digit, HexValue, Values;
    if octets == [] {
      assert "" + rest == rest;
      NoValues();
      assert [] + Bytes(rest, decodeSpaces) == Bytes(rest, decodeSpaces);
    } else {
      var o, more := octets[0], octets[1..];
      var first := ['%', Digit(o.value / 16, o.highUpper), Digit(o.value % 16, o.lowUpper)];
      BytesEscaped(more, rest, decodeSpaces);
      FirstOctet(o, Escaped(more) + rest, decodeSpaces);
      FirstValue(octets);
      assert first + Escaped(more) + rest == first + (Escaped(more) + rest);
      assert [o.value] + Values(more) + Bytes(rest, decodeSpaces) == [o.value] + (Values(more) + Bytes(rest, decodeSpaces));
    }
  }

  lemma NoValues()
    ensures Values([]) == []
  { }

  // Any other character stands for itself, or as a `+` for a space if asked.
  lemma BytesPlainFirst(c: char, rest: string, decodeSpaces: bool)
    requires c as int < 128 && c != '%'
    ensures Bytes([c] + rest, decodeSpaces) == [if c == '+' && decodeSpaces then 32 else c as int] + Bytes(rest, decodeSpaces)
  {
    assert ([c] + rest)[1..] == rest;
  }

  // ---------------------------------------------------------------- what parsing means

  // A piece is cut at its first `=`, and without one it is a key.
  lemma PairAt(lib: Library, key: string, value: string)
    requires '=' !in key
    ensures Pair(lib, key + "=" + value) == (Unescape(lib, Plus(key)), Unescape(lib, Plus(value)))
    ensures Pair(lib, key) == (Unescape(lib, Plus(key)), Unescape(lib, ""))
  {
    hide Unescape, Plus;
    var piece := key + "=" + value;
    assert piece[..|key|] == key && piece[|key| + 1..] == value;
    QueryCode.CutAt(piece, |key|);
    QueryCode.CutNone(key);
    assert key[..|key|] == key;
    assert Plus("") == "";
  }

  // One piece after another, empty ones ignored; a limit counts the pieces, empty or not.
  lemma ParseCons(lib: Library, piece: string, rest: string, limit: int)
    requires '&' !in piece && limit != 0
    ensures piece == "" ==> Parse(lib, piece + "&" + rest, limit) == if limit == 1 then map[] else Parse(lib, rest, limit - 1)
    ensures piece != "" ==>
      Parse(lib, piece + "&" + rest, limit) == AddAll(map[], [Pair(lib, piece)] + PairsOf(lib, Take(Pieces(rest), limit - 1)))
    ensures Parse(lib, "", limit) == map[]
  {
    hide Pair, Pieces, AddAll;
    QueryCode.FirstPiece(piece, rest);
    QueryCode.OnePiece("");
    var pieces := Pieces(rest);
    assert Take([piece] + pieces, limit) == [piece] + Take(pieces, limit - 1);
    var taken := [piece] + Take(pieces, limit - 1);
    assert taken[0] == piece && taken[1..] == Take(pieces, limit - 1);
    assert PairsOf(lib, []) == [];
    NoPairs(lib, limit);
    assert AddAll(map[], []) == map[] by { NoneAdded(); }
    assert limit == 1 ==> Take(pieces, limit - 1) == [];
    assert [] + PairsOf(lib, Take(pieces, limit - 1)) == PairsOf(lib, Take(pieces, limit - 1));
  }

  lemma NoneAdded()
    ensures AddAll(map[], []) == map[]
  { }

  // ---------------------------------------------------------------- what the shortcut does

  lemma {:induction false} NoPlusSame(s: string)
    requires '+' !in s
    ensures QueryCode.NoPlus(s) == s
  {
    if s != "" {
      NoPlusSame(s[..|s| - 1]);
      assert s[..|s| - 1] + [s[|s| - 1]] == s;
    }
  }

  lemma AsIsParts(lib: Library, key: string, value: string)
    requires '=' !in key
    ensures var raw := QueryCode.AsIs(lib, key + "=" + value);
            && raw.0 == QueryCode.Decoded(lib, Plus(key), HasEscape(key))
            && raw.1 == QueryCode.Decoded(lib, Plus(value), QueryCode.ValueFlag(key, value))
  {
    hide Unescape, Plus, HasEscape, QueryCode.ValueFlag, QueryCode.Decoded;
    var piece := key + "=" + value;
    assert piece[..|key|] == key && piece[|key| + 1..] == value;
    QueryCode.CutAt(piece, |key|);
  }

  // Whatever has an escape is decoded.
  lemma EscapedIsDecoded(lib: Library, key: string, value: string)
    requires '=' !in key
    ensures var raw := QueryCode.AsIs(lib, key + "=" + value);
            && (HasEscape(key) ==> raw.0 == Unescape(lib, Plus(key)))
            && (HasEscape(value) ==> raw.1 == Unescape(lib, Plus(value)))
  {
    hide Unescape, QueryCode.NoPlus, QueryCode.Beyond;
    AsIsParts(lib, key, value);
    QueryCode.NoPlusEscape(value);
  }

  // Where neither key nor value has an escape, and no `+` stands in the value, both are
  // kept, whatever a decoder would make of them.
  lemma PlainIsKept(lib: Library, key: string, value: string)
    requires '=' !in key && !HasEscape(key)
    ensures var raw := QueryCode.AsIs(lib, key + "=" + value);
            && raw.0 == Plus(key)
            && ('+' !in value && !HasEscape(value) ==> raw.1 == value)
  {
    hide Unescape, QueryCode.NoPlus, QueryCode.Beyond;
    AsIsParts(lib, key, value);
    QueryCode.BeyondNext(key, '=');
    QueryCode.NothingYet();
    if '+' !in value {
      NoPlusSame(value);
      assert Plus(value) == value;
    }
  }

  // The flag of a value goes up too early: over an escape with a `+` inside, and by a
  // second escape of the key.
  lemma FlagTooEarly()
    ensures !HasEscape("%+41") && QueryCode.ValueFlag("", "%+41")
    ensures QueryCode.ValueFlag("%41%42", "x")
  {
    hide QueryCode.NoPlus;
    var k := "%41%42";
    WithoutPlus();
    assert EscapeAt("%41", 0);
    assert EscapeAt(k, 0) && k[3..] == "%42";
    NoPlusSame("%42");
    assert EscapeAt("%42", 0);
  }

  lemma WithoutPlus()
    ensures QueryCode.NoPlus("%+41") == "%41"
  {
    hide QueryCode.NoPlus;
    QueryCode.NoPlusNext("%+4", '1');
    QueryCode.NoPlusNext("%+", '4');
    QueryCode.NoPlusNext("%", '+');
    NoPlusSame("%");
    assert "%+4" + ['1'] == "%+41" && "%+" + ['4'] == "%+4" && "%" + ['+'] == "%+";
  }

  // ---------------------------------------------------------------- what is printed

  // The pairs of a list of keys, one key after another and each with its values in order.
  lemma {:induction false} PairsInOrder(obj: Object, xs: seq<string>, ys: seq<string>)
    requires forall k :: k in xs + ys ==> k in obj
    ensures (forall k :: k in xs ==> k in obj) && forall k :: k in ys ==> k in obj
    ensures ObjectPairs(obj, xs + ys) == ObjectPairs(obj, xs) + ObjectPairs(obj, ys)
    decreases |ys|
  {
    hide KeyPairs;
    forall k | k in xs ensures k in obj { assert k in xs + ys; }
    forall k | k in ys ensures k in obj { assert k in xs + ys; }
    if |ys| == 0 {
      assert xs + ys == xs;
    } else {
      var front, all := ys[..|ys| - 1], xs + ys;
      assert all[..|all| - 1] == xs + front && all[|all| - 1] == ys[|ys| - 1];
      PairsInOrder(obj, xs, front);
    }
  }

  lemma JoinSnoc(esc: string -> string, pairs: Pairs, p: (string, string))
    ensures JoinFields(esc, pairs + [p]) == JoinFields(esc, pairs) + (if |pairs| == 0 then "" else "&") + Field(esc, p.0, p.1)
  {
    hide Field;
    assert (pairs + [p])[..|pairs|] == pairs;
  }

  lemma Regroup(a: string, b: string, c: string)
    ensures a + "&" + b + "&" + c == a + "&" + (b + "&" + c)
  { }

  // A text of pairs is the pairs' fields with one `&` between two.
  lemma {:induction false} PrintedCons(esc: string -> string, p: (string, string), pairs: Pairs)
    requires |pairs| > 0
    ensures JoinFields(esc, [p] + pairs) == Field(esc, p.0, p.1) + "&" + JoinFields(esc, pairs)
    decreases |pairs|
  {
    hide Field, JoinFields;
    var front, q := pairs[..|pairs| - 1], pairs[|pairs| - 1];
    assert pairs == front + [q] && [p] + pairs == ([p] + front) + [q];
    JoinSnoc(esc, [p] + front, q);
    JoinSnoc(esc, front, q);
    if |front| > 0 {
      PrintedCons(esc, p, front);
      Regroup(Field(esc, p.0, p.1), JoinFields(esc, front), Field(esc, q.0, q.1));
    } else {
      assert [p] + front == [p];
      FirstJoined(esc, p);
      NothingJoined(esc);
    }
  }

  lemma NothingJoined(esc: string -> string)
    ensures JoinFields(esc, []) == ""
  { }
}
