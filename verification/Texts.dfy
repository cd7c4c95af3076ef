/** Notions that several of the models share. */
module Texts {

  datatype Option<+T> = None | Some(value: T)

  // ---------------------------------------------------------------- hexadecimal digits

  function HexValue(c: char): (v: int)
    ensures -1 <= v < 16
  {
    if '0' <= c <= '9' then c as int - '0' as int
    else if 'a' <= c <= 'f' then c as int - 'a' as int + 10
    else if 'A' <= c <= 'F' then c as int - 'A' as int + 10
    else -1
  }

  predicate IsHex(c: char) { HexValue(c) >= 0 }

  // ---------------------------------------------------------------- splitting

  // The pieces of a text between separators; never empty.
  function SplitOn(s: string, sep: char): (r: seq<string>)
    ensures |r| > 0
  {
    if s == "" then [""] else Grow(s[0], SplitOn(s[1..], sep), sep)
  }

  // A character in front: a new piece, or part of the first one.
  function Grow(c: char, pieces: seq<string>, sep: char): (r: seq<string>)
    requires |pieces| > 0
    ensures |r| > 0
  {
    if c == sep then [""] + pieces else [[c] + pieces[0]] + pieces[1..]
  }

  lemma GrowConcat(c: char, a: seq<string>, b: seq<string>, sep: char)
    requires |a| > 0
    ensures Grow(c, a + b, sep) == Grow(c, a, sep) + b
  {
    assert (a + b)[1..] == a[1..] + b;
  }

  lemma {:induction false} SplitOnFirst(piece: string, rest: string, sep: char)
    requires sep !in piece
    ensures SplitOn(piece, sep) == [piece]
    ensures SplitOn(piece + [sep] + rest, sep) == [piece] + SplitOn(rest, sep)
    decreases |piece|
  {
    var s := piece + [sep] + rest;
    if piece == "" {
      assert s[1..] == rest;
    } else {
      SplitOnFirst(piece[1..], rest, sep);
      assert s[1..] == piece[1..] + [sep] + rest;
      assert piece == [piece[0]] + piece[1..];
    }
  }

  lemma {:induction false} SplitOnConcat(a: string, b: string, sep: char)
    ensures SplitOn(a + [sep] + b, sep) == SplitOn(a, sep) + SplitOn(b, sep)
    decreases |a|
  {
    var s := a + [sep] + b;
    if a == "" {
      assert s[1..] == b;
    } else {
      hide Grow;
      SplitOnConcat(a[1..], b, sep);
      assert s[1..] == a[1..] + [sep] + b && s[0] == a[0];
      GrowConcat(a[0], SplitOn(a[1..], sep), SplitOn(b, sep), sep);
    }
  }
}
