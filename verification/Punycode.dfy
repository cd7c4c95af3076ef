/**
 The Punycode codec of punycode.js: the specification is the encoder of section
 6.3 and the decoder of section 6.2 of RFC 3492, on code points.
 */
module PunycodeSpec {
  import opened Arith
  import opened Utf16
  import opened Bootstring

  // ---------------------------------------------------------------- what has been handled

  // The code points smaller than n, in order.
  function Below(s: seq<CodePoint>, n: nat): (r: seq<CodePoint>)
    ensures |r| <= |s|
  {
    if s == [] then [] else Keep(s[0], n) + Below(s[1..], n)
  }

  function Keep(x: CodePoint, n: nat): seq<CodePoint> { if x < n then [x] else [] }

  // What the encoder has handled when it is at position j of the pass for n.
  function Handled(s: seq<CodePoint>, n: nat, j: nat): (r: seq<CodePoint>)
    requires j <= |s|
    ensures |r| <= |s|
  {
    Below(s[..j], n + 1) + Below(s[j..], n)
  }

  lemma {:induction false} BelowConcat(a: seq<CodePoint>, b: seq<CodePoint>, n: nat)
    ensures Below(a + b, n) == Below(a, n) + Below(b, n)
  {
    if a == [] {
      assert a + b == b;
    } else {
      var ab := a + b;
      calc {
        Below(ab, n);
        Keep(ab[0], n) + Below(ab[1..], n);
        { assert ab[0] == a[0] && ab[1..] == a[1..] + b; }
        Keep(a[0], n) + Below(a[1..] + b, n);
        { BelowConcat(a[1..], b, n); }
        Keep(a[0], n) + (Below(a[1..], n) + Below(b, n));
        (Keep(a[0], n) + Below(a[1..], n)) + Below(b, n);
        Below(a, n) + Below(b, n);
      }
    }
  }

  lemma {:induction false} BelowAll(s: seq<CodePoint>, n: nat)
    ensures |Below(s, n)| == |s| ==> Below(s, n) == s
    ensures |Below(s, n)| == |s| <==> forall x :: x in s ==> x < n
  {
    if s != [] {
      BelowAll(s[1..], n);
      assert s == [s[0]] + s[1..];
      if |Below(s, n)| == |s| {
        forall x | x in s
          ensures x < n
        {
          assert x == s[0] || x in s[1..];
        }
      } else if s[0] < n {
        var x :| x in s[1..] && x >= n;
        assert x in s;
      } else {
        assert s[0] in s;
      }
    }
  }

  lemma {:induction false} BelowGap(s: seq<CodePoint>, n: nat, m: nat)
    requires n <= m
    requires forall x :: x in s ==> x < n || m <= x
    ensures Below(s, n) == Below(s, m)
  {
    if s != [] {
      assert s[0] in s;
      assert forall x :: x in s[1..] ==> x in s;
      BelowGap(s[1..], n, m);
    }
  }

  lemma {:induction false} BelowMono(s: seq<CodePoint>, n: nat, m: nat)
    requires n <= m
    ensures |Below(s, n)| <= |Below(s, m)|
  {
    if s != [] {
      BelowMono(s[1..], n, m);
    }
  }

  // One position of a pass.
  lemma HandledStep(s: seq<CodePoint>, n: nat, j: nat)
    requires j < |s|
    ensures Below(s[..j + 1], n + 1) == Below(s[..j], n + 1) + Keep(s[j], n + 1)
    ensures Below(s[j..], n) == Keep(s[j], n) + Below(s[j + 1..], n)
    ensures s[j] != n ==> Handled(s, n, j + 1) == Handled(s, n, j)
    ensures s[j] == n ==> Handled(s, n, j + 1) == Below(s[..j], n + 1) + [n] + Below(s[j..], n)
  {
    assert s[..j + 1] == s[..j] + [s[j]];
    assert Below([s[j]], n + 1) == Keep(s[j], n + 1) + Below([], n + 1);
    BelowConcat(s[..j], [s[j]], n + 1);
    assert s[j..][1..] == s[j + 1..];
    assert Below(s[..j], n + 1) + (Keep(s[j], n + 1) + Below(s[j + 1..], n)) ==
           Handled(s, n, j + 1);
  }

  lemma HandledEnds(s: seq<CodePoint>, n: nat)
    ensures Handled(s, n, 0) == Below(s, n)
    ensures Handled(s, n, |s|) == Below(s, n + 1)
  {
    assert s[..0] == [] && s[0..] == s && s[..|s|] == s && s[|s|..] == [];
  }

  // The smallest code point that is at least n, MAX_INT if there is none.
  function Smallest(s: seq<CodePoint>, n: nat): (m: nat)
    ensures m == MAX_INT || (m in s && n <= m)
    ensures forall x :: x in s && n <= x ==> m <= x
  {
    if s == [] then MAX_INT
    else
      var m := Smallest(s[..|s| - 1], n);
      var x := s[|s| - 1];
      assert s == s[..|s| - 1] + [x];
      if n <= x < m then x else m
  }

  // While something is unhandled the next pass has a code point to work on.
  lemma NextExists(s: seq<CodePoint>, n: nat)
    requires |Below(s, n)| < |s|
    ensures n <= Smallest(s, n) <= MAX_CODE_POINT && Smallest(s, n) in s
  {
    BelowAll(s, n);
  }

  // ---------------------------------------------------------------- encoder

  // Section 6.3 of RFC 3492: the deltas written from the start of a pass on. They
  // do not depend on the bias; h is the number of code points handled.
  function Pass(s: seq<CodePoint>, n: nat, delta: nat): Result<seq<nat>>
    decreases MAX_CODE_POINT + 1 - n, |s| + 1
  {
    var h := |Below(s, n)|;
    if h == |s| then Ok([])
    else
      NextExists(s, n);
      var m := Smallest(s, n);
      MulMono(0, m - n, h + 1);
      var delta' := delta + (m - n) * (h + 1);
      if delta' > MAX_INT then Err(Overflow) else Scan(s, m, 0, delta')
  }

  // The deltas written from position j of the pass for n on.
  function Scan(s: seq<CodePoint>, n: nat, j: nat, delta: nat): Result<seq<nat>>
    requires j <= |s| && n <= MAX_CODE_POINT
    decreases MAX_CODE_POINT + 1 - n, |s| - j
  {
    if j == |s| then Pass(s, n + 1, delta + 1)
    else if s[j] < n then
      if delta + 1 > MAX_INT then Err(Overflow) else Scan(s, n, j + 1, delta + 1)
    else if s[j] == n then Cons(delta, Scan(s, n, j + 1, 0))
    else Scan(s, n, j + 1, delta)
  }

  function Cons(delta: nat, r: Result<seq<nat>>): Result<seq<nat>>
  {
    match r
    case Ok(rest) => Ok([delta] + rest)
    case Err(e) => Err(e)
  }

  // The digits of a list of deltas: after each one the bias is adapted to it and
  // to the number of code points handled, which is `points` with the new one.
  function Write(deltas: seq<nat>, bias: nat, points: nat, firstTime: bool): seq<Unit>
    requires points > 0
  {
    if deltas == [] then []
    else VarInt(deltas[0], BASE, bias) + Write(deltas[1..], Adapt(deltas[0], points, firstTime), points + 1, false)
  }

  // Digits written after `out`.
  function WriteAfter(out: seq<Unit>, deltas: Result<seq<nat>>, bias: nat, points: nat, firstTime: bool): Result<seq<Unit>>
    requires points > 0
  {
    match deltas
    case Ok(d) => Ok(out + Write(d, bias, points, firstTime))
    case Err(e) => Err(e)
  }

  function BasicPart(s: seq<CodePoint>): seq<Unit>
  {
    var basic := Below(s, INITIAL_N);
    AllBelow(s, INITIAL_N);
    assert forall i :: 0 <= i < |basic| ==> basic[i] in basic;
    if basic == [] then [] else basic + [DELIMITER]
  }

  lemma {:induction false} AllBelow(s: seq<CodePoint>, n: nat)
    ensures forall x :: x in Below(s, n) ==> x < n
  {
    if s != [] {
      AllBelow(s[1..], n);
    }
  }

  function EncodePoints(s: seq<CodePoint>): Result<seq<Unit>>
  {
    WriteAfter(BasicPart(s), Pass(s, INITIAL_N, 0), INITIAL_BIAS, |Below(s, INITIAL_N)| + 1, true)
  }

  function Encode(input: seq<Unit>): Result<seq<Unit>>
  {
    EncodePoints(ToCodePoints(input))
  }

  // ---------------------------------------------------------------- decoder

  function Insert(out: seq<nat>, at: nat, n: nat): seq<nat>
    requires at <= |out|
  {
    out[..at] + [n] + out[at..]
  }

  // Section 6.2 of RFC 3492: the main loop on the digits still to be read.
  function DecodeLoop(digits: seq<Unit>, n: nat, i: nat, bias: nat, out: seq<nat>): Result<seq<nat>>
    decreases |digits|
  {
    if digits == [] then Ok(out)
    else
      match DecodeInt(digits, BASE, 1, i, bias)
      case Err(e) => Err(e)
      case Ok((sum, rest)) =>
        var points := |out| + 1;
        var n' := n + Quot(sum, points);
        var at := Rem(sum, points);
        if n' > MAX_INT then Err(Overflow)
        else DecodeLoop(rest, n', at + 1, Adapt(sum - i, points, i == 0), Insert(out, at, n'))
  }

  function LastDelimiter(s: seq<Unit>): (d: int)
    ensures -1 <= d < |s|
    ensures d >= 0 ==> s[d] == DELIMITER
    ensures forall j :: d < j < |s| ==> s[j] != DELIMITER
  {
    if s == [] then -1
    else if s[|s| - 1] == DELIMITER then |s| - 1
    else LastDelimiter(s[..|s| - 1])
  }

  predicate AllBasic(s: seq<Unit>) { forall j :: 0 <= j < |s| ==> s[j] < 0x80 }

  function DecodePoints(input: seq<Unit>): Result<seq<nat>>
  {
    var last := LastDelimiter(input);
    var basic := if last < 0 then 0 else last;
    if !AllBasic(input[..basic]) then Err(NotBasic)
    else DecodeLoop(input[if basic > 0 then basic + 1 else 0..], INITIAL_N, 0, INITIAL_BIAS, Points(input[..basic]))
  }

  function Points(s: seq<Unit>): seq<nat> { seq(|s|, i requires 0 <= i < |s| => s[i]) }

  function ToString(points: seq<nat>): Result<seq<Unit>>
  {
    if forall j :: 0 <= j < |points| ==> points[j] <= MAX_CODE_POINT
    then Ok(FromCodePoints(seq(|points|, j requires 0 <= j < |points| => points[j])))
    else Err(InvalidCodePoint)
  }

  function Decode(input: seq<Unit>): Result<seq<Unit>>
  {
    match DecodePoints(input)
    case Ok(points) => ToString(points)
    case Err(e) => Err(e)
  }
}
