/** What the Punycode decoder refuses. */
module PunycodeErrors {
  import opened Arith
  import opened Utf16
  import opened Bootstring
  import opened PunycodeSpec

  predicate AllDigits(s: seq<Unit>) { forall i :: 0 <= i < |s| ==> BasicToDigit(s[i]) < 36 }

  // Reading an integer fails only as overflow or invalid input, and succeeds only on digits.
  lemma {:induction false} IntErrors(s: seq<Unit>, k: nat, w: nat, i: nat, bias: nat)
    requires w > 0
    ensures match DecodeInt(s, k, w, i, bias)
            case Ok((_, rest)) => |rest| < |s| && rest == s[|s| - |rest|..] && AllDigits(s[..|s| - |rest|])
            case Err(e) => e == Overflow || e == InvalidInput
    decreases |s|
  {
    if s != [] {
      var digit := BasicToDigit(s[0]);
      MulMono(0, digit, w);
      var t := Threshold(k, bias);
      MulMono(1, w, BASE - t);
      var sum, w' := i + digit * w, w * (BASE - t);
      if digit < BASE && sum <= MAX_INT && digit >= t && w' <= MAX_INT {
        IntErrors(s[1..], k + BASE, w', sum, bias);
        var r := DecodeInt(s[1..], k + BASE, w', sum, bias);
        assert DecodeInt(s, k, w, i, bias) == r;
        if r.Ok? { Prefix(s, r.value.1); }
      }
    }
  }

  lemma Prefix(s: seq<Unit>, rest: seq<Unit>)
    requires |s| > 0 && |rest| < |s| - 1 && rest == s[1..][|s| - 1 - |rest|..] && BasicToDigit(s[0]) < 36
    requires AllDigits(s[1..][..|s| - 1 - |rest|])
    ensures rest == s[|s| - |rest|..] && AllDigits(s[..|s| - |rest|])
  {
    var n := |s| - |rest|;
    forall i | 0 <= i < n ensures BasicToDigit(s[..n][i]) < 36 {
      if i > 0 { assert s[i] == s[1..][..n - 1][i - 1]; }
    }
  }

  lemma {:induction false} LoopErrors(digits: seq<Unit>, n: nat, i: nat, bias: nat, out: seq<nat>)
    ensures match DecodeLoop(digits, n, i, bias, out)
            case Ok(_) => AllDigits(digits)
            case Err(e) => e == Overflow || e == InvalidInput
    decreases |digits|
  {
    hide DecodeInt, Adapt, Quot, Rem;
    if digits != [] {
      IntErrors(digits, BASE, 1, i, bias);
      var r := DecodeInt(digits, BASE, 1, i, bias);
      if r.Ok? {
        var sum, rest := r.value.0, r.value.1;
        var points := |out| + 1;
        var n', at := n + Quot(sum, points), Rem(sum, points);
        if n' <= MAX_INT {
          LoopErrors(rest, n', at + 1, Adapt(sum - i, points, i == 0), Insert(out, at, n'));
          assert digits == digits[..|digits| - |rest|] + rest;
          Together(digits[..|digits| - |rest|], rest);
        }
      }
    }
  }

  lemma Together(a: seq<Unit>, b: seq<Unit>)
    ensures AllDigits(a) && AllDigits(b) ==> AllDigits(a + b)
  { }

  // A code unit that is not basic before the last delimiter is refused as such, and nothing
  // else is; after the delimiter only digits are accepted.
  lemma DecodeRefuses(input: seq<Unit>)
    ensures var d := LastDelimiter(input);
            && (DecodePoints(input) == Err(NotBasic) <==> exists j :: 0 <= j < d && input[j] >= 0x80)
            && (DecodePoints(input).Ok? ==> AllDigits(input[if d > 0 then d + 1 else 0..]))
            && (DecodePoints(input).Err? ==> DecodePoints(input).error != InvalidCodePoint)
  {
    hide DecodeLoop, LastDelimiter;
    var d := LastDelimiter(input);
    var basic := if d > 0 then d else 0;
    LoopErrors(input[if d > 0 then d + 1 else 0..], INITIAL_N, 0, INITIAL_BIAS, Points(input[..basic]));
    assert AllBasic(input[..basic]) <==> !exists j :: 0 <= j < d && input[j] >= 0x80 by {
      if j :| 0 <= j < d && input[j] >= 0x80 { assert input[..basic][j] >= 0x80; }
    }
  }

  // Upper-case and lower-case digits read alike.
  predicate SameDigits(a: seq<Unit>, b: seq<Unit>) { |a| == |b| && forall i :: 0 <= i < |a| ==> BasicToDigit(a[i]) == BasicToDigit(b[i]) }

  lemma {:induction false} IntCase(a: seq<Unit>, b: seq<Unit>, k: nat, w: nat, i: nat, bias: nat)
    requires w > 0 && SameDigits(a, b)
    ensures match DecodeInt(a, k, w, i, bias)
            case Ok((sum, rest)) => DecodeInt(b, k, w, i, bias).Ok? && DecodeInt(b, k, w, i, bias).value.0 == sum && SameDigits(rest, DecodeInt(b, k, w, i, bias).value.1)
            case Err(e) => DecodeInt(b, k, w, i, bias) == Err(e)
    decreases |a|
  {
    if a != [] {
      var digit := BasicToDigit(a[0]);
      MulMono(0, digit, w);
      var t := Threshold(k, bias);
      MulMono(1, w, BASE - t);
      var sum, w' := i + digit * w, w * (BASE - t);
      if digit < BASE && sum <= MAX_INT && digit >= t && w' <= MAX_INT {
        IntCase(a[1..], b[1..], k + BASE, w', sum, bias);
      }
    }
  }

  lemma {:induction false} DecodeIgnoresCase(a: seq<Unit>, b: seq<Unit>, n: nat, i: nat, bias: nat, out: seq<nat>)
    requires SameDigits(a, b)
    ensures DecodeLoop(a, n, i, bias, out) == DecodeLoop(b, n, i, bias, out)
    decreases |a|
  {
    hide DecodeInt, Adapt, Quot, Rem, SameDigits;
    SameLength(a, b);
    if a != [] {
      IntCase(a, b, BASE, 1, i, bias);
      var r, r' := DecodeInt(a, BASE, 1, i, bias), DecodeInt(b, BASE, 1, i, bias);
      if r.Ok? {
        var sum, rest := r.value.0, r.value.1;
        var points := |out| + 1;
        var n', at := n + Quot(sum, points), Rem(sum, points);
        if n' <= MAX_INT {
          DecodeIgnoresCase(rest, r'.value.1, n', at + 1, Adapt(sum - i, points, i == 0), Insert(out, at, n'));
        }
      }
    }
  }

  lemma SameLength(a: seq<Unit>, b: seq<Unit>)
    requires SameDigits(a, b)
    ensures |a| == |b|
  { }
}
