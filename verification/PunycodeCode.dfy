/**
 `encode` and `decode` of punycode.js as loops over mutable state, proved equal to
 the encoder and decoder of RFC 3492. The encoder keeps the count it passes to
 `adapt` fixed during a pass, unlike section 6.3; its contract says that this
 cannot be seen.
 */
module PunycodeCode {
  import opened Arith
  import opened Utf16
  import opened Bootstring
  import Spec = PunycodeSpec

  // ---------------------------------------------------------------- floor division

  // The source's `floor(a / b)` and `a % b`.
  method Divide(a: nat, b: nat) returns (q: nat, r: nat)
    requires b > 0
    ensures q == Quot(a, b) && r == Rem(a, b)
  {
    QuotIsDiv(a, b);
    q, r := a / b, a % b;
  }

  // The source's overflow guards `x > floor(room / b)` are the exact tests for the product.
  method TooLarge(x: int, room: int, b: nat) returns (tooLarge: bool)
    requires b > 0
    ensures tooLarge <==> x * b > room
  {
    DivBound(x, room, b);
    tooLarge := x > room / b;
  }

  // ---------------------------------------------------------------- encoder

  // The loop that writes one delta.
  method EncodeDelta(delta: nat, bias: nat) returns (output: seq<Unit>)
    ensures output == VarInt(delta, BASE, bias)
  {
    hide Quot, Rem;
    output := [];
    var q: nat := delta;
    var k: nat := BASE;
    var t := Threshold(k, bias);
    while q >= t
      invariant 0 <= q && 0 <= k && t == Threshold(k, bias)
      invariant VarInt(delta, BASE, bias) == output + VarInt(q, k, bias)
      decreases q
    {
      ghost var before := output;
      var qMinusT, baseMinusT := q - t, BASE - t;
      var quotient, remainder := Divide(qMinusT, baseMinusT);
      var unit := DigitToBasic(t + remainder);
      output := output + [unit];
      q := quotient;
      k := k + BASE;
      t := Threshold(k, bias);
      assert before + ([unit] + VarInt(q, k, bias)) == output + VarInt(q, k, bias);
    }
    output := output + [DigitToBasic(q)];
  }

  // The loop that finds the next larger code point.
  method FindNext(input: seq<CodePoint>, n: nat) returns (m: nat)
    ensures m == Spec.Smallest(input, n)
  {
    m := MAX_INT;
    for j := 0 to |input|
      invariant m == Spec.Smallest(input[..j], n)
    {
      assert input[..j + 1][..j] == input[..j];
      if input[j] >= n && input[j] < m {
        m := input[j];
      }
    }
    assert input[..|input|] == input;
  }

  // The loop that copies the basic code points.
  method CopyBasic(input: seq<CodePoint>) returns (output: seq<Unit>)
    ensures output == Spec.Below(input, INITIAL_N)
  {
    output := [];
    for j := 0 to |input|
      invariant output == Spec.Below(input[..j], INITIAL_N)
    {
      assert input[..j + 1] == input[..j] + [input[j]];
      Spec.BelowConcat(input[..j], [input[j]], INITIAL_N);
      assert Spec.Below([input[j]], INITIAL_N) == Spec.Keep(input[j], INITIAL_N) + [];
      if input[j] < 0x80 {
        output := output + [input[j]];
      }
    }
    assert input[..|input|] == input;
  }

  // The final output, from position j of the pass for n on.
  ghost function Rest(input: seq<CodePoint>, basic: nat, n: nat, j: nat, output: seq<Unit>, delta: nat, bias: nat): Result<seq<Unit>>
    requires j <= |input| && n <= MAX_CODE_POINT
  {
    var h := |Spec.Handled(input, n, j)|;
    Spec.WriteAfter(output, Spec.Scan(input, n, j, delta), bias, h + 1, h == basic)
  }

  // The final output, from the start of a pass on.
  ghost function RestPasses(input: seq<CodePoint>, basic: nat, n: nat, output: seq<Unit>, delta: nat, bias: nat): Result<seq<Unit>>
  {
    var h := |Spec.Below(input, n)|;
    Spec.WriteAfter(output, Spec.Pass(input, n, delta), bias, h + 1, h == basic)
  }

  // Writing a delta with the count that was current at the start of the pass gives
  // the bias of section 6.3, which uses the current count.
  lemma StaleCount(delta: nat, stale: nat, handled: nat, basic: nat)
    requires basic < stale <= handled + 1
    requires handled + 1 == stale || delta < stale
    ensures Adapt(delta, stale, handled == basic) == Adapt(delta, handled + 1, handled == basic)
  {
    if handled + 1 != stale {
      AdaptIgnoresCount(delta, stale, handled + 1);
    }
  }

  // One written delta, in the specification.
  lemma RestEmits(input: seq<CodePoint>, basic: nat, n: nat, j: nat, output: seq<Unit>, delta: nat, bias: nat)
    requires j < |input| && n <= MAX_CODE_POINT && input[j] == n
    requires basic <= |Spec.Handled(input, n, j)|
    ensures var h := |Spec.Handled(input, n, j)|;
            Rest(input, basic, n, j, output, delta, bias) ==
            Rest(input, basic, n, j + 1, output + VarInt(delta, BASE, bias), 0, Adapt(delta, h + 1, h == basic))
  {
    hide VarInt, Adapt, Spec.Below;
    Spec.HandledStep(input, n, j);
    var h := |Spec.Handled(input, n, j)|;
    var tail := Spec.Scan(input, n, j + 1, 0);
    if tail.Ok? {
      var deltas := [delta] + tail.value;
      assert deltas[1..] == tail.value;
      var bias' := Adapt(delta, h + 1, h == basic);
      assert output + (VarInt(delta, BASE, bias) + Spec.Write(tail.value, bias', h + 2, false)) ==
             output + VarInt(delta, BASE, bias) + Spec.Write(tail.value, bias', h + 2, false);
    }
  }

  // The pass over the input for code point n.
  method ScanPass(input: seq<CodePoint>, basic: nat, n: nat, start: seq<Unit>, startDelta: nat, startBias: nat)
    returns (r: Result<(seq<Unit>, nat, nat, nat)>)
    requires n <= MAX_CODE_POINT && basic <= |Spec.Below(input, n)|
    requires startDelta <= MAX_INT
    ensures r.Err? ==> Rest(input, basic, n, 0, start, startDelta, startBias) == Err(r.error)
    ensures r.Ok? ==>
              var (output, delta, bias, handled) := r.value;
              && handled == |Spec.Below(input, n + 1)|
              && delta <= MAX_INT
              && Rest(input, basic, n, 0, start, startDelta, startBias) ==
                 Rest(input, basic, n, |input|, output, delta, bias)
  {
    hide VarInt, Adapt, Spec.Write, Spec.Below;
    Spec.HandledEnds(input, n);
    var output, bias := start, startBias;
    var delta: nat := startDelta;
    var handled: nat := |Spec.Below(input, n)|;
    var handledPlusOne := handled + 1;
    for j := 0 to |input|
      invariant handled == |Spec.Handled(input, n, j)|
      invariant handledPlusOne == |Spec.Below(input, n)| + 1 <= handled + 1
      invariant handled + 1 == handledPlusOne || delta <= |Spec.Below(input[..j], n)|
      invariant delta <= MAX_INT
      invariant Rest(input, basic, n, 0, start, startDelta, startBias) ==
                Rest(input, basic, n, j, output, delta, bias)
    {
      Spec.HandledStep(input, n, j);
      PrefixCount(input, n, j);
      if input[j] < n {
        delta := delta + 1;
        if delta > MAX_INT {
          return Err(Overflow);
        }
      }
      if input[j] == n {
        var digits := EncodeDelta(delta, bias);
        RestEmits(input, basic, n, j, output, delta, bias);
        StaleCount(delta, handledPlusOne, handled, basic);
        output := output + digits;
        bias := ComputeAdapt(delta, handledPlusOne, handled == basic);
        delta := 0;
        handled := handled + 1;
      }
    }
    return Ok((output, delta, bias, handled));
  }

  lemma PrefixCount(input: seq<CodePoint>, n: nat, j: nat)
    requires j < |input|
    ensures |Spec.Below(input[..j + 1], n)| == |Spec.Below(input[..j], n)| + |Spec.Keep(input[j], n)|
    ensures |Spec.Below(input[..j], n)| <= |Spec.Below(input, n)|
  {
    assert input[..j + 1] == input[..j] + [input[j]];
    Spec.BelowConcat(input[..j], [input[j]], n);
    assert Spec.Below([input[j]], n) == Spec.Keep(input[j], n) + Spec.Below([], n);
    assert input == input[..j] + input[j..];
    Spec.BelowConcat(input[..j], input[j..], n);
  }

  // The step of the specification from the start of a pass into its scan.
  lemma EnterPass(input: seq<CodePoint>, basic: nat, n: nat, output: seq<Unit>, delta: nat, bias: nat)
    requires |Spec.Below(input, n)| < |input|
    ensures var h := |Spec.Below(input, n)|;
            var m := Spec.Smallest(input, n);
            var delta' := delta + (m - n) * (h + 1);
            && n <= m <= MAX_CODE_POINT && delta <= delta'
            && |Spec.Below(input, m)| == h
            && RestPasses(input, basic, n, output, delta, bias) ==
               if delta' > MAX_INT then Err(Overflow) else Rest(input, basic, m, 0, output, delta', bias)
  {
    hide Spec.Scan, Spec.Write, Spec.Smallest;
    Spec.NextExists(input, n);
    var m := Spec.Smallest(input, n);
    MulMono(0, m - n, |Spec.Below(input, n)| + 1);
    Spec.BelowGap(input, n, m);
    Spec.HandledEnds(input, m);
  }

  // The step from the end of a scan to the next pass.
  lemma LeavePass(input: seq<CodePoint>, basic: nat, n: nat, output: seq<Unit>, delta: nat, bias: nat)
    requires n <= MAX_CODE_POINT
    ensures Rest(input, basic, n, |input|, output, delta, bias) ==
            RestPasses(input, basic, n + 1, output, delta + 1, bias)
  {
    hide Spec.Pass, Spec.Write;
    Spec.HandledEnds(input, n);
  }

  // The variables of the encoder's main loop.
  datatype State = State(n: nat, delta: nat, bias: nat, handled: nat, output: seq<Unit>)

  // One turn of the main loop: skip to the next code point and scan for it.
  method EncodePass(input: seq<CodePoint>, basic: nat, st: State) returns (r: Result<State>)
    requires basic <= st.handled == |Spec.Below(input, st.n)| < |input|
    ensures r.Err? ==> RestPasses(input, basic, st.n, st.output, st.delta, st.bias) == Err(r.error)
    ensures r.Ok? ==>
              var st' := r.value;
              && st.n < st'.n <= MAX_CODE_POINT + 1
              && st.handled <= st'.handled == |Spec.Below(input, st'.n)|
              && RestPasses(input, basic, st.n, st.output, st.delta, st.bias) ==
                 RestPasses(input, basic, st'.n, st'.output, st'.delta, st'.bias)
  {
    hide Rest, RestPasses, Spec.Smallest, Spec.Below;
    var State(n, delta, bias, handled, output) := st;
    EnterPass(input, basic, n, output, delta, bias);
    var m := FindNext(input, n);
    var tooLarge := TooLarge(m - n, MAX_INT - delta, handled + 1);
    if tooLarge {
      return Err(Overflow);
    }
    delta := delta + (m - n) * (handled + 1);
    n := m;
    var pass := ScanPass(input, basic, n, output, delta, bias);
    if pass.Err? {
      return Err(pass.error);
    }
    var (output', delta', bias', handled') := pass.value;
    LeavePass(input, basic, n, output', delta', bias');
    Spec.BelowMono(input, n, n + 1);
    return Ok(State(n + 1, delta' + 1, bias', handled', output'));
  }

  method Encode(s: seq<Unit>) returns (r: Result<seq<Unit>>)
    ensures r == Spec.Encode(s)
  {
    var input := Ucs2Decode(s);
    r := EncodeCodePoints(input);
  }

  method EncodeCodePoints(input: seq<CodePoint>) returns (r: Result<seq<Unit>>)
    ensures r == Spec.EncodePoints(input)
  {
    hide Spec.Pass, Spec.Write, Spec.Below;
    var basicPart := CopyBasic(input);
    var basicLength := |basicPart|;
    var st := State(INITIAL_N, 0, INITIAL_BIAS, basicLength,
                    if basicLength > 0 then basicPart + [DELIMITER] else basicPart);
    assert st.output == Spec.BasicPart(input);
    while st.handled < |input|
      invariant basicLength <= st.handled == |Spec.Below(input, st.n)| <= |input|
      invariant st.n <= MAX_CODE_POINT + 1
      invariant RestPasses(input, basicLength, st.n, st.output, st.delta, st.bias) == Spec.EncodePoints(input)
      decreases MAX_CODE_POINT + 1 - st.n
    {
      hide RestPasses, Spec.EncodePoints;
      var next := EncodePass(input, basicLength, st);
      if next.Err? {
        return Err(next.error);
      }
      st := next.value;
    }
    AllHandled(input, basicLength, st.n, st.output, st.delta, st.bias);
    return Ok(st.output);
  }

  lemma AllHandled(input: seq<CodePoint>, basic: nat, n: nat, output: seq<Unit>, delta: nat, bias: nat)
    requires |Spec.Below(input, n)| == |input|
    ensures RestPasses(input, basic, n, output, delta, bias) == Ok(output)
  {
    assert Spec.Pass(input, n, delta) == Ok([]);
    assert output + [] == output;
  }

  // ---------------------------------------------------------------- decoder

  // The loop that reads one delta into i.
  method DecodeDelta(input: seq<Unit>, start: nat, oldi: nat, bias: nat) returns (r: Result<(nat, nat)>)
    requires start <= |input|
    ensures match DecodeInt(input[start..], BASE, 1, oldi, bias)
            case Err(e) => r == Err(e)
            case Ok((sum, rest)) => r.Ok? && r.value.0 == sum && start < r.value.1 <= |input| && rest == input[r.value.1..]
  {
    var index, i, w, k := start, oldi, 1, BASE;
    while true
      invariant start <= index <= |input| && 0 <= i && 0 < w && 0 <= k
      invariant index > start || (i == oldi && w == 1 && k == BASE)
      invariant DecodeInt(input[start..], BASE, 1, oldi, bias) == DecodeInt(input[index..], k, w, i, bias)
      decreases |input| - index
    {
      if index >= |input| {
        return Err(InvalidInput);
      }
      assert input[index..][1..] == input[index + 1..];
      var digit := BasicToDigit(input[index]);
      index := index + 1;
      if digit >= BASE {
        return Err(InvalidInput);
      }
      var tooLarge := TooLarge(digit, MAX_INT - i, w);
      if tooLarge {
        return Err(Overflow);
      }
      MulMono(0, digit, w);
      i := i + digit * w;
      var t := Threshold(k, bias);
      if digit < t {
        return Ok((i, index));
      }
      var baseMinusT := BASE - t;
      tooLarge := TooLarge(w, MAX_INT, baseMinusT);
      if tooLarge {
        return Err(Overflow);
      }
      MulMono(1, w, baseMinusT);
      w := w * baseMinusT;
      k := k + BASE;
    }
  }

  method FindLastDelimiter(input: seq<Unit>) returns (d: int)
    ensures d == Spec.LastDelimiter(input)
  {
    d := |input| - 1;
    while d >= 0 && input[d] != DELIMITER
      invariant -1 <= d < |input|
      invariant Spec.LastDelimiter(input) == Spec.LastDelimiter(input[..d + 1])
    {
      assert input[..d + 1][..d] == input[..d];
      d := d - 1;
    }
  }

  // One delta, in the specification.
  lemma LoopStep(digits: seq<Unit>, n: nat, i: nat, bias: nat, out: seq<nat>, sum: nat, rest: seq<Unit>)
    requires digits != [] && i <= sum && |rest| < |digits|
    requires DecodeInt(digits, BASE, 1, i, bias) == Ok((sum, rest))
    ensures var points := |out| + 1;
            var n' := n + Quot(sum, points);
            var at := Rem(sum, points);
            Spec.DecodeLoop(digits, n, i, bias, out) ==
            if n' > MAX_INT then Err(Overflow)
            else Spec.DecodeLoop(rest, n', at + 1, Adapt(sum - i, points, i == 0), Spec.Insert(out, at, n'))
  {
    hide DecodeInt, Adapt, Quot, Rem;
  }

  method Decode(input: seq<Unit>) returns (r: Result<seq<Unit>>)
    ensures r == Spec.Decode(input)
  {
    hide DecodeInt, Adapt, Quot, Rem, Spec.LastDelimiter;
    var output: seq<nat> := [];
    var i: nat, n: nat, bias: nat := 0, INITIAL_N, INITIAL_BIAS;
    var basic := FindLastDelimiter(input);
    if basic < 0 {
      basic := 0;
    }
    for j := 0 to basic
      invariant output == Spec.Points(input[..j])
      invariant Spec.AllBasic(input[..j])
    {
      if input[j] >= 0x80 {
        assert input[..basic][j] >= 0x80;
        return Err(NotBasic);
      }
      output := output + [input[j]];
      assert input[..j + 1] == input[..j] + [input[j]];
    }
    var index := if basic > 0 then basic + 1 else 0;
    while index < |input|
      invariant 0 <= index <= |input| && 0 <= i && 0 <= n && 0 <= bias
      invariant Spec.DecodePoints(input) == Spec.DecodeLoop(input[index..], n, i, bias, output)
      decreases |input| - index
    {
      var oldi := i;
      var delta := DecodeDelta(input, index, oldi, bias);
      if delta.Err? {
        return Err(delta.error);
      }
      LoopStep(input[index..], n, oldi, bias, output, delta.value.0, input[delta.value.1..]);
      i := delta.value.0;
      index := delta.value.1;
      var out := |output| + 1;
      bias := ComputeAdapt(i - oldi, out, oldi == 0);
      var quotient, remainder := Divide(i, out);
      if quotient > MAX_INT - n {
        return Err(Overflow);
      }
      n := n + quotient;
      i := remainder;
      output := output[..i] + [n] + output[i..];
      i := i + 1;
    }
    return Spec.ToString(output);
  }
}
