/**
 The laws of the Punycode codec: decoding inverts encoding, the two sides agree
 on every bias and delta, and no guard fires on inputs of up to 1927 code points.
 */
module PunycodeLaws {
  import opened Arith
  import opened Utf16
  import opened Bootstring
  import opened PunycodeSpec

  // The longest inputs on which no 31-bit guard can fire.
  const SAFE_LENGTH := 1927

  // Decoder steps from <nd, 0> to <n, 0>, with `slots` positions for each code point.
  ghost function Distance(nd: nat, n: nat, slots: nat): nat
    decreases n
  {
    if n <= nd then 0 else slots + Distance(nd, n - 1, slots)
  }

  lemma {:induction false} DistanceIsProduct(nd: nat, n: nat, slots: nat)
    requires nd <= n
    ensures Distance(nd, n, slots) == (n - nd) * slots
    decreases n
  {
    if nd < n {
      DistanceIsProduct(nd, n - 1, slots);
      assert (n - nd) * slots == slots + (n - 1 - nd) * slots;
    }
  }

  // The decoder, at <nd, i> with what the encoder has handled, is `delta` steps
  // behind the encoder, which stands at position p of the handled code points for n.
  ghost predicate Behind(handled: nat, n: nat, p: nat, delta: nat, nd: nat, i: nat)
  {
    && INITIAL_N <= nd <= n
    && i <= handled
    && p <= handled
    && i + delta == Distance(nd, n, handled + 1) + p
  }

  // Adding delta takes the decoder to the encoder's code point and position.
  lemma Land(handled: nat, n: nat, p: nat, delta: nat, nd: nat, i: nat)
    requires Behind(handled, n, p, delta, nd, i)
    ensures Quot(i + delta, handled + 1) == n - nd
    ensures Rem(i + delta, handled + 1) == p
  {
    DistanceIsProduct(nd, n, handled + 1);
    QuotUnique(i + delta, handled + 1, n - nd, p);
  }

  // Distance bound for short inputs.
  lemma ShortDistance(handled: nat, n: nat, p: nat, delta: nat, nd: nat, i: nat, size: nat)
    requires Behind(handled, n, p, delta, nd, i) && n <= MAX_CODE_POINT
    requires size <= SAFE_LENGTH && handled <= size && (handled < size || nd == n)
    ensures i + delta < MAX_INT
  {
    DistanceIsProduct(nd, n, handled + 1);
    if handled < size {
      MulMono(handled + 1, SAFE_LENGTH, n - nd);
    }
  }

  // ---------------------------------------------------------------- deltas

  // The decoder on deltas: section 6.2 of RFC 3492 without the integers and the bias.
  function Replay(deltas: seq<nat>, n: nat, i: nat, out: seq<nat>): Result<seq<nat>>
  {
    if deltas == [] then Ok(out)
    else
      var sum := i + deltas[0];
      var points := |out| + 1;
      var n' := n + Quot(sum, points);
      var at := Rem(sum, points);
      if sum > MAX_INT || n' > MAX_INT then Err(Overflow)
      else Replay(deltas[1..], n', at + 1, Insert(out, at, n'))
  }

  function ReplayResult(deltas: Result<seq<nat>>, n: nat, i: nat, out: seq<nat>): Result<seq<nat>>
  {
    match deltas
    case Ok(d) => Replay(d, n, i, out)
    case Err(e) => Err(e)
  }

  // What is read back is s, or the overflow is reported; short inputs never overflow.
  ghost predicate Recovers(s: seq<CodePoint>, back: Result<seq<nat>>)
  {
    && (back == Ok(s) || back == Err(Overflow))
    && (|s| <= SAFE_LENGTH ==> back == Ok(s))
  }

  // Skipping to the next code point m, and to the next pass.
  lemma SkipTo(handled: nat, n: nat, m: nat, delta: nat, nd: nat, i: nat)
    requires Behind(handled, n, 0, delta, nd, i) && n <= m
    ensures 0 <= (m - n) * (handled + 1)
    ensures Behind(handled, m, 0, delta + (m - n) * (handled + 1), nd, i)
  {
    MulMono(0, m - n, handled + 1);
    DistanceIsProduct(nd, n, handled + 1);
    DistanceIsProduct(nd, m, handled + 1);
    assert (m - nd) * (handled + 1) == (n - nd) * (handled + 1) + (m - n) * (handled + 1);
  }

  lemma NextPass(handled: nat, n: nat, delta: nat, nd: nat, i: nat)
    requires Behind(handled, n, handled, delta, nd, i)
    ensures Behind(handled, n + 1, 0, delta + 1, nd, i)
  {
  }

  // One delta: the decoder lands on <n, p> and inserts n there.
  lemma ReplayDelta(out: seq<nat>, n: nat, p: nat, delta: nat, nd: nat, i: nat, rest: seq<nat>)
    requires Behind(|out|, n, p, delta, nd, i) && n <= MAX_CODE_POINT
    ensures Replay([delta] + rest, nd, i, out) ==
            if i + delta <= MAX_INT then Replay(rest, n, p + 1, Insert(out, p, n)) else Err(Overflow)
  {
    Land(|out|, n, p, delta, nd, i);
    assert ([delta] + rest)[1..] == rest;
  }

  // Lock-step at the start of a pass.
  lemma {:induction false} PassRecovers(s: seq<CodePoint>, n: nat, delta: nat, nd: nat, i: nat)
    requires n <= MAX_CODE_POINT + 1
    requires Behind(|Below(s, n)|, n, 0, delta, nd, i)
    ensures Recovers(s, ReplayResult(Pass(s, n, delta), nd, i, Below(s, n)))
    decreases MAX_CODE_POINT + 1 - n, |s| + 1
  {
    var h := |Below(s, n)|;
    if h == |s| {
      BelowAll(s, n);
    } else {
      hide Below, Handled, Distance, Replay, Scan, Smallest;
      NextExists(s, n);
      var m := Smallest(s, n);
      var delta' := delta + (m - n) * (h + 1);
      SkipTo(h, n, m, delta, nd, i);
      assert Pass(s, n, delta) == if delta' > MAX_INT then Err(Overflow) else Scan(s, m, 0, delta');
      hide Pass;
      assert Handled(s, m, 0) == Below(s, n) && Below(s[..0], m + 1) == [] by {
        BelowGap(s, n, m);
        HandledEnds(s, m);
        assert s[..0] == [];
      }
      if |s| <= SAFE_LENGTH {
        ShortDistance(h, m, 0, delta', nd, i, |s|);
      }
      if delta' <= MAX_INT {
        ScanRecovers(s, m, 0, delta', nd, i);
      }
    }
  }

  // Encoder and decoder at position j of the pass for n.
  ghost predicate LockStep(s: seq<CodePoint>, n: nat, j: nat, delta: nat, nd: nat, i: nat)
    requires j <= |s|
  {
    && n <= MAX_CODE_POINT
    && Behind(|Handled(s, n, j)|, n, |Below(s[..j], n + 1)|, delta, nd, i)
    && (|Handled(s, n, j)| < |s| || nd == n)
  }

  lemma LockStepNext(s: seq<CodePoint>, n: nat, j: nat, delta: nat, nd: nat, i: nat)
    requires j < |s| && LockStep(s, n, j, delta, nd, i)
    ensures s[j] < n ==> LockStep(s, n, j + 1, delta + 1, nd, i)
    ensures s[j] > n ==> LockStep(s, n, j + 1, delta, nd, i)
    ensures s[j] == n ==> LockStep(s, n, j + 1, 0, n, |Below(s[..j], n + 1)| + 1)
    ensures s[j] != n ==> Handled(s, n, j + 1) == Handled(s, n, j)
  {
    HandledStep(s, n, j);
  }

  lemma LockStepEnd(s: seq<CodePoint>, n: nat, delta: nat, nd: nat, i: nat)
    requires LockStep(s, n, |s|, delta, nd, i)
    ensures Behind(|Below(s, n + 1)|, n + 1, 0, delta + 1, nd, i)
    ensures Handled(s, n, |s|) == Below(s, n + 1)
  {
    HandledEnds(s, n);
    assert s[..|s|] == s;
    NextPass(|Below(s, n + 1)|, n, delta, nd, i);
  }

  lemma {:induction false} ScanRecovers(s: seq<CodePoint>, n: nat, j: nat, delta: nat, nd: nat, i: nat)
    requires j <= |s| && LockStep(s, n, j, delta, nd, i)
    ensures Recovers(s, ReplayResult(Scan(s, n, j, delta), nd, i, Handled(s, n, j)))
    decreases MAX_CODE_POINT + 1 - n, |s| - j
  {
    hide Below, Handled, Distance, Replay, Quot, Rem, Smallest;
    var p := |Below(s[..j], n + 1)|;
    if |s| <= SAFE_LENGTH {
      ShortDistance(|Handled(s, n, j)|, n, p, delta, nd, i, |s|);
    }
    if j == |s| {
      LockStepEnd(s, n, delta, nd, i);
      PassRecovers(s, n + 1, delta + 1, nd, i);
    } else {
      LockStepNext(s, n, j, delta, nd, i);
      if s[j] < n {
        if delta + 1 <= MAX_INT {
          ScanRecovers(s, n, j + 1, delta + 1, nd, i);
        }
      } else if s[j] > n {
        ScanRecovers(s, n, j + 1, delta, nd, i);
      } else {
        ScanRecovers(s, n, j + 1, 0, n, p + 1);
        ScanEmits(s, n, j, delta, nd, i);
      }
    }
  }

  // The position where the encoder writes a delta.
  lemma ScanEmits(s: seq<CodePoint>, n: nat, j: nat, delta: nat, nd: nat, i: nat)
    requires j < |s| && n <= MAX_CODE_POINT && s[j] == n
    requires Behind(|Handled(s, n, j)|, n, |Below(s[..j], n + 1)|, delta, nd, i)
    requires |s| <= SAFE_LENGTH ==> i + delta <= MAX_INT
    requires Recovers(s, ReplayResult(Scan(s, n, j + 1, 0), n, |Below(s[..j], n + 1)| + 1, Handled(s, n, j + 1)))
    ensures Recovers(s, ReplayResult(Scan(s, n, j, delta), nd, i, Handled(s, n, j)))
  {
    var out := Handled(s, n, j);
    var p := |Below(s[..j], n + 1)|;
    var rest := Scan(s, n, j + 1, 0);
    assert Scan(s, n, j, delta) == Cons(delta, rest);
    HandledStep(s, n, j);
    assert Insert(out, p, n) == Handled(s, n, j + 1);
    if rest.Ok? {
      ReplayDelta(out, n, p, delta, nd, i, rest.value);
    }
  }

  // ---------------------------------------------------------------- digits

  // The decoder sees the deltas the encoder wrote: both sides adapt the bias alike.
  lemma {:induction false} ReadDeltas(deltas: seq<nat>, n: nat, i: nat, bias: nat, out: seq<nat>)
    requires bias <= MAX_BIAS
    ensures DecodeLoop(Write(deltas, bias, |out| + 1, i == 0), n, i, bias, out) == Replay(deltas, n, i, out)
    decreases |deltas|
  {
    hide DecodeInt, VarInt, Adapt, Quot, Rem;
    if deltas != [] {
      var delta := deltas[0];
      var points := |out| + 1;
      var bias' := Adapt(delta, points, i == 0);
      var rest := Write(deltas[1..], bias', points + 1, false);
      var n' := n + Quot(i + delta, points);
      var at := Rem(i + delta, points);
      if i + delta <= MAX_INT && n' <= MAX_INT {
        AdaptBound(delta, points, i == 0);
        ReadDeltas(deltas[1..], n', at + 1, bias', Insert(out, at, n'));
        ReadFirst(delta, n, i, bias, out, rest, n', at);
      } else {
        ReadOverflow(delta, n, i, bias, out, rest);
      }
    }
  }

  lemma ReadFirst(delta: nat, n: nat, i: nat, bias: nat, out: seq<nat>, rest: seq<Unit>, n': nat, at: nat)
    requires bias <= MAX_BIAS && i + delta <= MAX_INT && n' <= MAX_INT
    requires n' == n + Quot(i + delta, |out| + 1) && at == Rem(i + delta, |out| + 1)
    ensures DecodeLoop(VarInt(delta, BASE, bias) + rest, n, i, bias, out) ==
            DecodeLoop(rest, n', at + 1, Adapt(delta, |out| + 1, i == 0), Insert(out, at, n'))
  {
    hide DecodeInt, VarInt, Adapt, Quot, Rem;
    DecodeVarInt(delta, BASE, 1, i, bias, rest);
  }

  lemma ReadOverflow(delta: nat, n: nat, i: nat, bias: nat, out: seq<nat>, rest: seq<Unit>)
    requires bias <= MAX_BIAS
    requires i + delta > MAX_INT || n + Quot(i + delta, |out| + 1) > MAX_INT
    ensures DecodeLoop(VarInt(delta, BASE, bias) + rest, n, i, bias, out) == Err(Overflow)
  {
    hide DecodeInt, VarInt, Adapt, Quot, Rem;
    DecodeVarInt(delta, BASE, 1, i, bias, rest);
  }

  lemma {:induction false} WriteHasNoDelimiter(deltas: seq<nat>, bias: nat, points: nat, firstTime: bool)
    requires points > 0
    ensures DELIMITER !in Write(deltas, bias, points, firstTime)
    decreases |deltas|
  {
    if deltas != [] {
      VarIntShape(deltas[0], BASE, bias);
      WriteHasNoDelimiter(deltas[1..], Adapt(deltas[0], points, firstTime), points + 1, false);
    }
  }

  // ---------------------------------------------------------------- the codec

  // The decoder splits encoder output where the encoder joined it.
  lemma {:induction false} SplitAtDelimiter(basic: seq<Unit>, digits: seq<Unit>)
    requires DELIMITER !in digits
    ensures LastDelimiter(basic + [DELIMITER] + digits) == |basic|
    ensures LastDelimiter(digits) == -1
  {
    var s := basic + [DELIMITER] + digits;
    assert s[|basic|] == DELIMITER;
    assert forall j :: |basic| < j < |s| ==> s[j] == digits[j - |basic| - 1];
  }

  lemma DecodeParts(s: seq<CodePoint>, digits: seq<Unit>)
    requires DELIMITER !in digits
    ensures DecodePoints(BasicPart(s) + digits) ==
            DecodeLoop(digits, INITIAL_N, 0, INITIAL_BIAS, Below(s, INITIAL_N))
  {
    hide DecodeLoop, LastDelimiter, Below;
    var basic := Below(s, INITIAL_N);
    AllBelow(s, INITIAL_N);
    assert forall j :: 0 <= j < |basic| ==> basic[j] in basic;
    var input := BasicPart(s) + digits;
    if |basic| == 0 {
      assert input == digits;
      SplitAtDelimiter([], digits);
      assert input[0..] == digits && Points(input[..0]) == basic;
    } else {
      assert input == basic + [DELIMITER] + digits;
      SplitAtDelimiter(basic, digits);
      assert input[..|basic|] == basic && Points(basic) == basic;
      assert input[|basic| + 1..] == digits;
    }
  }

  // On code points: encoder output is read back, or an overflow is reported by
  // one of the two sides, and by neither on short inputs.
  lemma PointsRecover(s: seq<CodePoint>)
    ensures EncodePoints(s).Ok? || EncodePoints(s) == Err(Overflow)
    ensures EncodePoints(s).Ok? ==> Recovers(s, DecodePoints(EncodePoints(s).value))
    ensures |s| <= SAFE_LENGTH ==> EncodePoints(s).Ok?
  {
    var deltas := Pass(s, INITIAL_N, 0);
    var basic := Below(s, INITIAL_N);
    PassRecovers(s, INITIAL_N, 0, INITIAL_N, 0);
    if deltas.Ok? {
      var digits := Write(deltas.value, INITIAL_BIAS, |basic| + 1, true);
      WriteHasNoDelimiter(deltas.value, INITIAL_BIAS, |basic| + 1, true);
      DecodeParts(s, digits);
      ReadDeltas(deltas.value, INITIAL_N, 0, INITIAL_BIAS, basic);
    }
  }

  // For every string: encoding succeeds or overflows; what it produces decodes to
  // the string or overflows, and is never refused as not basic or invalid.
  lemma RoundTrip(input: seq<Unit>)
    ensures Encode(input).Ok? || Encode(input) == Err(Overflow)
    ensures Encode(input).Ok? ==>
              || Decode(Encode(input).value) == Ok(input)
              || Decode(Encode(input).value) == Err(Overflow)
  {
    var s := ToCodePoints(input);
    PointsRecover(s);
    if Encode(input).Ok? && DecodePoints(Encode(input).value) == Ok(s) {
      StringRecovers(input);
    }
  }

  lemma StringRecovers(input: seq<Unit>)
    ensures ToString(ToCodePoints(input)) == Ok(input)
  {
    var s := ToCodePoints(input);
    var points: seq<nat> := s;
    assert seq(|points|, j requires 0 <= j < |points| => points[j]) == s;
    UnitsRoundTrip(input);
  }

  // No guard fires on strings of up to SAFE_LENGTH code points.
  lemma RoundTripShort(input: seq<Unit>)
    requires |ToCodePoints(input)| <= SAFE_LENGTH
    ensures Encode(input).Ok? && Decode(Encode(input).value) == Ok(input)
  {
    PointsRecover(ToCodePoints(input));
    StringRecovers(input);
  }

  // Distinct short strings have distinct encodings.
  lemma EncodeInjective(a: seq<Unit>, b: seq<Unit>)
    requires |ToCodePoints(a)| <= SAFE_LENGTH && |ToCodePoints(b)| <= SAFE_LENGTH
    requires Encode(a) == Encode(b)
    ensures a == b
  {
    RoundTripShort(a);
    RoundTripShort(b);
  }

  // The bound is exact: one more code point and the first delta overflows.
  lemma SafeLengthIsExact()
    ensures exists s: seq<CodePoint> :: |s| == SAFE_LENGTH + 1 && EncodePoints(s) == Err(Overflow)
  {
    var basic: seq<CodePoint> := seq(SAFE_LENGTH, _ => 0x61);
    var s := basic + [MAX_CODE_POINT];
    BelowAll(basic, INITIAL_N);
    BelowConcat(basic, [MAX_CODE_POINT], INITIAL_N);
    assert Below([MAX_CODE_POINT], INITIAL_N) == Keep(MAX_CODE_POINT, INITIAL_N) + Below([], INITIAL_N);
    assert Below(s, INITIAL_N) == basic;
    NextExists(s, INITIAL_N);
    assert Smallest(s, INITIAL_N) == MAX_CODE_POINT;
    assert Pass(s, INITIAL_N, 0) == Err(Overflow);
    assert EncodePoints(s) == Err(Overflow);
  }
}
