/**
 The Bootstring parameters, integers and bias of RFC 3492 as punycode.js uses them.
 */
module Bootstring {
  import opened Arith
  import opened Utf16

  const BASE := 36
  const T_MIN := 1
  const T_MAX := 26
  const SKEW := 38
  const DAMP := 700
  const INITIAL_BIAS := 72
  const INITIAL_N := 128
  const DELIMITER: Unit := 0x2D
  const MAX_INT := 0x7FFF_FFFF

  datatype Error = Overflow | NotBasic | InvalidInput | InvalidCodePoint

  datatype Result<+T> = Ok(value: T) | Err(error: Error)

  // ---------------------------------------------------------------- digits

  function BasicToDigit(u: Unit): (d: nat)
    ensures d <= BASE
  {
    if 0x30 <= u < 0x3A then 26 + (u - 0x30)
    else if 0x41 <= u < 0x5B then u - 0x41
    else if 0x61 <= u < 0x7B then u - 0x61
    else BASE
  }

  function DigitToBasic(d: nat): (u: Unit)
    requires d < BASE
    ensures u < 0x80 && u != DELIMITER
    ensures BasicToDigit(u) == d
  {
    d + 22 + (if d < 26 then 75 else 0)
  }

  // A unit is a digit exactly if it is how a digit is written, letters in either case.
  lemma DigitsExact(u: Unit, e: nat)
    requires e < BASE
    ensures BasicToDigit(u) == e <==> u == DigitToBasic(e) || (e < 26 && u + 32 == DigitToBasic(e))
  {
  }

  // ---------------------------------------------------------------- bias

  // The threshold of the digit whose weight index is k / BASE.
  function Threshold(k: nat, bias: nat): (t: nat)
    ensures T_MIN <= t <= T_MAX
    ensures t < 18 ==> k < bias + 18
  {
    if k <= bias then T_MIN else if k >= bias + T_MAX then T_MAX else k - bias
  }

  // Section 3.4 of RFC 3492, after the first scaling.
  function AdaptLoop(delta: nat, k: nat): (bias: nat)
  {
    if delta > (BASE - T_MIN) * T_MAX / 2 then AdaptLoop(delta / (BASE - T_MIN), k + BASE)
    else k + Quot((BASE - T_MIN + 1) * delta, delta + SKEW)
  }

  function AdaptStart(delta: nat, numPoints: nat, firstTime: bool): nat
    requires numPoints > 0
  {
    var d := if firstTime then delta / DAMP else delta / 2;
    d + Quot(d, numPoints)
  }

  function Adapt(delta: nat, numPoints: nat, firstTime: bool): nat
    requires numPoints > 0
  {
    AdaptLoop(AdaptStart(delta, numPoints, firstTime), 0)
  }

  // No 31-bit delta pushes the bias above 198, so at most five thresholds are below 18.
  const MAX_BIAS := 198

  lemma AdaptTail(delta: nat)
    requires delta <= 455
    ensures Quot(36 * delta, delta + SKEW) <= 33
    ensures delta <= 40 ==> Quot(36 * delta, delta + SKEW) <= 18
  {
    QuotIsDiv(36 * delta, delta + SKEW);
    DivBound(34, 36 * delta, delta + SKEW);
    DivBound(19, 36 * delta, delta + SKEW);
  }

  lemma {:induction false} AdaptLoopBound(delta: nat, k: nat, rounds: nat)
    requires rounds <= 5 && k == BASE * rounds
    requires delta <= [2147483646, 61356675, 1753047, 50087, 1431, 40][rounds]
    ensures AdaptLoop(delta, k) <= MAX_BIAS
    decreases 5 - rounds
  {
    if delta > 455 {
      assert AdaptLoop(delta, k) == AdaptLoop(delta / 35, k + BASE);
      AdaptLoopBound(delta / 35, k + BASE, rounds + 1);
    } else {
      AdaptTail(delta);
    }
  }

  lemma AdaptBound(delta: nat, numPoints: nat, firstTime: bool)
    requires numPoints > 0 && delta <= MAX_INT
    ensures Adapt(delta, numPoints, firstTime) <= MAX_BIAS
  {
    var d := if firstTime then delta / DAMP else delta / 2;
    assert Quot(d, numPoints) <= d;
    AdaptLoopBound(AdaptStart(delta, numPoints, firstTime), 0, 0);
  }

  // Below twice the smaller count the second scaling adds nothing, so the count is immaterial.
  lemma AdaptIgnoresCount(delta: nat, points: nat, morePoints: nat)
    requires delta < points <= morePoints
    ensures Adapt(delta, points, false) == Adapt(delta, morePoints, false)
  {
    assert Quot(delta / 2, points) == 0 && Quot(delta / 2, morePoints) == 0;
  }

  method ComputeAdapt(delta: nat, numPoints: nat, firstTime: bool) returns (bias: nat)
    requires numPoints > 0
    ensures bias == Adapt(delta, numPoints, firstTime)
  {
    var k: nat := 0;
    var d: nat := if firstTime then delta / DAMP else delta / 2;
    QuotIsDiv(d, numPoints);
    d := d + d / numPoints;
    while d > (BASE - T_MIN) * T_MAX / 2
      invariant AdaptLoop(d, k) == Adapt(delta, numPoints, firstTime)
      decreases d
    {
      d := d / (BASE - T_MIN);
      k := k + BASE;
    }
    QuotIsDiv((BASE - T_MIN + 1) * d, d + SKEW);
    bias := k + (BASE - T_MIN + 1) * d / (d + SKEW);
  }

  // ---------------------------------------------------------------- variable-length integers

  // Section 3.3 of RFC 3492: the digits of q from weight index k on, least significant first.
  function VarInt(q: nat, k: nat, bias: nat): (s: seq<Unit>)
    ensures s != []
    decreases q
  {
    var t := Threshold(k, bias);
    if q < t then [DigitToBasic(q)]
    else
      [DigitToBasic(t + Rem(q - t, BASE - t))] + VarInt(Quot(q - t, BASE - t), k + BASE, bias)
  }

  // Every digit but the last reaches its threshold and the last does not; no unit is a delimiter.
  ghost predicate WellFormedDigits(s: seq<Unit>, k: nat, bias: nat)
  {
    forall j :: 0 <= j < |s| ==>
      && s[j] < 0x80 && s[j] != DELIMITER && BasicToDigit(s[j]) < BASE
      && (BasicToDigit(s[j]) < Threshold(k + BASE * j, bias) <==> j == |s| - 1)
  }

  lemma {:induction false} VarIntShape(q: nat, k: nat, bias: nat)
    ensures WellFormedDigits(VarInt(q, k, bias), k, bias)
    decreases q
  {
    var s := VarInt(q, k, bias);
    var t := Threshold(k, bias);
    if q >= t {
      var q' := Quot(q - t, BASE - t);
      var tail := VarInt(q', k + BASE, bias);
      VarIntShape(q', k + BASE, bias);
      ConsDigit(s[0], tail, k, bias);
      assert s == [s[0]] + tail;
    }
  }

  lemma ConsDigit(u: Unit, tail: seq<Unit>, k: nat, bias: nat)
    requires WellFormedDigits(tail, k + BASE, bias) && tail != []
    requires u < 0x80 && u != DELIMITER && Threshold(k, bias) <= BasicToDigit(u) < BASE
    ensures WellFormedDigits([u] + tail, k, bias)
  {
    var s := [u] + tail;
    forall j | 0 <= j < |s|
      ensures s[j] < 0x80 && s[j] != DELIMITER && BasicToDigit(s[j]) < BASE
      ensures BasicToDigit(s[j]) < Threshold(k + BASE * j, bias) <==> j == |s| - 1
    {
      if j > 0 {
        assert s[j] == tail[j - 1];
        assert k + BASE + BASE * (j - 1) == k + BASE * j;
      }
    }
  }

  // The decoder's inner loop, section 6.2 of RFC 3492: the rest of an integer of
  // weight w, added to i. Both updates fail on overflow.
  function DecodeInt(s: seq<Unit>, k: nat, w: nat, i: nat, bias: nat): (r: Result<(nat, seq<Unit>)>)
    requires w > 0
    ensures r.Ok? ==> i <= r.value.0 && |r.value.1| < |s|
  {
    if s == [] then Err(InvalidInput)
    else
      var digit := BasicToDigit(s[0]);
      if digit >= BASE then Err(InvalidInput)
      else
        MulMono(0, digit, w);
        var sum := i + digit * w;
        var t := Threshold(k, bias);
        if sum > MAX_INT then Err(Overflow)
        else if digit < t then Ok((sum, s[1..]))
        else
          MulMono(1, w, BASE - t);
          if w * (BASE - t) > MAX_INT then Err(Overflow)
          else DecodeInt(s[1..], k + BASE, w * (BASE - t), sum, bias)
  }

  // Weights met by a decoder whose thresholds have been below 18 so far.
  ghost predicate WeightInRange(k: nat, w: nat)
  {
    k % BASE == 0 && k >= BASE && w > 0 &&
    (k <= 180 ==> w <= [1, 35, 1225, 42875, 1500625][k / BASE - 1])
  }

  // The same split under a weight.
  lemma WeighDigit(digit: nat, rest: nat, radix: nat, w: nat)
    ensures (digit + rest * radix) * w == digit * w + rest * (w * radix)
    ensures 0 <= rest * (w * radix)
  {
    assert rest * radix * w == rest * (w * radix) by {
      assert radix * w == w * radix;
    }
    MulMono(0, w, radix);
    MulMono(0, rest, w * radix);
  }

  // The weight guard only fires on digits that are too large anyway.
  lemma WeightGuard(digit: nat, k: nat, w: nat, bias: nat)
    requires WeightInRange(k, w) && bias <= MAX_BIAS
    requires digit >= Threshold(k, bias)
    ensures w * (BASE - Threshold(k, bias)) > MAX_INT ==> digit * w > MAX_INT
    ensures WeightInRange(k + BASE, w * (BASE - Threshold(k, bias)))
  {
    var t := Threshold(k, bias);
    var radix := BASE - t;
    MulMono(1, w, radix);
    MulMono(radix, 35, w);
    if t < 18 {
      assert k <= 180;
    } else {
      MulMono(radix, digit, w);
    }
  }

  // One digit of the decoder.
  lemma DecodeDigit(u: Unit, tail: seq<Unit>, k: nat, w: nat, i: nat, bias: nat)
    requires w > 0 && Threshold(k, bias) <= BasicToDigit(u) < BASE
    ensures var digit := BasicToDigit(u);
            var w' := w * (BASE - Threshold(k, bias));
            && 0 <= digit * w && 0 < w'
            && DecodeInt([u] + tail, k, w, i, bias) ==
               if i + digit * w > MAX_INT || w' > MAX_INT then Err(Overflow)
               else DecodeInt(tail, k + BASE, w', i + digit * w, bias)
  {
    MulMono(0, BasicToDigit(u), w);
    MulMono(1, w, BASE - Threshold(k, bias));
    assert ([u] + tail)[1..] == tail;
  }

  // The decoder consumes exactly the digits of q and adds q * w, or reports
  // overflow; overflow is reported exactly when the sum leaves 31 bits.
  lemma {:induction false} DecodeVarInt(q: nat, k: nat, w: nat, i: nat, bias: nat, rest: seq<Unit>)
    requires WeightInRange(k, w) && bias <= MAX_BIAS
    ensures DecodeInt(VarInt(q, k, bias) + rest, k, w, i, bias) ==
            if i + q * w <= MAX_INT then Ok((i + q * w, rest)) else Err(Overflow)
    decreases q
  {
    if q < Threshold(k, bias) {
      DecodeLast(q, k, w, i, bias, rest);
    } else {
      var digit, q', w', x, y := SplitOff(q, k, w, bias);
      hide VarInt, DecodeInt, DigitToBasic, BasicToDigit, Threshold, Quot, Rem;
      var tail := VarInt(q', k + BASE, bias) + rest;
      assert VarInt(q, k, bias) + rest == [DigitToBasic(digit)] + tail;
      ReadDigit(digit, tail, k, w, i, bias, x, w');
      if i + x <= MAX_INT && w' <= MAX_INT {
        DecodeVarInt(q', k + BASE, w', i + x, bias, rest);
      }
    }
  }

  // The first digit and the rest of an integer, and what they weigh.
  lemma SplitOff(q: nat, k: nat, w: nat, bias: nat) returns (digit: nat, q': nat, w': nat, x: nat, y: nat)
    requires WeightInRange(k, w) && bias <= MAX_BIAS && q >= Threshold(k, bias)
    ensures q' < q && Threshold(k, bias) <= digit < BASE && WeightInRange(k + BASE, w')
    ensures x == digit * w && w' == w * (BASE - Threshold(k, bias)) && y == q' * w' && q * w == x + y
    ensures w' > MAX_INT ==> x > MAX_INT
    ensures VarInt(q, k, bias) == [DigitToBasic(digit)] + VarInt(q', k + BASE, bias)
  {
    digit, q' := SplitDigit(q, k, bias);
    hide VarInt, Threshold, WeightInRange;
    var radix := BASE - Threshold(k, bias);
    WeightGuard(digit, k, w, bias);
    x, w', y := Weigh(q, digit, q', radix, w);
  }

  lemma SplitDigit(q: nat, k: nat, bias: nat) returns (digit: nat, q': nat)
    requires q >= Threshold(k, bias)
    ensures q' < q && Threshold(k, bias) <= digit < BASE && q == digit + q' * (BASE - Threshold(k, bias))
    ensures VarInt(q, k, bias) == [DigitToBasic(digit)] + VarInt(q', k + BASE, bias)
  {
    var t := Threshold(k, bias);
    digit, q' := t + Rem(q - t, BASE - t), Quot(q - t, BASE - t);
    QuotRem(q - t, BASE - t);
  }

  lemma Weigh(q: nat, digit: nat, q': nat, radix: nat, w: nat) returns (x: nat, w': nat, y: nat)
    requires q == digit + q' * radix
    ensures x == digit * w && w' == w * radix && y == q' * w' && q * w == x + y
  {
    WeighDigit(digit, q', radix, w);
    MulMono(0, digit, w);
    MulMono(0, w, radix);
    x, w', y := digit * w, w * radix, q' * (w * radix);
  }

  lemma ReadDigit(digit: nat, tail: seq<Unit>, k: nat, w: nat, i: nat, bias: nat, x: nat, w': nat)
    requires w > 0 && Threshold(k, bias) <= digit < BASE
    requires x == digit * w && w' == w * (BASE - Threshold(k, bias)) && w' > 0
    ensures DecodeInt([DigitToBasic(digit)] + tail, k, w, i, bias) ==
            if i + x > MAX_INT || w' > MAX_INT then Err(Overflow) else DecodeInt(tail, k + BASE, w', i + x, bias)
  {
    hide DecodeInt, Threshold;
    DecodeDigit(DigitToBasic(digit), tail, k, w, i, bias);
  }

  // The last digit is below its threshold.
  lemma DecodeLast(q: nat, k: nat, w: nat, i: nat, bias: nat, rest: seq<Unit>)
    requires w > 0 && q < Threshold(k, bias)
    ensures DecodeInt(VarInt(q, k, bias) + rest, k, w, i, bias) ==
            if i + q * w <= MAX_INT then Ok((i + q * w, rest)) else Err(Overflow)
  {
    assert (VarInt(q, k, bias) + rest)[1..] == rest;
  }
}
