/**
 The parameters of Punycode from outside: the bias as a formula, the digits as a table, and
 sample strings of section 7.1 of RFC 3492.
 */
module PunycodeSamples {
  import opened Arith
  import opened Utf16
  import opened Bootstring
  import opened PunycodeSpec
  import PunycodeLaws

  // ---------------------------------------------------------------- the bias

  function Power(i: nat): (p: nat)
    ensures p > 0
  {
    if i == 0 then 1 else 35 * Power(i - 1)
  }

  lemma DivTwice(a: nat, p: nat)
    requires p > 0
    ensures 35 * p > 0 && a / 35 / p == a / (35 * p)
  {
    var x, y := a / 35 / p, a / (35 * p);
    DivBound(x, a / 35, p);
    DivBound(x * p, a, 35);
    DivBound(x, a, 35 * p);
    DivBound(y, a, 35 * p);
    DivBound(y * p, a, 35);
    DivBound(y, a / 35, p);
    assert x * p * 35 == x * (35 * p) && y * p * 35 == y * (35 * p);
  }

  // e after i divisions by 35.
  function Down(e: nat, i: nat): nat { if i == 0 then e else Down(e / 35, i - 1) }

  // That is one division by the power.
  lemma {:induction false} DownAtOnce(e: nat, i: nat)
    ensures Down(e, i) == e / Power(i)
  {
    if i > 0 {
      DownAtOnce(e / 35, i - 1);
      DivTwice(e, Power(i - 1));
    }
  }

  // i divisions bring e down to at most 455, and fewer do not.
  predicate Rounds(e: nat, i: nat) { Down(e, i) <= 455 && (i > 0 ==> Down(e, i - 1) > 455) }

  function Skewed(d: nat): nat { 36 * d / (d + 38) }

  // The bias that e gives after i divisions.
  function BiasAfter(e: nat, i: nat): nat { 36 * i + Skewed(Down(e, i)) }

  lemma LoopRound(e: nat, k: nat)
    ensures e <= 455 ==> AdaptLoop(e, k) == k + Skewed(e)
    ensures e > 455 ==> AdaptLoop(e, k) == AdaptLoop(e / 35, k + 36)
  {
    if e <= 455 { QuotIsDiv(36 * e, e + SKEW); }
  }

  lemma {:induction false} LoopFormula(e: nat, k: nat) returns (i: nat)
    ensures Rounds(e, i) && AdaptLoop(e, k) == k + BiasAfter(e, i)
    decreases e
  {
    hide AdaptLoop, Skewed;
    LoopRound(e, k);
    if e <= 455 {
      i := 0;
    } else {
      var j := LoopFormula(e / 35, k + 36);
      i := j + 1;
    }
  }

  // The first delta divided by 700 and later ones by 2, then increased by the share of one
  // code point.
  function Scaled(delta: nat, points: nat, firstTime: bool): nat
    requires points > 0
  {
    var d := if firstTime then delta / 700 else delta / 2;
    d + d / points
  }

  lemma StartScaled(delta: nat, points: nat, firstTime: bool)
    requires points > 0
    ensures AdaptStart(delta, points, firstTime) == Scaled(delta, points, firstTime)
  {
    QuotIsDiv(if firstTime then delta / 700 else delta / 2, points);
  }

  // Section 6.1 of RFC 3492: the delta is scaled and then divided by 35 until it is at most
  // 455; the bias counts the divisions and what is left.
  lemma AdaptFormula(delta: nat, points: nat, firstTime: bool)
    requires points > 0
    ensures exists i: nat ::
      Rounds(Scaled(delta, points, firstTime), i) && Adapt(delta, points, firstTime) == BiasAfter(Scaled(delta, points, firstTime), i)
  {
    hide AdaptLoop, AdaptStart, Scaled, Rounds, BiasAfter;
    StartScaled(delta, points, firstTime);
    var i := LoopFormula(Scaled(delta, points, firstTime), 0);
    assert Adapt(delta, points, firstTime) == BiasAfter(Scaled(delta, points, firstTime), i);
  }

  // ---------------------------------------------------------------- digits and thresholds

  // Letters of either case are 0 to 25, decimal digits 26 to 35; digits are written in
  // lower case.
  lemma DigitTable(i: nat)
    ensures i < 26 ==> BasicToDigit('a' as int + i) == i && BasicToDigit('A' as int + i) == i && DigitToBasic(i) == 'a' as int + i
    ensures i < 10 ==> BasicToDigit('0' as int + i) == 26 + i && DigitToBasic(26 + i) == '0' as int + i
  { }

  // The threshold is the distance to the bias, between 1 and 26.
  lemma ThresholdFormula(k: nat, bias: nat)
    ensures Threshold(k, bias) == if k - bias < 1 then 1 else if k - bias > 26 then 26 else k - bias
  { }

  // A pair of surrogates.
  lemma SurrogateSample()
    ensures ToCodePoints([0xD83D, 0xDE00]) == [0x1F600]
  {
    assert [0xD83D, 0xDE00][2..] == [];
    assert ToCodePoints([]) == [];
  }

  // ---------------------------------------------------------------- encoding by hand

  // Positions whose code point is not n only count the smaller ones.
  lemma {:induction false} ScanOver(s: seq<CodePoint>, n: nat, i: nat, j: nat, delta: nat)
    requires i <= j <= |s| && n <= MAX_CODE_POINT && (forall x :: i <= x < j ==> s[x] != n) && delta + (j - i) <= MAX_INT
    ensures Scan(s, n, i, delta) == Scan(s, n, j, delta + |Below(s[i..j], n)|)
    decreases j - i
  {
    if i == j {
      assert s[i..j] == [];
    } else {
      assert s[i..j] == [s[i]] + s[i + 1..j];
      assert s[i..j][1..] == s[i + 1..j];
      ScanOver(s, n, i + 1, j, if s[i] < n then delta + 1 else delta);
    }
  }

  // The code point m stands only at j, and no other one lies between n and m.
  predicate OnlyAt(s: seq<CodePoint>, n: nat, m: nat, j: nat)
  {
    j < |s| && s[j] == m && n <= m && forall x :: 0 <= x < |s| && x != j ==> s[x] < n || s[x] > m
  }

  // The pass for it, with c smaller code points before it and the others after.
  lemma ScanPoint(s: seq<CodePoint>, n: nat, m: nat, j: nat, d: nat, c: nat, after: nat)
    requires OnlyAt(s, n, m, j) && |Below(s, n)| == c + after && c == |Below(s[..j], m)| && d + |s| <= MAX_INT
    ensures Scan(s, m, 0, d) == Cons(d + c, Pass(s, m + 1, after + 1))
  {
    hide Pass, Scan, Below;
    ScanOver(s, m, 0, j, d);
    assert s[0..j] == s[..j];
    ScanAt(s, m, j, d + c);
    ScanOver(s, m, j + 1, |s|, 0);
    assert s[j + 1..|s|] == s[j + 1..];
    CountRest(s, n, m, j);
    ScanEnds(s, m, after);
  }

  lemma PassPoint(s: seq<CodePoint>, n: nat, delta: nat, m: nat, j: nat, h: nat, c: nat, after: nat, d: nat)
    requires OnlyAt(s, n, m, j) && |Below(s, n)| == h == c + after && c == |Below(s[..j], m)|
    requires d == delta + (m - n) * (h + 1) && d + |s| <= MAX_INT
    ensures Pass(s, n, delta) == Cons(d + c, Pass(s, m + 1, after + 1))
  {
    Unique(s, n, m, j);
    BelowAll(s, n);
    assert s[j] in s;
    hide Pass, Scan, Below, Smallest, OnlyAt;
    PassUnfolds(s, n, delta, m, h, d);
    ScanPoint(s, n, m, j, d, c, after);
  }

  lemma Unique(s: seq<CodePoint>, n: nat, m: nat, j: nat)
    requires OnlyAt(s, n, m, j)
    ensures Smallest(s, n) == m
  {
    assert s[j] in s;
  }

  lemma PassUnfolds(s: seq<CodePoint>, n: nat, delta: nat, m: nat, h: nat, d: nat)
    requires h == |Below(s, n)| < |s| && m == Smallest(s, n) && n <= m <= MAX_CODE_POINT && d == delta + (m - n) * (h + 1) && d <= MAX_INT
    ensures Pass(s, n, delta) == Scan(s, m, 0, d)
  {
    hide Below, Smallest, Scan;
  }

  lemma ScanAt(s: seq<CodePoint>, n: nat, j: nat, delta: nat)
    requires j < |s| && n <= MAX_CODE_POINT && s[j] == n
    ensures Scan(s, n, j, delta) == Cons(delta, Scan(s, n, j + 1, 0))
  { }

  lemma ScanEnds(s: seq<CodePoint>, n: nat, delta: nat)
    requires n <= MAX_CODE_POINT
    ensures Scan(s, n, |s|, delta) == Pass(s, n + 1, delta + 1)
  {
    hide Pass;
  }

  // The smaller code points stand before j or after it.
  lemma CountRest(s: seq<CodePoint>, n: nat, m: nat, j: nat)
    requires OnlyAt(s, n, m, j)
    ensures |Below(s, n)| == |Below(s[..j], m)| + |Below(s[j + 1..], m)|
  {
    hide Below;
    BelowGap(s, n, m);
    assert s == s[..j] + ([m] + s[j + 1..]);
    BelowConcat(s[..j], [m] + s[j + 1..], m);
    BelowConcat([m], s[j + 1..], m);
    NotBelow(m);
  }

  lemma NotBelow(m: nat)
    requires m <= MAX_CODE_POINT
    ensures Below([m], m) == []
  {
    assert [m][1..] == [];
  }

  // ---------------------------------------------------------------- digits by hand

  lemma VarIntMore(q: nat, k: nat, bias: nat, t: nat, quot: nat, rem: nat)
    requires t == Threshold(k, bias) && q == t + quot * (36 - t) + rem && rem < 36 - t
    ensures VarInt(q, k, bias) == [DigitToBasic(t + rem)] + VarInt(quot, k + 36, bias)
  {
    MulMono(0, quot, 36 - t);
    QuotUnique(q - t, 36 - t, quot, rem);
  }

  lemma VarIntLast(q: nat, k: nat, bias: nat)
    requires q < Threshold(k, bias)
    ensures VarInt(q, k, bias) == [DigitToBasic(q)]
  { }

  lemma StartIs(delta: nat, points: nat, firstTime: bool, d: nat, e: nat)
    requires points > 0 && d == (if firstTime then delta / 700 else delta / 2) && e == d + d / points
    ensures AdaptStart(delta, points, firstTime) == e
  {
    QuotIsDiv(d, points);
  }

  lemma LoopEnds(e: nat, k: nat)
    requires e <= 455
    ensures AdaptLoop(e, k) == k + 36 * e / (e + 38)
  {
    QuotIsDiv(36 * e, e + 38);
  }

  lemma LoopGoes(e: nat, f: nat, k: nat)
    requires e > 455 && f == e / 35
    ensures AdaptLoop(e, k) == AdaptLoop(f, k + 36)
  { }

  // The bias for e, with no division, one, or two.
  lemma AdaptSmall(delta: nat, points: nat, firstTime: bool, d: nat, e: nat, b: nat)
    requires points > 0 && d == (if firstTime then delta / 700 else delta / 2) && e == d + d / points
    requires e <= 455 && b == 36 * e / (e + 38)
    ensures Adapt(delta, points, firstTime) == b
  {
    hide AdaptLoop, AdaptStart;
    StartIs(delta, points, firstTime, d, e);
    LoopEnds(e, 0);
  }

  lemma AdaptOnce(delta: nat, points: nat, firstTime: bool, d: nat, e: nat, f: nat, b: nat)
    requires points > 0 && d == (if firstTime then delta / 700 else delta / 2) && e == d + d / points
    requires 455 < e && f == e / 35 && f <= 455 && b == 36 + 36 * f / (f + 38)
    ensures Adapt(delta, points, firstTime) == b
  {
    hide AdaptLoop, AdaptStart;
    StartIs(delta, points, firstTime, d, e);
    LoopGoes(e, f, 0);
    LoopEnds(f, 36);
  }

  lemma AdaptTwice(delta: nat, points: nat, firstTime: bool, d: nat, e: nat, f: nat, g: nat, b: nat)
    requires points > 0 && d == (if firstTime then delta / 700 else delta / 2) && e == d + d / points
    requires 455 < e && f == e / 35 && 455 < f && g == f / 35 && g <= 455 && b == 72 + 36 * g / (g + 38)
    ensures Adapt(delta, points, firstTime) == b
  {
    hide AdaptLoop, AdaptStart;
    StartIs(delta, points, firstTime, d, e);
    LoopGoes(e, f, 0);
    LoopGoes(f, g, 36);
    LoopEnds(g, 72);
  }

  lemma WriteMore(deltas: seq<nat>, bias: nat, points: nat, firstTime: bool, digits: seq<Unit>, b: nat)
    requires |deltas| > 0 && points > 0 && VarInt(deltas[0], BASE, bias) == digits && Adapt(deltas[0], points, firstTime) == b
    ensures Write(deltas, bias, points, firstTime) == digits + Write(deltas[1..], b, points + 1, false)
  {
    hide VarInt, Adapt;
  }

  // ---------------------------------------------------------------- sample (R)

  // <sono><supiido><de>
  const POINTS_R: seq<CodePoint> := [0x305D, 0x306E, 0x30B9, 0x30D4, 0x30FC, 0x30C9, 0x3067]

  lemma CountR0()
    ensures |Below(POINTS_R[..0], 0x305D)| == 0 && |Below(POINTS_R, 0x80)| == 0
  {
    assert POINTS_R[..0] == [];
    assert |Below([], 0x305D)| == 0 && |Below([0x305D, 0x306E, 0x30B9, 0x30D4, 0x30FC, 0x30C9, 0x3067], 0x80)| == 0;
  }

  lemma PassR0()
    ensures Pass(POINTS_R, 0x80, 0) == Ok([12253, 20, 20, 300, 80, 65, 280])
  {
    hide Pass, Below;
    PassR1();
    CountR0();
    PassPoint(POINTS_R, 0x80, 0, 0x305D, 0, 0, 0, 0, 12253);
    assert [12253] + [20, 20, 300, 80, 65, 280] == [12253, 20, 20, 300, 80, 65, 280];
  }

  lemma CountR1()
    ensures |Below(POINTS_R[..6], 0x3067)| == 1 && |Below(POINTS_R, 0x305E)| == 1
  {
    assert POINTS_R[..6] == [0x305D, 0x306E, 0x30B9, 0x30D4, 0x30FC, 0x30C9];
    assert |Below([0x305D, 0x306E, 0x30B9, 0x30D4, 0x30FC, 0x30C9], 0x3067)| == 1 && |Below([0x305D, 0x306E, 0x30B9, 0x30D4, 0x30FC, 0x30C9, 0x3067], 0x305E)| == 1;
  }

  lemma PassR1()
    ensures Pass(POINTS_R, 0x305E, 1) == Ok([20, 20, 300, 80, 65, 280])
  {
    hide Pass, Below;
    PassR2();
    CountR1();
    PassPoint(POINTS_R, 0x305E, 1, 0x3067, 6, 1, 1, 0, 19);
    assert [20] + [20, 300, 80, 65, 280] == [20, 20, 300, 80, 65, 280];
  }

  lemma CountR2()
    ensures |Below(POINTS_R[..1], 0x306E)| == 1 && |Below(POINTS_R, 0x3068)| == 2
  {
    assert POINTS_R[..1] == [0x305D];
    assert |Below([0x305D], 0x306E)| == 1 && |Below([0x305D, 0x306E, 0x30B9, 0x30D4, 0x30FC, 0x30C9, 0x3067], 0x3068)| == 2;
  }

  lemma PassR2()
    ensures Pass(POINTS_R, 0x3068, 1) == Ok([20, 300, 80, 65, 280])
  {
    hide Pass, Below;
    PassR3();
    CountR2();
    PassPoint(POINTS_R, 0x3068, 1, 0x306E, 1, 2, 1, 1, 19);
    assert [20] + [300, 80, 65, 280] == [20, 300, 80, 65, 280];
  }

  lemma CountR3()
    ensures |Below(POINTS_R[..2], 0x30B9)| == 2 && |Below(POINTS_R, 0x306F)| == 3
  {
    assert POINTS_R[..2] == [0x305D, 0x306E];
    assert |Below([0x305D, 0x306E], 0x30B9)| == 2 && |Below([0x305D, 0x306E, 0x30B9, 0x30D4, 0x30FC, 0x30C9, 0x3067], 0x306F)| == 3;
  }

  lemma PassR3()
    ensures Pass(POINTS_R, 0x306F, 2) == Ok([300, 80, 65, 280])
  {
    hide Pass, Below;
    PassR4();
    CountR3();
    PassPoint(POINTS_R, 0x306F, 2, 0x30B9, 2, 3, 2, 1, 298);
    assert [300] + [80, 65, 280] == [300, 80, 65, 280];
  }

  lemma CountR4()
    ensures |Below(POINTS_R[..5], 0x30C9)| == 3 && |Below(POINTS_R, 0x30BA)| == 4
  {
    assert POINTS_R[..5] == [0x305D, 0x306E, 0x30B9, 0x30D4, 0x30FC];
    assert |Below([0x305D, 0x306E, 0x30B9, 0x30D4, 0x30FC], 0x30C9)| == 3 && |Below([0x305D, 0x306E, 0x30B9, 0x30D4, 0x30FC, 0x30C9, 0x3067], 0x30BA)| == 4;
  }

  lemma PassR4()
    ensures Pass(POINTS_R, 0x30BA, 2) == Ok([80, 65, 280])
  {
    hide Pass, Below;
    PassR5();
    CountR4();
    PassPoint(POINTS_R, 0x30BA, 2, 0x30C9, 5, 4, 3, 1, 77);
    assert [80] + [65, 280] == [80, 65, 280];
  }

  lemma CountR5()
    ensures |Below(POINTS_R[..3], 0x30D4)| == 3 && |Below(POINTS_R, 0x30CA)| == 5
  {
    assert POINTS_R[..3] == [0x305D, 0x306E, 0x30B9];
    assert |Below([0x305D, 0x306E, 0x30B9], 0x30D4)| == 3 && |Below([0x305D, 0x306E, 0x30B9, 0x30D4, 0x30FC, 0x30C9, 0x3067], 0x30CA)| == 5;
  }

  lemma PassR5()
    ensures Pass(POINTS_R, 0x30CA, 2) == Ok([65, 280])
  {
    hide Pass, Below;
    PassR6();
    CountR5();
    PassPoint(POINTS_R, 0x30CA, 2, 0x30D4, 3, 5, 3, 2, 62);
    assert [65] + [280] == [65, 280];
  }

  lemma CountR6()
    ensures |Below(POINTS_R[..4], 0x30FC)| == 4 && |Below(POINTS_R, 0x30D5)| == 6
  {
    assert POINTS_R[..4] == [0x305D, 0x306E, 0x30B9, 0x30D4];
    assert |Below([0x305D, 0x306E, 0x30B9, 0x30D4], 0x30FC)| == 4 && |Below([0x305D, 0x306E, 0x30B9, 0x30D4, 0x30FC, 0x30C9, 0x3067], 0x30D5)| == 6;
  }

  lemma PassR6()
    ensures Pass(POINTS_R, 0x30D5, 3) == Ok([280])
  {
    hide Pass, Below;
    PassOver(POINTS_R, 0x30FD, 3);
    CountR6();
    PassPoint(POINTS_R, 0x30D5, 3, 0x30FC, 4, 6, 4, 2, 276);
    assert [280] + [] == [280];
  }

  lemma WriteR0()
    ensures Write([12253, 20, 20, 300, 80, 65, 280], 72, 1, true) == [100, 57, 106, 117, 97, 117, 52, 49, 97, 119, 99, 122, 99, 122, 112]
  {
    hide Write, VarInt, Adapt;
    VarIntMore(12253, 36, 72, 1, 350, 2);
    VarIntMore(350, 72, 72, 1, 9, 34);
    VarIntLast(9, 108, 72);
    AdaptSmall(12253, 1, true, 17, 34, 17);
    WriteR1();
    WriteMore([12253, 20, 20, 300, 80, 65, 280], 72, 1, true, [100, 57, 106], 17);
    assert [12253, 20, 20, 300, 80, 65, 280][1..] == [20, 20, 300, 80, 65, 280];
  }

  lemma WriteR1()
    ensures Write([20, 20, 300, 80, 65, 280], 17, 2, false) == [117, 97, 117, 52, 49, 97, 119, 99, 122, 99, 122, 112]
  {
    hide Write, VarInt, Adapt;
    VarIntMore(20, 36, 17, 19, 0, 1);
    VarIntLast(0, 72, 17);
    AdaptSmall(20, 2, false, 10, 15, 10);
    WriteR2();
    WriteMore([20, 20, 300, 80, 65, 280], 17, 2, false, [117, 97], 10);
    assert [20, 20, 300, 80, 65, 280][1..] == [20, 300, 80, 65, 280];
  }

  lemma WriteR2()
    ensures Write([20, 300, 80, 65, 280], 10, 3, false) == [117, 52, 49, 97, 119, 99, 122, 99, 122, 112]
  {
    hide Write, VarInt, Adapt;
    VarIntLast(20, 36, 10);
    AdaptSmall(20, 3, false, 10, 13, 9);
    WriteR3();
    WriteMore([20, 300, 80, 65, 280], 10, 3, false, [117], 9);
    assert [20, 300, 80, 65, 280][1..] == [300, 80, 65, 280];
  }

  lemma WriteR3()
    ensures Write([300, 80, 65, 280], 9, 4, false) == [52, 49, 97, 119, 99, 122, 99, 122, 112]
  {
    hide Write, VarInt, Adapt;
    VarIntMore(300, 36, 9, 26, 27, 4);
    VarIntMore(27, 72, 9, 26, 0, 1);
    VarIntLast(0, 108, 9);
    AdaptSmall(300, 4, false, 150, 187, 29);
    WriteR4();
    WriteMore([300, 80, 65, 280], 9, 4, false, [52, 49, 97], 29);
    assert [300, 80, 65, 280][1..] == [80, 65, 280];
  }

  lemma WriteR4()
    ensures Write([80, 65, 280], 29, 5, false) == [119, 99, 122, 99, 122, 112]
  {
    hide Write, VarInt, Adapt;
    VarIntMore(80, 36, 29, 7, 2, 15);
    VarIntLast(2, 72, 29);
    AdaptSmall(80, 5, false, 40, 48, 20);
    WriteR5();
    WriteMore([80, 65, 280], 29, 5, false, [119, 99], 20);
    assert [80, 65, 280][1..] == [65, 280];
  }

  lemma WriteR5()
    ensures Write([65, 280], 20, 6, false) == [122, 99, 122, 112]
  {
    hide Write, VarInt, Adapt;
    VarIntMore(65, 36, 20, 16, 2, 9);
    VarIntLast(2, 72, 20);
    AdaptSmall(65, 6, false, 32, 37, 17);
    WriteR6();
    WriteMore([65, 280], 20, 6, false, [122, 99], 17);
    assert [65, 280][1..] == [280];
  }

  lemma WriteR6()
    ensures Write([280], 17, 7, false) == [122, 112]
  {
    hide Write, VarInt, Adapt;
    VarIntMore(280, 36, 17, 19, 15, 6);
    VarIntLast(15, 72, 17);
    AdaptSmall(280, 7, false, 140, 160, 29);
    NothingWritten(29, 8);
    WriteMore([280], 17, 7, false, [122, 112], 29);
    assert [280][1..] == [];
  }

  const UNITS_R: seq<Unit> := [100, 57, 106, 117, 97, 117, 52, 49, 97, 119, 99, 122, 99, 122, 112]

  lemma SampleR()
    ensures EncodePoints(POINTS_R) == Ok(UNITS_R) && DecodePoints(UNITS_R) == Ok(POINTS_R)
  {
    hide Pass, Write, DecodePoints, BasicPart, Below;
    PassR0();
    WriteR0();
    BasicR();
    assert [] + [100, 57, 106, 117, 97, 117, 52, 49, 97, 119, 99, 122, 99, 122, 112] == UNITS_R;
    PunycodeLaws.PointsRecover(POINTS_R);
  }

  lemma TextR()
    ensures UNITS_R == Units("d9juau41awczczp")
  { }

  lemma BasicR()
    ensures BasicPart(POINTS_R) == [] && |Below(POINTS_R, INITIAL_N)| == 0
  {
    assert Below([0x305D, 0x306E, 0x30B9, 0x30D4, 0x30FC, 0x30C9, 0x3067], 128) == [];
  }

  // ---------------------------------------------------------------- sample (L)

  // 3<nen>B<gumi><kinpachi><sensei>
  const POINTS_L: seq<CodePoint> := [0x33, 0x5E74, 0x42, 0x7D44, 0x91D1, 0x516B, 0x5148, 0x751F]

  lemma CountL0()
    ensures |Below(POINTS_L[..6], 0x5148)| == 2 && |Below(POINTS_L, 0x80)| == 2
  {
    assert POINTS_L[..6] == [0x33, 0x5E74, 0x42, 0x7D44, 0x91D1, 0x516B];
    assert |Below([0x33, 0x5E74, 0x42, 0x7D44, 0x91D1, 0x516B], 0x5148)| == 2 && |Below([0x33, 0x5E74, 0x42, 0x7D44, 0x91D1, 0x516B, 0x5148, 0x751F], 0x80)| == 2;
  }

  lemma PassL0()
    ensures Pass(POINTS_L, 0x80, 0) == Ok([62042, 139, 16683, 34821, 14592, 42088])
  {
    hide Pass, Below;
    PassL1();
    CountL0();
    PassPoint(POINTS_L, 0x80, 0, 0x5148, 6, 2, 2, 0, 62040);
    assert [62042] + [139, 16683, 34821, 14592, 42088] == [62042, 139, 16683, 34821, 14592, 42088];
  }

  lemma CountL1()
    ensures |Below(POINTS_L[..5], 0x516B)| == 2 && |Below(POINTS_L, 0x5149)| == 3
  {
    assert POINTS_L[..5] == [0x33, 0x5E74, 0x42, 0x7D44, 0x91D1];
    assert |Below([0x33, 0x5E74, 0x42, 0x7D44, 0x91D1], 0x516B)| == 2 && |Below([0x33, 0x5E74, 0x42, 0x7D44, 0x91D1, 0x516B, 0x5148, 0x751F], 0x5149)| == 3;
  }

  lemma PassL1()
    ensures Pass(POINTS_L, 0x5149, 1) == Ok([139, 16683, 34821, 14592, 42088])
  {
    hide Pass, Below;
    PassL2();
    CountL1();
    PassPoint(POINTS_L, 0x5149, 1, 0x516B, 5, 3, 2, 1, 137);
    assert [139] + [16683, 34821, 14592, 42088] == [139, 16683, 34821, 14592, 42088];
  }

  lemma CountL2()
    ensures |Below(POINTS_L[..1], 0x5E74)| == 1 && |Below(POINTS_L, 0x516C)| == 4
  {
    assert POINTS_L[..1] == [0x33];
    assert |Below([0x33], 0x5E74)| == 1 && |Below([0x33, 0x5E74, 0x42, 0x7D44, 0x91D1, 0x516B, 0x5148, 0x751F], 0x516C)| == 4;
  }

  lemma PassL2()
    ensures Pass(POINTS_L, 0x516C, 2) == Ok([16683, 34821, 14592, 42088])
  {
    hide Pass, Below;
    PassL3();
    CountL2();
    PassPoint(POINTS_L, 0x516C, 2, 0x5E74, 1, 4, 1, 3, 16682);
    assert [16683] + [34821, 14592, 42088] == [16683, 34821, 14592, 42088];
  }

  lemma CountL3()
    ensures |Below(POINTS_L[..7], 0x751F)| == 5 && |Below(POINTS_L, 0x5E75)| == 5
  {
    assert POINTS_L[..7] == [0x33, 0x5E74, 0x42, 0x7D44, 0x91D1, 0x516B, 0x5148];
    assert |Below([0x33, 0x5E74, 0x42, 0x7D44, 0x91D1, 0x516B, 0x5148], 0x751F)| == 5 && |Below([0x33, 0x5E74, 0x42, 0x7D44, 0x91D1, 0x516B, 0x5148, 0x751F], 0x5E75)| == 5;
  }

  lemma PassL3()
    ensures Pass(POINTS_L, 0x5E75, 4) == Ok([34821, 14592, 42088])
  {
    hide Pass, Below;
    PassL4();
    CountL3();
    PassPoint(POINTS_L, 0x5E75, 4, 0x751F, 7, 5, 5, 0, 34816);
    assert [34821] + [14592, 42088] == [34821, 14592, 42088];
  }

  lemma CountL4()
    ensures |Below(POINTS_L[..3], 0x7D44)| == 3 && |Below(POINTS_L, 0x7520)| == 6
  {
    assert POINTS_L[..3] == [0x33, 0x5E74, 0x42];
    assert |Below([0x33, 0x5E74, 0x42], 0x7D44)| == 3 && |Below([0x33, 0x5E74, 0x42, 0x7D44, 0x91D1, 0x516B, 0x5148, 0x751F], 0x7520)| == 6;
  }

  lemma PassL4()
    ensures Pass(POINTS_L, 0x7520, 1) == Ok([14592, 42088])
  {
    hide Pass, Below;
    PassL5();
    CountL4();
    PassPoint(POINTS_L, 0x7520, 1, 0x7D44, 3, 6, 3, 3, 14589);
    assert [14592] + [42088] == [14592, 42088];
  }

  lemma CountL5()
    ensures |Below(POINTS_L[..4], 0x91D1)| == 4 && |Below(POINTS_L, 0x7D45)| == 7
  {
    assert POINTS_L[..4] == [0x33, 0x5E74, 0x42, 0x7D44];
    assert |Below([0x33, 0x5E74, 0x42, 0x7D44], 0x91D1)| == 4 && |Below([0x33, 0x5E74, 0x42, 0x7D44, 0x91D1, 0x516B, 0x5148, 0x751F], 0x7D45)| == 7;
  }

  lemma PassL5()
    ensures Pass(POINTS_L, 0x7D45, 4) == Ok([42088])
  {
    hide Pass, Below;
    PassOver(POINTS_L, 0x91D2, 4);
    CountL5();
    PassPoint(POINTS_L, 0x7D45, 4, 0x91D1, 4, 7, 4, 3, 42084);
    assert [42088] + [] == [42088];
  }

  lemma WriteL0()
    ensures Write([62042, 139, 16683, 34821, 14592, 42088], 72, 3, true) == [119, 119, 52, 99, 53, 101, 49, 56, 48, 101, 53, 55, 53, 97, 54, 53, 108, 115, 121, 50, 98]
  {
    hide *;
    DigitsL0();
    WriteL1();
    WriteMore([62042, 139, 16683, 34821, 14592, 42088], 72, 3, true, [119, 119, 52, 99], 27);
    assert [62042, 139, 16683, 34821, 14592, 42088][1..] == [139, 16683, 34821, 14592, 42088];
  }

  lemma DigitsL0()
    ensures VarInt(62042, BASE, 72) == [119, 119, 52, 99] && Adapt(62042, 3, true) == 27
  {
    hide VarInt, Adapt;
    VarIntMore(62042, 36, 72, 1, 1772, 21);
    VarIntMore(1772, 72, 72, 1, 50, 21);
    VarIntMore(50, 108, 72, 26, 2, 4);
    VarIntLast(2, 144, 72);
    AdaptSmall(62042, 3, true, 88, 117, 27);
  }

  lemma WriteL1()
    ensures Write([139, 16683, 34821, 14592, 42088], 27, 4, false) == [53, 101, 49, 56, 48, 101, 53, 55, 53, 97, 54, 53, 108, 115, 121, 50, 98]
  {
    hide Write, VarInt, Adapt;
    VarIntMore(139, 36, 27, 9, 4, 22);
    VarIntLast(4, 72, 27);
    AdaptSmall(139, 4, false, 69, 86, 24);
    WriteL2();
    WriteMore([139, 16683, 34821, 14592, 42088], 27, 4, false, [53, 101], 24);
    assert [139, 16683, 34821, 14592, 42088][1..] == [16683, 34821, 14592, 42088];
  }

  lemma WriteL2()
    ensures Write([16683, 34821, 14592, 42088], 24, 5, false) == [49, 56, 48, 101, 53, 55, 53, 97, 54, 53, 108, 115, 121, 50, 98]
  {
    hide Write, VarInt, Adapt;
    VarIntMore(16683, 36, 24, 12, 694, 15);
    VarIntMore(694, 72, 24, 26, 66, 8);
    VarIntMore(66, 108, 24, 26, 4, 0);
    VarIntLast(4, 144, 24);
    AdaptOnce(16683, 5, false, 8341, 10009, 285, 67);
    WriteL3();
    WriteMore([16683, 34821, 14592, 42088], 24, 5, false, [49, 56, 48, 101], 67);
    assert [16683, 34821, 14592, 42088][1..] == [34821, 14592, 42088];
  }

  lemma WriteL3()
    ensures Write([34821, 14592, 42088], 67, 6, false) == [53, 55, 53, 97, 54, 53, 108, 115, 121, 50, 98]
  {
    hide Write, VarInt, Adapt;
    VarIntMore(34821, 36, 67, 1, 994, 30);
    VarIntMore(994, 72, 67, 5, 31, 28);
    VarIntMore(31, 108, 67, 26, 0, 5);
    VarIntLast(0, 144, 67);
    AdaptTwice(34821, 6, false, 17410, 20311, 580, 16, 82);
    WriteL4();
    WriteMore([34821, 14592, 42088], 67, 6, false, [53, 55, 53, 97], 82);
    assert [34821, 14592, 42088][1..] == [14592, 42088];
  }

  lemma WriteL4()
    ensures Write([14592, 42088], 82, 7, false) == [54, 53, 108, 115, 121, 50, 98]
  {
    hide Write, VarInt, Adapt;
    VarIntMore(14592, 36, 82, 1, 416, 31);
    VarIntMore(416, 72, 82, 1, 11, 30);
    VarIntLast(11, 108, 82);
    AdaptOnce(14592, 7, false, 7296, 8338, 238, 67);
    WriteL5();
    WriteMore([14592, 42088], 82, 7, false, [54, 53, 108], 67);
    assert [14592, 42088][1..] == [42088];
  }

  lemma WriteL5()
    ensures Write([42088], 67, 8, false) == [115, 121, 50, 98]
  {
    hide Write, VarInt, Adapt;
    VarIntMore(42088, 36, 67, 1, 1202, 17);
    VarIntMore(1202, 72, 67, 5, 38, 19);
    VarIntMore(38, 108, 67, 26, 1, 2);
    VarIntLast(1, 144, 67);
    AdaptTwice(42088, 8, false, 21044, 23674, 676, 19, 84);
    NothingWritten(84, 9);
    WriteMore([42088], 67, 8, false, [115, 121, 50, 98], 84);
    assert [42088][1..] == [];
  }

  const UNITS_L: seq<Unit> := [51, 66, 45, 119, 119, 52, 99, 53, 101, 49, 56, 48, 101, 53, 55, 53, 97, 54, 53, 108, 115, 121, 50, 98]

  lemma SampleL()
    ensures EncodePoints(POINTS_L) == Ok(UNITS_L) && DecodePoints(UNITS_L) == Ok(POINTS_L)
  {
    hide Pass, Write, DecodePoints, BasicPart, Below;
    PassL0();
    WriteL0();
    BasicL();
    assert [51, 66, 45] + [119, 119, 52, 99, 53, 101, 49, 56, 48, 101, 53, 55, 53, 97, 54, 53, 108, 115, 121, 50, 98] == UNITS_L;
    PunycodeLaws.PointsRecover(POINTS_L);
  }

  lemma TextL()
    ensures UNITS_L == Units("3B-ww4c5e180e575a65lsy2b")
  { }

  lemma BasicL()
    ensures BasicPart(POINTS_L) == [51, 66, 45] && |Below(POINTS_L, INITIAL_N)| == 2
  {
    assert Below([0x33, 0x5E74, 0x42, 0x7D44, 0x91D1, 0x516B, 0x5148, 0x751F], 128) == [51, 66];
  }

  // ---------------------------------------------------------------- helpers of the samples

  lemma PassOver(s: seq<CodePoint>, n: nat, delta: nat)
    requires forall x :: x in s ==> x < n
    ensures Pass(s, n, delta) == Ok([])
  {
    BelowAll(s, n);
  }

  lemma NothingWritten(bias: nat, points: nat)
    requires points > 0
    ensures Write([], bias, points, false) == []
  { }

  // ASCII text as code units.
  function Units(text: string): seq<Unit>
    requires forall i :: 0 <= i < |text| ==> text[i] as int < 128
  {
    seq(|text|, i requires 0 <= i < |text| => text[i] as int)
  }
}
