/**
 Division and multiplication facts. `Quot` and `Rem` are the floor division and
 remainder of non-negative integers by recursion, which keeps nonlinear terms out
 of the proofs that only carry them along; `QuotIsDiv` ties them to `/` and `%`.
 */
module Arith {

  function Quot(a: nat, b: nat): (q: nat)
    requires b > 0
    ensures q <= a
    ensures b > 1 && a > 0 ==> q < a
    decreases a
  {
    if a < b then 0 else 1 + Quot(a - b, b)
  }

  function Rem(a: nat, b: nat): (r: nat)
    requires b > 0
    ensures r < b
    decreases a
  {
    if a < b then a else Rem(a - b, b)
  }

  lemma MulMono(a: int, b: int, c: int)
    requires a <= b && c >= 0
    ensures a * c <= b * c
  {
  }

  lemma {:induction false} QuotRem(a: nat, b: nat)
    requires b > 0
    ensures a == Quot(a, b) * b + Rem(a, b)
    decreases a
  {
    if a >= b {
      QuotRem(a - b, b);
      assert (1 + Quot(a - b, b)) * b == b + Quot(a - b, b) * b;
    }
  }

  lemma QuotUnique(a: nat, b: nat, q: nat, r: nat)
    requires b > 0 && r < b && a == q * b + r
    ensures Quot(a, b) == q && Rem(a, b) == r
  {
    QuotRem(a, b);
    var q', r' := Quot(a, b), Rem(a, b);
    assert (q - q') * b == r' - r;
    if q > q' {
      MulMono(1, q - q', b);
    } else if q < q' {
      MulMono(q - q', -1, b);
    }
  }

  lemma QuotIsDiv(a: nat, b: nat)
    requires b > 0
    ensures Quot(a, b) == a / b && Rem(a, b) == a % b
  {
    QuotUnique(a, b, a / b, a % b);
  }

  // A bound on a floor quotient is a bound on the product.
  lemma DivBound(x: int, a: int, b: int)
    requires b > 0
    ensures x <= a / b <==> x * b <= a
  {
    assert a == a / b * b + a % b;
    if x <= a / b {
      MulMono(x, a / b, b);
    } else {
      MulMono(a / b + 1, x, b);
    }
  }
}
