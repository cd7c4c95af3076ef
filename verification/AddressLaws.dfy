/**
 What the order of connection attempts promises.
 */
module AddressLaws {
  import opened AddressSort
  import ConnectSpec

  predicate NoRepeat(s: seq<Address>) { forall i, j :: 0 <= i < j < |s| ==> s[i] != s[j] }

  predicate AllOf(s: seq<Address>, family: int) { forall i :: 0 <= i < |s| ==> s[i].family == family }

  lemma {:induction false} DistinctNoRepeat(s: seq<Address>)
    ensures NoRepeat(Distinct(s))
  {
    if s != [] {
      DistinctNoRepeat(s[..|s| - 1]);
    }
  }

  // Position of the first occurrence.
  function Where(s: seq<Address>, a: Address): (k: nat)
    requires a in s
    ensures k < |s| && s[k] == a && a !in s[..k]
  {
    if a in s[..|s| - 1] then
      var k := Where(s[..|s| - 1], a);
      assert s[..k] == s[..|s| - 1][..k];
      k
    else
      assert s == s[..|s| - 1] + [s[|s| - 1]];
      |s| - 1
  }

  // Deduplication keeps the order of first occurrences.
  lemma {:induction false} DistinctKeepsOrder(s: seq<Address>, i: nat, j: nat)
    requires i < j < |Distinct(s)|
    ensures Distinct(s)[i] in s && Distinct(s)[j] in s
    ensures Where(s, Distinct(s)[i]) < Where(s, Distinct(s)[j])
  {
    var n := |s| - 1;
    var d, e := Distinct(s), Distinct(s[..n]);
    assert d[i] in d && d[j] in d;
    assert s == s[..n] + [s[n]];
    if j < |e| {
      DistinctKeepsOrder(s[..n], i, j);
    }
    assert e[i] in e;
  }

  lemma {:induction false} FamilyOf(isIP: IpTest, addresses: seq<Address>, family: int)
    ensures AllOf(Family(isIP, addresses, family), family)
    ensures forall a :: a in Family(isIP, addresses, family) ==> Usable(isIP, a)
  {
    if addresses != [] { FamilyOf(isIP, addresses[..|addresses| - 1], family); }
  }

  lemma {:induction false} FamilyConcat(isIP: IpTest, a: seq<Address>, b: seq<Address>, family: int)
    ensures Family(isIP, a + b, family) == Family(isIP, a, family) + Family(isIP, b, family)
  {
    if b == [] {
      assert a + b == a;
    } else {
      var n := |b| - 1;
      assert (a + b)[..|a| + n] == a + b[..n];
      FamilyConcat(isIP, a, b[..n], family);
    }
  }

  lemma {:induction false} FamilyAll(isIP: IpTest, s: seq<Address>, family: int, f: int)
    requires AllOf(s, family) && forall a :: a in s ==> Usable(isIP, a)
    ensures Family(isIP, s, f) == if f == family then s else []
  {
    if s != [] {
      var n := |s| - 1;
      assert s == s[..n] + [s[n]];
      assert s[n] in s;
      FamilyAll(isIP, s[..n], family, f);
    }
  }

  // Interleaving keeps each family as it is.
  lemma {:induction false} FamilyInterleave(isIP: IpTest, a: seq<Address>, b: seq<Address>, f: int, g: int)
    requires f != g && AllOf(a, f) && AllOf(b, g)
    requires (forall x :: x in a ==> Usable(isIP, x)) && (forall x :: x in b ==> Usable(isIP, x))
    ensures Family(isIP, Interleave(a, b), f) == a
    ensures Family(isIP, Interleave(a, b), g) == b
  {
    hide Family, Usable;
    if a == [] {
      FamilyAll(isIP, b, g, f);
      FamilyAll(isIP, b, g, g);
    } else if b == [] {
      FamilyAll(isIP, a, f, f);
      FamilyAll(isIP, a, f, g);
    } else {
      var rest := Interleave(a[1..], b[1..]);
      FamilyInterleave(isIP, a[1..], b[1..], f, g);
      FamilyPair(isIP, a[0], b[0], f, g);
      FamilyConcat(isIP, [a[0], b[0]], rest, f);
      FamilyConcat(isIP, [a[0], b[0]], rest, g);
      assert [a[0]] + a[1..] == a && [b[0]] + b[1..] == b;
    }
  }

  lemma FamilyPair(isIP: IpTest, x: Address, y: Address, f: int, g: int)
    requires f != g && x.family == f && y.family == g && Usable(isIP, x) && Usable(isIP, y)
    ensures Family(isIP, [x, y], f) == [x] && Family(isIP, [x, y], g) == [y]
  {
    hide Family;
    FamilyAll(isIP, [x], f, f);
    FamilyAll(isIP, [x], f, g);
    FamilyAll(isIP, [y], g, f);
    FamilyAll(isIP, [y], g, g);
    FamilyConcat(isIP, [x], [y], f);
    FamilyConcat(isIP, [x], [y], g);
    assert [x] + [y] == [x, y];
  }

  lemma {:induction false} InterleaveAt(a: seq<Address>, b: seq<Address>, i: nat)
    ensures |Interleave(a, b)| == |a| + |b|
    ensures i < |a| && i < |b| ==> Interleave(a, b)[2 * i] == a[i] && Interleave(a, b)[2 * i + 1] == b[i]
  {
    if a != [] && b != [] {
      InterleaveAt(a[1..], b[1..], if i > 0 then i - 1 else 0);
    }
  }

  lemma {:induction false} InterleaveMembers(a: seq<Address>, b: seq<Address>, x: Address)
    ensures x in Interleave(a, b) <==> x in a || x in b
  {
    if a != [] && b != [] {
      InterleaveMembers(a[1..], b[1..], x);
      assert a == [a[0]] + a[1..] && b == [b[0]] + b[1..];
    }
  }

  // ---------------------------------------------------------------- the order

  // For each family the order is its usable addresses, first occurrences only.
  lemma OrderPerFamily(isIP: IpTest, addresses: seq<Address>, family: int)
    ensures Family(isIP, Order(isIP, addresses), family) == Distinct(Family(isIP, addresses, family))
  {
    var k := First(isIP, addresses);
    if k == |addresses| {
      assert addresses[..k] == addresses;
      NoneSoFar(isIP, addresses, k, family);
    } else {
      var f := addresses[k].family;
      var g := Other(f);
      FamilyOf(isIP, addresses, f);
      FamilyOf(isIP, addresses, g);
      var a, b := Distinct(Family(isIP, addresses, f)), Distinct(Family(isIP, addresses, g));
      hide Family, Distinct, Interleave, First;
      Inherit(isIP, Family(isIP, addresses, f), f);
      Inherit(isIP, Family(isIP, addresses, g), g);
      FamilyInterleave(isIP, a, b, f, g);
      if family != f && family != g {
        OddFamily(isIP, Order(isIP, addresses), family);
        OddFamily(isIP, addresses, family);
        NothingDistinct();
      }
    }
  }

  lemma Inherit(isIP: IpTest, s: seq<Address>, f: int)
    requires AllOf(s, f) && forall x :: x in s ==> Usable(isIP, x)
    ensures AllOf(Distinct(s), f) && forall x :: x in Distinct(s) ==> Usable(isIP, x)
  {
    var d := Distinct(s);
    forall i | 0 <= i < |d| ensures d[i].family == f {
      assert d[i] in d;
    }
  }

  lemma NothingDistinct()
    ensures Distinct([]) == []
  { }

  lemma {:induction false} OddFamily(isIP: IpTest, addresses: seq<Address>, family: int)
    requires family != 4 && family != 6
    ensures Family(isIP, addresses, family) == []
  {
    if addresses != [] { OddFamily(isIP, addresses[..|addresses| - 1], family); }
  }

  // Every usable address is tried, no other is, and none twice.
  lemma OrderMembers(isIP: IpTest, addresses: seq<Address>, a: Address)
    ensures a in Order(isIP, addresses) <==> a in addresses && Usable(isIP, a)
  {
    var k := First(isIP, addresses);
    if k < |addresses| {
      var f := addresses[k].family;
      FamilyMembers(isIP, addresses, f, a);
      FamilyMembers(isIP, addresses, Other(f), a);
      InterleaveMembers(Distinct(Family(isIP, addresses, f)), Distinct(Family(isIP, addresses, Other(f))), a);
    }
  }

  lemma OrderOnce(isIP: IpTest, addresses: seq<Address>)
    ensures NoRepeat(Order(isIP, addresses))
  {
    var order := Order(isIP, addresses);
    forall i, j | 0 <= i < j < |order| ensures order[i] != order[j] {
      var a := order[i];
      if order[j] == a {
        assert a in order;
        OrderMembers(isIP, addresses, a);
        OrderPerFamily(isIP, addresses, a.family);
        Twice(isIP, order, a, i, j);
        DistinctNoRepeat(Family(isIP, addresses, a.family));
      }
    }
  }

  // An address in two places is twice in its family.
  lemma Twice(isIP: IpTest, s: seq<Address>, a: Address, i: nat, j: nat)
    requires i < j < |s| && s[i] == s[j] == a && Usable(isIP, a)
    ensures !NoRepeat(Family(isIP, s, a.family))
  {
    hide Family, Usable;
    var front, back := s[..j], s[j..];
    assert s == front + back;
    FamilyConcat(isIP, front, back, a.family);
    assert front[i] == a && back[0] == a;
    FamilyMembers(isIP, front, a.family, a);
    FamilyMembers(isIP, back, a.family, a);
    var fs, bs := Family(isIP, front, a.family), Family(isIP, back, a.family);
    var p :| 0 <= p < |fs| && fs[p] == a;
    var q :| 0 <= q < |bs| && bs[q] == a;
    assert (fs + bs)[p] == (fs + bs)[|fs| + q];
  }

  // The first usable address is first; the families alternate while both last.
  lemma OrderAlternates(isIP: IpTest, addresses: seq<Address>, i: nat)
    requires First(isIP, addresses) < |addresses|
    ensures var f := addresses[First(isIP, addresses)].family;
            var order := Order(isIP, addresses);
            var a, b := |Family(isIP, order, f)|, |Family(isIP, order, Other(f))|;
            && |order| == a + b && |order| > 0 && order[0] == addresses[First(isIP, addresses)]
            && (i < a && i < b ==> order[2 * i].family == f && order[2 * i + 1].family == Other(f))
  {
    var f := addresses[First(isIP, addresses)].family;
    var g := Other(f);
    var a, b := Distinct(Family(isIP, addresses, f)), Distinct(Family(isIP, addresses, g));
    GroupsEmpty(isIP, addresses);
    OrderPerFamily(isIP, addresses, f);
    OrderPerFamily(isIP, addresses, g);
    InterleaveAt(a, b, i);
    FamilyOf(isIP, addresses, f);
    FamilyOf(isIP, addresses, g);
    Inherit(isIP, Family(isIP, addresses, f), f);
    Inherit(isIP, Family(isIP, addresses, g), g);
  }

  // An error is reported exactly when nothing is usable, and it names what is wrong with the
  // first address; one address is connected to directly.
  lemma PlanErrors(isIP: IpTest, addresses: seq<Address>)
    ensures var plan, order := PlanFor(isIP, addresses), Order(isIP, addresses);
            var usable := exists i :: 0 <= i < |addresses| && Usable(isIP, addresses[i]);
            && (plan.NoAddress? <==> addresses == [])
            && (plan.InvalidIp? <==> addresses != [] && !usable && !isIP(addresses[0].ip))
            && (plan.InvalidFamily? <==> addresses != [] && !usable && isIP(addresses[0].ip))
            && (plan.InvalidFamily? ==> addresses[0].family != 4 && addresses[0].family != 6)
            && (plan.Single? ==> order == [plan.address])
            && (plan.Multiple? ==> plan.addresses == order && |order| >= 2)
            && (usable <==> plan.Single? || plan.Multiple?)
  {
    hide Family, Distinct, Interleave;
    GroupsEmpty(isIP, addresses);
  }

  // ---------------------------------------------------------------- the attempts

  // However a run of attempts goes, no address is attempted twice, and they are attempted
  // in the order above.
  lemma AddressesOnce(isIP: IpTest, addresses: seq<Address>, answer: nat -> ConnectSpec.Answer, k: nat, i: nat, j: nat)
    requires k <= |Order(isIP, addresses)| && i < j < |ConnectSpec.Attempted(answer, k)|
    ensures var order, attempted := Order(isIP, addresses), ConnectSpec.Attempted(answer, k);
            attempted[i] < attempted[j] < |order| && order[attempted[i]] != order[attempted[j]]
  {
    ConnectSpec.AttemptedOnce(answer, k, i, j);
    OrderOnce(isIP, addresses);
  }
}
