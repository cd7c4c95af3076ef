/**
 The order in which `lookupAndConnectMultiple` tries the addresses of a host.
 */
module AddressSort {

  datatype Address = Address(ip: string, family: int)

  // `isIP` is a parameter.
  type IpTest = string -> bool

  predicate Usable(isIP: IpTest, a: Address) { isIP(a.ip) && (a.family == 4 || a.family == 6) }

  // The usable addresses of one family, in order.
  function Family(isIP: IpTest, addresses: seq<Address>, family: int): seq<Address>
  {
    if addresses == [] then []
    else
      var n := |addresses| - 1;
      Family(isIP, addresses[..n], family)
      + if Usable(isIP, addresses[n]) && addresses[n].family == family then [addresses[n]] else []
  }

  // The first occurrence of each.
  function Distinct(addresses: seq<Address>): (r: seq<Address>)
    ensures forall a :: a in r <==> a in addresses
  {
    if addresses == [] then []
    else
      var n := |addresses| - 1;
      assert addresses == addresses[..n] + [addresses[n]];
      Distinct(addresses[..n]) + if addresses[n] in addresses[..n] then [] else [addresses[n]]
  }

  // One from each in turn, while both last.
  function Interleave(a: seq<Address>, b: seq<Address>): seq<Address>
  {
    if a == [] then b
    else if b == [] then a
    else [a[0], b[0]] + Interleave(a[1..], b[1..])
  }

  function Other(family: int): int { if family == 6 then 4 else 6 }

  // Position of the first usable address.
  function First(isIP: IpTest, addresses: seq<Address>): (k: nat)
    ensures k <= |addresses|
    ensures k < |addresses| ==> Usable(isIP, addresses[k])
    ensures forall i :: 0 <= i < k ==> !Usable(isIP, addresses[i])
  {
    if addresses == [] || Usable(isIP, addresses[0]) then 0
    else
      var k := 1 + First(isIP, addresses[1..]);
      assert forall i :: 0 < i < k ==> addresses[i] == addresses[1..][i - 1];
      k
  }

  function Order(isIP: IpTest, addresses: seq<Address>): seq<Address>
  {
    var k := First(isIP, addresses);
    if k == |addresses| then []
    else
      var f := addresses[k].family;
      Interleave(Distinct(Family(isIP, addresses, f)), Distinct(Family(isIP, addresses, Other(f))))
  }

  // What follows the lookup.
  datatype Plan =
    | Multiple(addresses: seq<Address>)
    | Single(address: Address)
    | InvalidIp
    | InvalidFamily
    | NoAddress  // reading the first of no addresses throws

  function PlanFor(isIP: IpTest, addresses: seq<Address>): Plan
  {
    var order := Order(isIP, addresses);
    if |order| >= 2 then Multiple(order)
    else if |order| == 1 then Single(order[0])
    else if addresses == [] then NoAddress
    else if !isIP(addresses[0].ip) then InvalidIp
    else InvalidFamily
  }

  // ---------------------------------------------------------------- the loops

  lemma FamilyNext(isIP: IpTest, addresses: seq<Address>, i: nat, family: int)
    requires i < |addresses|
    ensures Family(isIP, addresses[..i + 1], family)
         == if Usable(isIP, addresses[i]) && addresses[i].family == family then Family(isIP, addresses[..i], family) + [addresses[i]]
            else Family(isIP, addresses[..i], family)
  {
    assert addresses[..i + 1][..i] == addresses[..i];
  }

  lemma DistinctNext(group: seq<Address>, a: Address)
    ensures Distinct(group + [a]) == if a in Distinct(group) then Distinct(group) else Distinct(group) + [a]
  {
    assert (group + [a])[..|group|] == group;
  }

  function Ips(addresses: seq<Address>): (r: seq<string>)
    ensures |r| == |addresses|
    ensures forall i :: 0 <= i < |r| ==> r[i] == addresses[i].ip
  {
    seq(|addresses|, i requires 0 <= i < |addresses| => addresses[i].ip)
  }

  lemma {:induction false} FamilyMembers(isIP: IpTest, addresses: seq<Address>, family: int, a: Address)
    ensures a in Family(isIP, addresses, family) <==> a in addresses && Usable(isIP, a) && a.family == family
  {
    if addresses != [] {
      var n := |addresses| - 1;
      FamilyMembers(isIP, addresses[..n], family, a);
      assert addresses == addresses[..n] + [addresses[n]];
    }
  }

  // Within a family the text of an address identifies it.
  lemma KnownIp(isIP: IpTest, addresses: seq<Address>, a: Address)
    ensures a in Distinct(Family(isIP, addresses, a.family)) <==> a.ip in Ips(Distinct(Family(isIP, addresses, a.family)))
  {
    var group := Distinct(Family(isIP, addresses, a.family));
    if a.ip in Ips(group) {
      var i :| 0 <= i < |group| && Ips(group)[i] == a.ip;
      FamilyMembers(isIP, addresses, a.family, group[i]);
      assert group[i] == a;
    }
    if a in group {
      var i :| 0 <= i < |group| && group[i] == a;
      assert Ips(group)[i] == a.ip;
    }
  }

  lemma {:induction false} NoneSoFar(isIP: IpTest, addresses: seq<Address>, i: nat, family: int)
    requires i <= |addresses| && forall j :: 0 <= j < i ==> !Usable(isIP, addresses[j])
    ensures Distinct(Family(isIP, addresses[..i], family)) == []
  {
    var group := Family(isIP, addresses[..i], family);
    if i > 0 {
      NoneSoFar(isIP, addresses, i - 1, family);
      FamilyNext(isIP, addresses, i - 1, family);
    }
  }

  lemma FirstAt(isIP: IpTest, addresses: seq<Address>, i: nat)
    requires i < |addresses| && Usable(isIP, addresses[i])
    requires forall j :: 0 <= j < i ==> !Usable(isIP, addresses[j])
    ensures First(isIP, addresses) == i
  { }

  // Only try an address once.
  method Include(isIP: IpTest, ghost before: seq<Address>, group0: seq<Address>, ips0: seq<string>, a: Address)
    returns (group: seq<Address>, ips: seq<string>)
    requires group0 == Distinct(Family(isIP, before, a.family)) && ips0 == Ips(group0)
    ensures group == Distinct(Family(isIP, before, a.family) + [a]) && ips == Ips(group)
  {
    hide Family, Distinct;
    KnownIp(isIP, before, a);
    DistinctNext(Family(isIP, before, a.family), a);
    group, ips := group0, ips0;
    if a.ip !in ips {
      group, ips := group + [a], ips + [a.ip];
    }
  }

  // Deduplicated groups, the one of the first usable address first.
  method Groups(isIP: IpTest, addresses: seq<Address>) returns (first: seq<Address>, second: seq<Address>)
    ensures var k := First(isIP, addresses);
            if k == |addresses| then first == [] && second == []
            else && first == Distinct(Family(isIP, addresses, addresses[k].family))
                 && second == Distinct(Family(isIP, addresses, Other(addresses[k].family)))
  {
    hide Family, Distinct, First;
    first, second := [], [];
    var firstIps, secondIps: seq<string> := [], [];
    var preferred := 0;
    var i := 0;
    while i < |addresses|
      invariant 0 <= i <= |addresses|
      invariant preferred == 0 ==> forall j :: 0 <= j < i ==> !Usable(isIP, addresses[j])
      invariant preferred == 0 ==> first == [] && second == []
      invariant preferred != 0 ==> (preferred == 4 || preferred == 6) && First(isIP, addresses) < i && preferred == addresses[First(isIP, addresses)].family
      invariant preferred != 0 ==> first == Distinct(Family(isIP, addresses[..i], preferred))
      invariant preferred != 0 ==> second == Distinct(Family(isIP, addresses[..i], Other(preferred)))
      invariant firstIps == Ips(first) && secondIps == Ips(second)
    {
      var a := addresses[i];
      if isIP(a.ip) && (a.family == 4 || a.family == 6) {
        if preferred == 0 {
          preferred := a.family;
          FirstAt(isIP, addresses, i);
          NoneSoFar(isIP, addresses, i, preferred);
          NoneSoFar(isIP, addresses, i, Other(preferred));
        }
        if a.family == preferred {
          first, firstIps := Include(isIP, addresses[..i], first, firstIps, a);
        } else {
          second, secondIps := Include(isIP, addresses[..i], second, secondIps, a);
        }
      }
      FamilyNext(isIP, addresses, i, preferred);
      FamilyNext(isIP, addresses, i, Other(preferred));
      i := i + 1;
    }
    assert addresses[..i] == addresses;
  }

  lemma InterleaveStep(a: seq<Address>, b: seq<Address>, i: nat)
    requires i < |a| || i < |b|
    ensures Interleave(From(a, i), From(b, i)) == At(a, i) + At(b, i) + Interleave(From(a, i + 1), From(b, i + 1))
  {
    if i < |a| { assert a[i..][1..] == a[i + 1..]; assert a[i..] == [a[i]] + a[i + 1..]; }
    if i < |b| { assert b[i..][1..] == b[i + 1..]; assert b[i..] == [b[i]] + b[i + 1..]; }
  }

  function From(s: seq<Address>, i: nat): seq<Address> { if i <= |s| then s[i..] else [] }

  function At(s: seq<Address>, i: nat): seq<Address> { if i < |s| then [s[i]] else [] }

  lemma InterleaveEnds(a: seq<Address>, b: seq<Address>, l: nat)
    requires |a| <= l && |b| <= l
    ensures Interleave(From(a, 0), From(b, 0)) == Interleave(a, b)
    ensures Interleave(From(a, l), From(b, l)) == []
  {
    assert a[0..] == a && b[0..] == b;
    assert From(a, l) == [] && From(b, l) == [];
  }

  method Alternate(first: seq<Address>, second: seq<Address>) returns (toAttempt: seq<Address>)
    ensures toAttempt == Interleave(first, second)
  {
    hide Interleave, From;
    toAttempt := [];
    var i := 0;
    var l := if |first| >= |second| then |first| else |second|;
    InterleaveEnds(first, second, l);
    while i < l
      invariant 0 <= i <= l
      invariant toAttempt + Interleave(From(first, i), From(second, i)) == Interleave(first, second)
    {
      InterleaveStep(first, second, i);
      ghost var rest := Interleave(From(first, i + 1), From(second, i + 1));
      ghost var was := toAttempt;
      if i < |first| { toAttempt := toAttempt + [first[i]]; }
      if i < |second| { toAttempt := toAttempt + [second[i]]; }
      assert toAttempt == was + (At(first, i) + At(second, i));
      assert was + (At(first, i) + At(second, i) + rest) == was + (At(first, i) + At(second, i)) + rest;
      i := i + 1;
    }
  }

  method Prepare(isIP: IpTest, addresses: seq<Address>) returns (plan: Plan)
    ensures plan == PlanFor(isIP, addresses)
  {
    hide Family, Interleave;
    var first, second := Groups(isIP, addresses);
    GroupsEmpty(isIP, addresses);
    if |first| == 0 && |second| == 0 {
      if |addresses| == 0 { return NoAddress; }
      if !isIP(addresses[0].ip) {
        plan := InvalidIp;
      } else {
        plan := InvalidFamily;
      }
      return;
    }
    var toAttempt := Alternate(first, second);
    if |toAttempt| == 1 {
      plan := Single(toAttempt[0]);
    } else {
      plan := Multiple(toAttempt);
    }
  }

  // The first group starts with the first usable address.
  lemma GroupsEmpty(isIP: IpTest, addresses: seq<Address>)
    ensures var k := First(isIP, addresses);
            k < |addresses| ==>
              && |Distinct(Family(isIP, addresses, addresses[k].family))| > 0
              && Order(isIP, addresses) != []
              && Order(isIP, addresses)[0] == Distinct(Family(isIP, addresses, addresses[k].family))[0] == addresses[k]
  {
    var k := First(isIP, addresses);
    if k < |addresses| {
      var f := addresses[k].family;
      FirstOfGroup(isIP, addresses, k, |addresses|);
      assert addresses[..|addresses|] == addresses;
    }
  }

  lemma {:induction false} FirstOfGroup(isIP: IpTest, addresses: seq<Address>, k: nat, i: nat)
    requires k < i <= |addresses| && k == First(isIP, addresses)
    ensures var group := Distinct(Family(isIP, addresses[..i], addresses[k].family));
            |group| > 0 && group[0] == addresses[k]
  {
    hide Family, Distinct, First;
    var f := addresses[k].family;
    FamilyNext(isIP, addresses, i - 1, f);
    if i - 1 == k {
      NoneSoFar(isIP, addresses, k, f);
    } else {
      FirstOfGroup(isIP, addresses, k, i - 1);
    }
    DistinctNext(Family(isIP, addresses[..i - 1], f), addresses[i - 1]);
  }
}
