/** The finished address plan: who gets which address, when planning fails, when the plan is sound. */
module AddressResult {
  import opened Bytes
  import opened Ipv4
  import opened Ipv4Text
  import opened Names
  import opened Prelude
  import opened AddressPlan

  /** a is free and has exactly rank free addresses below it. */
  ghost predicate NthFree(subnet: Net, claimed: set<Text>, rank: nat, a: nat) {
    subnet.ip < a < End(subnet) && Dotted(a) !in claimed && |FreeBelow(subnet, claimed, a)| == rank
  }

  ghost predicate GetsNth(subnet: Net, claimed: set<Text>, rank: nat, t: Text) {
    Canonical(t) && NthFree(subnet, claimed, rank, Address(t).value)
  }

  /** The outcome for the first i services: requests honoured, the k-th of the others gets the k-th free address. */
  ghost predicate PlannedUpto(order: seq<Name>, requests: Requests, subnet: Net, claimed: set<Text>, i: nat,
                              ips: map<Name, Text>) {
    i <= |order|
    && (forall n :: n in ips ==> n in order)
    && (forall k :: 0 <= k < |order| ==> (order[k] in ips <==> order[k] in requests || k < i))
    && (forall k :: 0 <= k < |order| && order[k] in requests ==> PlannedAt(order, requests, ips, k))
    && (forall k :: 0 <= k < i && order[k] !in requests ==>
          order[k] in ips && GetsNth(subnet, claimed, Needed(order[..k], requests), ips[order[k]]))
  }

  ghost predicate PlannedAt(order: seq<Name>, requests: Requests, ips: map<Name, Text>, k: nat) {
    k < |order| && order[k] in ips && order[k] in requests && ips[order[k]] == requests[order[k]]
  }

  ghost predicate Planned(order: seq<Name>, requests: Requests, subnet: Net, gateway: Option<nat>, ips: map<Name, Text>) {
    PlannedUpto(order, requests, subnet, Claimed(order, requests, gateway), |order|, ips)
  }

  /** Beyond the claimed texts, exactly the free addresses below n are reserved. */
  ghost predicate Reserving(subnet: Net, claimed: set<Text>, n: nat, reserved: set<Text>) {
    claimed <= reserved
    && forall a: nat :: a < POW32 && Dotted(a) !in claimed ==> (Dotted(a) in reserved <==> subnet.ip < a < n)
  }

  lemma TakeFree(subnet: Net, claimed: set<Text>, n: nat, reserved: set<Text>, hi: nat)
    requires Reserving(subnet, claimed, n, reserved) && subnet.ip < n <= hi <= POW32 && AllReserved(reserved, n, hi)
    ensures FreeBelow(subnet, claimed, hi) == FreeBelow(subnet, claimed, n)
  {
    forall a | a in FreeBelow(subnet, claimed, hi) ensures a in FreeBelow(subnet, claimed, n) {
      assert Dotted(a) in reserved ==> a < n;
    }
  }

  lemma TakeReserves(subnet: Net, claimed: set<Text>, n: nat, reserved: set<Text>, a: nat)
    requires Reserving(subnet, claimed, n, reserved) && subnet.ip < n <= a < POW32 && AllReserved(reserved, n, a)
    ensures Reserving(subnet, claimed, a + 1, reserved + {Dotted(a)})
  {
    hide Dotted, Address;
    forall b: nat | b < POW32 && Dotted(b) !in claimed ensures Dotted(b) in reserved + {Dotted(a)} <==> subnet.ip < b < a + 1 {
    }
  }

  lemma RequestedPlanned(order: seq<Name>, requests: Requests, subnet: Net, claimed: set<Text>)
    ensures PlannedUpto(order, requests, subnet, claimed, 0, Requested(order, requests))
  {
    forall k | 0 <= k < |order| ensures order[k] in Elems(order) {
    }
  }

  /** The free addresses run up to n, as many as the first i services needed. */
  ghost predicate Handed(order: seq<Name>, requests: Requests, subnet: Net, claimed: set<Text>, i: nat, n: nat) {
    i <= |order| && |FreeBelow(subnet, claimed, n)| == Needed(order[..i], requests)
  }

  lemma {:induction false} NeededStep(order: seq<Name>, requests: Requests, i: nat)
    requires i < |order|
    ensures Needed(order[..i + 1], requests) == Needed(order[..i], requests) + (if order[i] in requests then 0 else 1)
  {
    assert order[..i + 1][..i] == order[..i];
  }

  lemma PlanKeep(order: seq<Name>, requests: Requests, subnet: Net, claimed: set<Text>, i: nat, ips: map<Name, Text>)
    requires PlannedUpto(order, requests, subnet, claimed, i, ips) && i < |order| && order[i] in requests
    ensures PlannedUpto(order, requests, subnet, claimed, i + 1, ips)
  {
  }

  lemma {:induction false} PlanAdd(order: seq<Name>, requests: Requests, subnet: Net, claimed: set<Text>, i: nat, ips: map<Name, Text>, a: nat)
    requires NoDup(order) && PlannedUpto(order, requests, subnet, claimed, i, ips) && i < |order|
    requires order[i] !in requests && NthFree(subnet, claimed, Needed(order[..i], requests), a) && a < POW32
    ensures PlannedUpto(order, requests, subnet, claimed, i + 1, ips[order[i] := Dotted(a)])
  {
    hide NthFree, Needed, Dotted, Address;
    var ips' := ips[order[i] := Dotted(a)];
    forall k | 0 <= k < |order| && order[k] in requests ensures PlannedAt(order, requests, ips', k) {
      assert PlannedAt(order, requests, ips, k);
    }
    forall k | 0 <= k < i && order[k] !in requests ensures order[k] in ips' && ips'[order[k]] == ips[order[k]] {
    }
  }

  lemma {:induction false} AddressTaken(order: seq<Name>, requests: Requests, subnet: Net, claimed: set<Text>, i: nat, n: nat,
                     reserved: set<Text>, a: nat)
    requires Handed(order, requests, subnet, claimed, i, n) && Reserving(subnet, claimed, n, reserved)
    requires i < |order| && order[i] !in requests
    requires subnet.ip < n <= a < End(subnet) <= POW32 && Dotted(a) !in reserved && AllReserved(reserved, n, a)
    ensures NthFree(subnet, claimed, Needed(order[..i], requests), a)
    ensures Handed(order, requests, subnet, claimed, i + 1, a + 1)
    ensures Reserving(subnet, claimed, a + 1, reserved + {Dotted(a)})
  {
    TakeFree(subnet, claimed, n, reserved, a);
    TakeReserves(subnet, claimed, n, reserved, a);
    FreeStep(subnet, claimed, a);
    NeededStep(order, requests, i);
    hide FreeBelow, Needed, Reserving, AllReserved;
    var below := FreeBelow(subnet, claimed, a);
    assert |below + {a}| == |below| + 1;
  }

  lemma {:induction false} NeededMono(order: seq<Name>, requests: Requests, i: nat, j: nat)
    requires i <= j <= |order|
    ensures Needed(order[..i], requests) <= Needed(order[..j], requests)
  {
    if i < j {
      NeededMono(order, requests, i, j - 1);
      NeededStep(order, requests, j - 1);
    }
  }

  /** When the search runs off the end, more addresses are needed than are free. */
  lemma {:induction false} RanOut(order: seq<Name>, requests: Requests, subnet: Net, claimed: set<Text>, i: nat, n: nat, reserved: set<Text>)
    requires Handed(order, requests, subnet, claimed, i, n) && Reserving(subnet, claimed, n, reserved)
    requires i < |order| && order[i] !in requests
    requires subnet.ip < n <= End(subnet) <= POW32 && AllReserved(reserved, n, End(subnet))
    ensures Needed(order, requests) > |FreeBelow(subnet, claimed, End(subnet))|
  {
    TakeFree(subnet, claimed, n, reserved, End(subnet));
    hide FreeBelow, Needed, Reserving, AllReserved;
    NeededStep(order, requests, i);
    NeededMono(order, requests, i + 1, |order|);
    assert order[..|order|] == order;
  }

  lemma FreeMono(subnet: Net, claimed: set<Text>, n: nat, m: nat)
    requires n <= m
    ensures FreeBelow(subnet, claimed, n) <= FreeBelow(subnet, claimed, m)
    ensures |FreeBelow(subnet, claimed, n)| <= |FreeBelow(subnet, claimed, m)|
  {
    SubsetSize(FreeBelow(subnet, claimed, n), FreeBelow(subnet, claimed, m));
  }

  /** While more services need an address than were handed out, and enough were free, one is left. */
  lemma {:induction false} StillLeft(order: seq<Name>, requests: Requests, subnet: Net, claimed: set<Text>, i: nat, n: nat, reserved: set<Text>)
    requires Handed(order, requests, subnet, claimed, i, n) && Reserving(subnet, claimed, n, reserved)
    requires i < |order| && order[i] !in requests && End(subnet) <= POW32
    requires Needed(order, requests) <= |FreeBelow(subnet, claimed, End(subnet))|
    ensures Left(subnet, reserved, n)
  {
    hide Needed, Dotted, Address;
    NeededStep(order, requests, i);
    NeededMono(order, requests, i + 1, |order|);
    assert order[..|order|] == order;
    var below, free := FreeBelow(subnet, claimed, n), FreeBelow(subnet, claimed, End(subnet));
    SmallerMisses(below, free);
    var a :| a in free - below;
    assert n <= a < End(subnet) && Dotted(a) !in reserved;
  }

  /** Second pass: the services without a request, in order. */
  method PlaceRest(order: seq<Name>, requests: Requests, subnet: Net, ghost claimed: set<Text>,
                   taken: set<Text>, given: map<Name, Text>)
    returns (plan: Plan)
    requires NoDup(order) && Proper(subnet) && taken == claimed && given == Requested(order, requests)
    requires subnet.prefix >= 1 || Needed(order, requests) <= |FreeBelow(subnet, claimed, End(subnet))|
    ensures plan.Assigned? || plan.NoFreeAddress?
    ensures plan.Assigned? <==> Needed(order, requests) <= |FreeBelow(subnet, claimed, End(subnet))|
    ensures plan.Assigned? ==> PlannedUpto(order, requests, subnet, claimed, |order|, plan.ips)
  {
    hide Proper, Stands, PlannedUpto, Handed, Reserving, AllReserved, NthFree, Needed, FreeBelow, NoDup, End, Requested, Left, Dotted, Address;
    EndFits(subnet);
    var next := new byte[4](i requires 0 <= i < 4 => Be(subnet.ip, 4)[i]);
    assert next[..] == Be(subnet.ip, 4);
    Increment(next);
    StartStands(subnet, next[..]);
    ghost var n: nat := subnet.ip + 1;
    var reserved, ips := taken, given;
    StartHanded(order, requests, subnet, claimed);
    RequestedPlanned(order, requests, subnet, claimed);
    for i := 0 to |order|
      invariant Stands(subnet, next[..], n) && Handed(order, requests, subnet, claimed, i, n)
      invariant Reserving(subnet, claimed, n, reserved)
      invariant PlannedUpto(order, requests, subnet, claimed, i, ips)
    {
      var name := order[i];
      StandsBound(subnet, next[..], n);
      if IsPlanned(order, requests, subnet, claimed, i, ips) {
        PlanKeep(order, requests, subnet, claimed, i, ips);
        HandedKeep(order, requests, subnet, claimed, i, n);
        continue;
      }
      ghost var before := n;
      var r: Option<nat>;
      if subnet.prefix == 0 {
        StillLeft(order, requests, subnet, claimed, i, n, reserved);
      }
      r, n := Take(subnet, next, reserved, n);
      if r.None? {
        RanOut(order, requests, subnet, claimed, i, before, reserved);
        return NoFreeAddress;
      }
      StandsBound(subnet, next[..], n);
      AddressTaken(order, requests, subnet, claimed, i, before, reserved, r.value);
      PlanAdd(order, requests, subnet, claimed, i, ips, r.value);
      reserved := reserved + {Dotted(r.value)};
      ips := ips[name := Dotted(r.value)];
    }
    StandsBound(subnet, next[..], n);
    Enough(order, requests, subnet, claimed, n);
    return Assigned(ips);
  }

  /** A service that already has an address is one that asked for it. */
  predicate IsPlanned(order: seq<Name>, requests: Requests, subnet: Net, ghost claimed: set<Text>, i: nat,
                      ips: map<Name, Text>)
    requires i < |order| && PlannedUpto(order, requests, subnet, claimed, i, ips)
    ensures IsPlanned(order, requests, subnet, claimed, i, ips) <==> order[i] in requests
  {
    order[i] in ips
  }

  lemma StartStands(subnet: Net, next: bytes)
    requires Proper(subnet) && next == AddTo(Be(subnet.ip, 4), 1)
    ensures Stands(subnet, next, subnet.ip + 1)
  {
    PowValues();
    BeRoundTrip(subnet.ip, 4);
    AddToValue(Be(subnet.ip, 4), 1);
  }

  lemma StartHanded(order: seq<Name>, requests: Requests, subnet: Net, claimed: set<Text>)
    ensures Handed(order, requests, subnet, claimed, 0, subnet.ip + 1)
    ensures Reserving(subnet, claimed, subnet.ip + 1, claimed)
  {
    assert FreeBelow(subnet, claimed, subnet.ip + 1) == {};
  }

  lemma HandedKeep(order: seq<Name>, requests: Requests, subnet: Net, claimed: set<Text>, i: nat, n: nat)
    requires Handed(order, requests, subnet, claimed, i, n) && i < |order| && order[i] in requests
    ensures Handed(order, requests, subnet, claimed, i + 1, n)
  {
    NeededStep(order, requests, i);
  }

  lemma {:induction false} Enough(order: seq<Name>, requests: Requests, subnet: Net, claimed: set<Text>, n: nat)
    requires Handed(order, requests, subnet, claimed, |order|, n) && n <= End(subnet)
    ensures Needed(order, requests) <= |FreeBelow(subnet, claimed, End(subnet))|
  {
    assert order[..|order|] == order;
    FreeMono(subnet, claimed, n, End(subnet));
  }

  /** How many addresses the requests and the gateway leave free. */
  ghost function FreeCount(order: seq<Name>, requests: Requests, subnet: Net, gateway: Option<nat>): nat {
    |FreeBelow(subnet, Claimed(order, requests, gateway), End(subnet))|
  }

  /** In the whole address space the search for a free address ends only by finding one. */
  ghost predicate Ends(order: seq<Name>, requests: Requests, subnet: Net, gateway: Option<nat>) {
    subnet.prefix == 0 && Acceptable(order, requests, subnet, gateway) ==>
      Needed(order, requests) <= FreeCount(order, requests, subnet, gateway)
  }

  /**
   * Planning succeeds exactly when the requests are acceptable and enough addresses are free;
   * then requests are honoured and the other services take the lowest free addresses in order.
   */
  method AssignServiceIPs(order: seq<Name>, requests: Requests, subnet: Option<Net>, gateway: Option<nat>)
    returns (plan: Plan)
    requires NoDup(order) && (subnet.Some? ==> Proper(subnet.value) && Ends(order, requests, subnet.value, gateway))
    ensures plan.NoSubnet? <==> subnet.None?
    ensures subnet.Some? ==>
      (plan.Assigned? || plan.NoFreeAddress? <==> Acceptable(order, requests, subnet.value, gateway))
    ensures subnet.Some? && Acceptable(order, requests, subnet.value, gateway) ==>
      (plan.Assigned? <==> Needed(order, requests) <= FreeCount(order, requests, subnet.value, gateway))
    ensures subnet.Some? && !Acceptable(order, requests, subnet.value, gateway) ==>
      Rejects(order, requests, subnet.value, gateway, plan)
    ensures plan.Assigned? ==> Planned(order, requests, subnet.value, gateway, plan.ips)
  {
    hide Rejects, Acceptable, Proper, PlannedUpto, Needed, FreeBelow, Claimed, Requested;
    if subnet.None? {
      return NoSubnet;
    }
    var reserved: set<Text>;
    plan, reserved := PlaceRequests(order, requests, subnet.value, gateway);
    if plan.Assigned? {
      plan := PlaceRest(order, requests, subnet.value, Claimed(order, requests, gateway), reserved, plan.ips);
    }
  }

  // ---------- when the plan is sound ----------

  /** Every address lies in the subnet, no two services share one, and none is the gateway's. */
  ghost predicate Sound(subnet: Net, gateway: Option<nat>, ips: map<Name, Text>) {
    (forall n :: n in ips ==> Inside(subnet, ips[n]) && Address(ips[n]) != gateway)
    && forall n, m :: n in ips && m in ips && n != m ==> Address(ips[n]) != Address(ips[m])
  }

  /** t's address is one the planner will not hand out itself. */
  ghost predicate Spared(subnet: Net, claimed: set<Text>, needed: nat, t: Text) {
    Address(t).Some? ==>
      var a := Address(t).value;
      a == subnet.ip || Dotted(a) in claimed || needed <= |FreeBelow(subnet, claimed, a)|
  }

  /**
   * The requests clash with nothing: their addresses differ from each other and from the gateway's,
   * and none is among the free addresses the remaining services will take.
   */
  ghost predicate Unambiguous(order: seq<Name>, requests: Requests, subnet: Net, gateway: Option<nat>) {
    (forall n :: n in Elems(order) && n in requests ==>
       Address(requests[n]) != gateway
       && Spared(subnet, Claimed(order, requests, gateway), Needed(order, requests), requests[n]))
    && forall n, m :: n in Elems(order) && n in requests && m in Elems(order) && m in requests && n != m ==>
       Address(requests[n]) != Address(requests[m])
  }

  lemma NthFreeUnique(subnet: Net, claimed: set<Text>, rank: nat, a: nat, b: nat)
    requires NthFree(subnet, claimed, rank, a) && NthFree(subnet, claimed, rank, b)
    ensures a == b
  {
    if a < b {
      RankLess(subnet, claimed, a, b);
    } else if b < a {
      RankLess(subnet, claimed, b, a);
    }
  }

  lemma RankLess(subnet: Net, claimed: set<Text>, a: nat, b: nat)
    requires subnet.ip < a < b && Dotted(a) !in claimed
    ensures |FreeBelow(subnet, claimed, a)| < |FreeBelow(subnet, claimed, b)|
  {
    hide FreeBelow, Dotted, Address;
    FreeStep(subnet, claimed, a);
    FreeMono(subnet, claimed, a + 1, b);
    var below := FreeBelow(subnet, claimed, a);
    assert |below + {a}| == |below| + 1;
  }

  /** Some service without a request has the given rank. */
  lemma {:induction false} RankTaken(order: seq<Name>, requests: Requests, rank: nat, i: nat) returns (k: nat)
    requires 0 < i <= |order| && rank < Needed(order[..i], requests)
    ensures k < i && order[k] !in requests && Needed(order[..k], requests) == rank
  {
    hide Needed;
    NeededNone(order, requests);
    NeededStep(order, requests, i - 1);
    if rank < Needed(order[..i - 1], requests) {
      k := RankTaken(order, requests, rank, i - 1);
    } else {
      k := i - 1;
    }
  }

  lemma {:induction false} NeededNone(order: seq<Name>, requests: Requests)
    ensures Needed(order[..0], requests) == 0
  {
  }

  /** A service without a request gets an address of its rank, which is below the number needed. */
  lemma Handout(order: seq<Name>, requests: Requests, subnet: Net, gateway: Option<nat>, ips: map<Name, Text>, n: Name)
    returns (k: nat, a: nat)
    requires Planned(order, requests, subnet, gateway, ips) && n in ips && n !in requests
    ensures k < |order| && order[k] == n && ips[n] == Dotted(a) && Address(ips[n]) == Some(a)
    ensures NthFree(subnet, Claimed(order, requests, gateway), Needed(order[..k], requests), a)
    ensures Needed(order[..k], requests) < Needed(order, requests)
  {
    hide Dotted, Address, NthFree, Needed, Claimed;
    k :| 0 <= k < |order| && order[k] == n;
    a := Address(ips[n]).value;
    NeededStep(order, requests, k);
    NeededMono(order, requests, k + 1, |order|);
    assert order[..|order|] == order;
  }

  lemma Honoured(order: seq<Name>, requests: Requests, subnet: Net, gateway: Option<nat>, ips: map<Name, Text>, n: Name)
    requires Planned(order, requests, subnet, gateway, ips) && n in requests
    ensures n in Elems(order) <==> n in ips
    ensures n in ips ==> ips[n] == requests[n]
  {
    if n in Elems(order) {
      var k :| 0 <= k < |order| && order[k] == n;
      assert PlannedAt(order, requests, ips, k);
    }
  }

  /** Canonical requests always come out sound. */
  lemma CanonicalUnambiguous(order: seq<Name>, requests: Requests, subnet: Net, gateway: Option<nat>)
    requires NoDup(order) && Acceptable(order, requests, subnet, gateway)
    requires forall n :: n in Elems(order) && n in requests ==> Canonical(requests[n])
    ensures Unambiguous(order, requests, subnet, gateway)
  {
    hide Dotted, Address, Contains, Needed, FreeBelow, NoDup;
    forall n | n in Elems(order) && n in requests
      ensures Address(requests[n]) != gateway
      ensures Spared(subnet, Claimed(order, requests, gateway), Needed(order, requests), requests[n])
    {
      var i :| 0 <= i < |order| && order[i] == n;
      assert AcceptableAt(order, requests, subnet, gateway, i);
      assert requests[n] in Claimed(order, requests, gateway);
    }
    forall n, m | n in Elems(order) && n in requests && m in Elems(order) && m in requests && n != m
      ensures Address(requests[n]) != Address(requests[m])
    {
      var i :| 0 <= i < |order| && order[i] == n;
      var j :| 0 <= j < |order| && order[j] == m;
      if i < j {
        TextsDiffer(order, requests, subnet, gateway, i, j);
      } else {
        TextsDiffer(order, requests, subnet, gateway, j, i);
      }
      assert Inside(subnet, requests[n]) && Inside(subnet, requests[m]) by {
        assert AcceptableAt(order, requests, subnet, gateway, i);
        assert AcceptableAt(order, requests, subnet, gateway, j);
      }
    }
  }

  lemma TextsDiffer(order: seq<Name>, requests: Requests, subnet: Net, gateway: Option<nat>, i: nat, j: nat)
    requires Acceptable(order, requests, subnet, gateway) && i < j < |order|
    requires order[i] in requests && order[j] in requests
    ensures requests[order[i]] != requests[order[j]]
  {
    assert AcceptableAt(order, requests, subnet, gateway, j);
    assert order[i] in Elems(order[..j]);
  }

  /** The two sides of the exact condition share these inputs. */
  ghost predicate Accepted(order: seq<Name>, requests: Requests, subnet: Net, gateway: Option<nat>, ips: map<Name, Text>) {
    NoDup(order) && Proper(subnet) && Acceptable(order, requests, subnet, gateway)
    && Planned(order, requests, subnet, gateway, ips)
  }

  /** A requested address that is free and of low rank goes to two services. */
  lemma {:induction false} SparedNeeded(order: seq<Name>, requests: Requests, subnet: Net, gateway: Option<nat>, ips: map<Name, Text>, n: Name)
    requires Accepted(order, requests, subnet, gateway, ips) && Sound(subnet, gateway, ips)
    requires n in ips && n in requests
    ensures Spared(subnet, Claimed(order, requests, gateway), Needed(order, requests), requests[n])
  {
    hide Claimed, Needed, Acceptable, Proper, FreeBelow, End, Contains;
    var claimed := Claimed(order, requests, gateway);
    Honoured(order, requests, subnet, gateway, ips, n);
    var a := Address(requests[n]).value;
    var rank := |FreeBelow(subnet, claimed, a)|;
    InsideRange(subnet, a);
    if a != subnet.ip && Dotted(a) !in claimed && rank < Needed(order, requests) {
      assert order[..|order|] == order;
      NeededNone(order, requests);
      var k := RankTaken(order, requests, rank, |order|);
      assert GetsNth(subnet, claimed, rank, ips[order[k]]);
      NthFreeUnique(subnet, claimed, rank, a, Address(ips[order[k]]).value);
    }
  }

  lemma InsideRange(subnet: Net, a: nat)
    requires Proper(subnet) && Contains(subnet, a)
    ensures subnet.ip <= a < End(subnet)
  {
    ContainsRange(subnet, a);
  }

  ghost predicate Elsewhere(order: seq<Name>, requests: Requests, subnet: Net, gateway: Option<nat>, t: Text) {
    Address(t).Some? && Spared(subnet, Claimed(order, requests, gateway), Needed(order, requests), t)
  }

  /** A handed-out address is free: inside the subnet, not the gateway's, not a spared request's. */
  lemma HandedOutSound(order: seq<Name>, requests: Requests, subnet: Net, gateway: Option<nat>, ips: map<Name, Text>, n: Name)
    requires Accepted(order, requests, subnet, gateway, ips) && n in ips && n !in requests
    requires gateway.Some? ==> gateway.value < POW32
    ensures Inside(subnet, ips[n]) && Address(ips[n]) != gateway
    ensures forall t :: Elsewhere(order, requests, subnet, gateway, t) ==> Address(t) != Address(ips[n])
  {
    var k, a := Handout(order, requests, subnet, gateway, ips, n);
    EndFits(subnet);
    ContainsRange(subnet, a);
  }

  lemma {:induction false} RanksRise(order: seq<Name>, requests: Requests, k: nat, j: nat)
    requires k < j < |order| && order[k] !in requests
    ensures Needed(order[..k], requests) < Needed(order[..j], requests)
  {
    hide Needed;
    NeededStep(order, requests, k);
    NeededMono(order, requests, k + 1, j);
  }

  lemma RanksApart(subnet: Net, claimed: set<Text>, r: nat, a: nat, q: nat, b: nat)
    requires NthFree(subnet, claimed, r, a) && NthFree(subnet, claimed, q, b) && r != q
    ensures a != b
  {
    hide FreeBelow, Dotted;
  }

  /** Two services without a request get different addresses. */
  lemma HandedOutDiffer(order: seq<Name>, requests: Requests, subnet: Net, gateway: Option<nat>, ips: map<Name, Text>,
                        n: Name, m: Name)
    requires Accepted(order, requests, subnet, gateway, ips)
    requires n in ips && n !in requests && m in ips && m !in requests && n != m
    ensures Address(ips[n]) != Address(ips[m])
  {
    hide Needed, NthFree, Claimed, Dotted, Address, Planned, Acceptable, Proper, NoDup;
    var k, a := Handout(order, requests, subnet, gateway, ips, n);
    var j, b := Handout(order, requests, subnet, gateway, ips, m);
    if k < j {
      RanksRise(order, requests, k, j);
    } else {
      RanksRise(order, requests, j, k);
    }
    RanksApart(subnet, Claimed(order, requests, gateway), Needed(order[..k], requests), a, Needed(order[..j], requests), b);
  }

  lemma RequestInside(order: seq<Name>, requests: Requests, subnet: Net, gateway: Option<nat>, n: Name)
    requires Acceptable(order, requests, subnet, gateway) && n in Elems(order) && n in requests
    ensures Inside(subnet, requests[n])
  {
    var i :| 0 <= i < |order| && order[i] == n;
    assert AcceptableAt(order, requests, subnet, gateway, i);
  }

  lemma UnambiguousSound(order: seq<Name>, requests: Requests, subnet: Net, gateway: Option<nat>, ips: map<Name, Text>)
    requires Accepted(order, requests, subnet, gateway, ips) && Unambiguous(order, requests, subnet, gateway)
    requires gateway.Some? ==> gateway.value < POW32
    ensures Sound(subnet, gateway, ips)
  {
    hide Accepted, Spared, Claimed, Needed, Elems;
    forall n | n in ips ensures Inside(subnet, ips[n]) && Address(ips[n]) != gateway {
      PlanFacts(order, requests, subnet, gateway, ips, n);
    }
    forall n, m | n in ips && m in ips && n != m ensures Address(ips[n]) != Address(ips[m]) {
      PlanFacts(order, requests, subnet, gateway, ips, n);
      PlanFacts(order, requests, subnet, gateway, ips, m);
      if n !in requests && m !in requests {
        HandedOutDiffer(order, requests, subnet, gateway, ips, n, m);
      } else if n !in requests {
        HandedOutSound(order, requests, subnet, gateway, ips, n);
        assert Elsewhere(order, requests, subnet, gateway, ips[m]);
      } else if m !in requests {
        HandedOutSound(order, requests, subnet, gateway, ips, m);
        assert Elsewhere(order, requests, subnet, gateway, ips[n]);
      }
    }
  }

  /** What each entry of an unambiguous plan is. */
  lemma PlanFacts(order: seq<Name>, requests: Requests, subnet: Net, gateway: Option<nat>, ips: map<Name, Text>, n: Name)
    requires Accepted(order, requests, subnet, gateway, ips) && Unambiguous(order, requests, subnet, gateway) && n in ips
    requires gateway.Some? ==> gateway.value < POW32
    ensures Inside(subnet, ips[n]) && Address(ips[n]) != gateway
    ensures n in requests ==> n in Elems(order) && ips[n] == requests[n]
  {
    hide Spared, Claimed, Needed, Elems, Acceptable, Proper;
    if n in requests {
      Honoured(order, requests, subnet, gateway, ips, n);
      RequestInside(order, requests, subnet, gateway, n);
    } else {
      HandedOutSound(order, requests, subnet, gateway, ips, n);
    }
  }

  /** A plan is sound exactly when the requests are unambiguous. */
  lemma SoundExactly(order: seq<Name>, requests: Requests, subnet: Net, gateway: Option<nat>, ips: map<Name, Text>)
    requires Accepted(order, requests, subnet, gateway, ips)
    requires gateway.Some? ==> gateway.value < POW32
    ensures Sound(subnet, gateway, ips) <==> Unambiguous(order, requests, subnet, gateway)
  {
    hide Accepted, Spared, Claimed, Needed, Elems, Planned, Inside;
    if Unambiguous(order, requests, subnet, gateway) {
      UnambiguousSound(order, requests, subnet, gateway, ips);
    }
    if Sound(subnet, gateway, ips) {
      forall n | n in Elems(order) && n in requests ensures n in ips && ips[n] == requests[n] {
        AcceptedPlanned(order, requests, subnet, gateway, ips);
        Honoured(order, requests, subnet, gateway, ips, n);
      }
      forall n | n in Elems(order) && n in requests
        ensures Spared(subnet, Claimed(order, requests, gateway), Needed(order, requests), requests[n])
      {
        SparedNeeded(order, requests, subnet, gateway, ips, n);
      }
    }
  }

  lemma AcceptedPlanned(order: seq<Name>, requests: Requests, subnet: Net, gateway: Option<nat>, ips: map<Name, Text>)
    requires Accepted(order, requests, subnet, gateway, ips)
    ensures Planned(order, requests, subnet, gateway, ips)
  {
  }

  /** Two services may ask for one address, once canonically and once not, and both be given it. */
  lemma SpellingCollides(subnet: Net, gateway: Option<nat>, t: Text, x: Name, y: Name)
    requires Inside(subnet, t) && !Canonical(t) && Address(t) != gateway && x != y
    requires gateway.Some? ==> gateway.value < POW32
    ensures Acceptable([x, y], map[x := t, y := Dotted(Address(t).value)], subnet, gateway)
    ensures !Unambiguous([x, y], map[x := t, y := Dotted(Address(t).value)], subnet, gateway)
  {
    hide Dotted, Address, Contains;
    var order := [x, y];
    var requests := map[x := t, y := Dotted(Address(t).value)];
    assert order[..0] == [] && order[..1] == [x];
    assert Claimed([], requests, gateway) == Gateway(gateway);
    assert Elems([x]) == {x};
    assert Claimed([x], requests, gateway) == Gateway(gateway) + {t};
    assert order[0] in Elems(order) && order[1] in Elems(order);
  }

  /** In 10.0.0.0/24, "::ffff:10.0.0.2" and "10.0.0.2" are both accepted and are one address. */
  lemma MappedCollides(x: Name, y: Name)
    requires x != y
    ensures var requests := map[x := Text("::ffff:10.0.0.2"), y := Text("10.0.0.2")];
      Acceptable([x, y], requests, Net(0x0A000000, 24), None) && !Unambiguous([x, y], requests, Net(0x0A000000, 24), None)
  {
    hide Acceptable, Unambiguous, Contains, Address, Dotted, Canonical;
    TenMapped();
    ContainsTen();
    SpellingCollides(Net(0x0A000000, 24), None, Text("::ffff:10.0.0.2"), x, y);
  }

  lemma TenMapped()
    ensures Dotted(0x0A000002) == Text("10.0.0.2")
    ensures var t := Text("::ffff:10.0.0.2"); Address(t) == Some(0x0A000002) && !Canonical(t)
  {
    hide ParseIp, DottedChars;
    TenDotted();
    assert MAPPED + "10.0.0.2" == "::ffff:10.0.0.2";
    DottedBack(0x0A000002);
  }

  lemma TenDotted()
    ensures DottedChars(0x0A000002) == "10.0.0.2"
  {
    Numerals();
    hide Itoa;
    var v: nat := 0x0A000002;
    assert v / 0x100_0000 == 10 && v / 0x1_0000 % 256 == 0 && v / 0x100 % 256 == 0 && v % 256 == 2;
    assert Fields("10", "0", "0", "2") == "10.0.0.2";
  }

  lemma Numerals()
    ensures Itoa(10) == "10" && Itoa(0) == "0" && Itoa(2) == "2"
  {
    assert Itoa(1) == "1";
    assert Itoa(10) == Itoa(1) + [Digit(0)];
  }

  lemma ContainsTen()
    ensures Contains(Net(0x0A000000, 24), 0x0A000002)
  {
    var n := Net(0x0A000000, 24);
    assert Base(n) == 0x0A000000;
    assert Pow2(8) == 256;
    hide Contains, Base;
    ContainsRange(n, 0x0A000002);
  }
}
