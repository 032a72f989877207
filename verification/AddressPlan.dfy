/** Compose address planning: explicit addresses first, then the lowest free ones. */
module AddressPlan {
  import opened Bytes
  import opened Ipv4
  import opened Ipv4Text
  import opened Names
  import opened Prelude

  datatype Plan =
    | Assigned(ips: map<Name, Text>)
    | NoSubnet
    | BadAddress(name: Name)
    | OutsideSubnet(name: Name)
    | Conflict(name: Name)
    | NoFreeAddress

  /** The services that ask for an address, and the text they ask with, blanks trimmed and not empty. */
  type Requests = map<Name, Text>

  /** What callers pass: an IPv4 network given by its first address. */
  predicate Proper(subnet: Net) {
    Ok(subnet) && Base(subnet) == subnet.ip
  }

  /** One past the last address of the subnet. */
  function End(subnet: Net): nat {
    subnet.ip + Pow2(HostBits(subnet))
  }

  ghost predicate Inside(subnet: Net, t: Text) {
    Address(t).Some? && Contains(subnet, Address(t).value)
  }

  function Gateway(gateway: Option<nat>): set<Text> {
    if gateway.Some? then {Dotted(gateway.value)} else {}
  }

  /** The texts reserved by the gateway and by the requests of the listed services. */
  ghost function Claimed(order: seq<Name>, requests: Requests, gateway: Option<nat>): set<Text> {
    Gateway(gateway) + set n | n in Elems(order) && n in requests :: requests[n]
  }

  /** Each request names an address of the subnet and repeats no text, the gateway's included. */
  ghost predicate Acceptable(order: seq<Name>, requests: Requests, subnet: Net, gateway: Option<nat>) {
    forall i :: 0 <= i < |order| ==> AcceptableAt(order, requests, subnet, gateway, i)
  }

  ghost predicate AcceptableAt(order: seq<Name>, requests: Requests, subnet: Net, gateway: Option<nat>, i: nat) {
    i < |order| && order[i] in requests ==>
      Inside(subnet, requests[order[i]]) && requests[order[i]] !in Claimed(order[..i], requests, gateway)
  }

  ghost function Requested(order: seq<Name>, requests: Requests): map<Name, Text> {
    map n | n in Elems(order) && n in requests :: requests[n]
  }

  /** How many of the listed services ask for no particular address. */
  function Needed(order: seq<Name>, requests: Requests): nat {
    if order == [] then
      0
    else
      var k := |order| - 1;
      Needed(order[..k], requests) + (if order[k] in requests then 0 else 1)
  }

  /** Addresses above the network address and below k that nothing claims. */
  function FreeBelow(subnet: Net, claimed: set<Text>, k: nat): set<nat> {
    set a: nat | subnet.ip < a < k && Dotted(a) !in claimed
  }

  lemma FreeStep(subnet: Net, claimed: set<Text>, k: nat)
    requires subnet.ip < k
    ensures FreeBelow(subnet, claimed, k + 1)
      == FreeBelow(subnet, claimed, k) + (if Dotted(k) in claimed then {} else {k})
    ensures k !in FreeBelow(subnet, claimed, k)
  {
    hide Dotted, Address;
  }

  lemma ClaimedStep(order: seq<Name>, requests: Requests, gateway: Option<nat>, i: nat)
    requires i < |order|
    ensures Claimed(order[..i + 1], requests, gateway)
      == Claimed(order[..i], requests, gateway) + (if order[i] in requests then {requests[order[i]]} else {})
    ensures Requested(order[..i + 1], requests)
      == if order[i] in requests then Requested(order[..i], requests)[order[i] := requests[order[i]]]
         else Requested(order[..i], requests)
  {
    assert order[..i + 1] == order[..i] + [order[i]];
    ElemsAppend(order[..i], order[i]);
  }

  lemma ClaimedNone(order: seq<Name>, requests: Requests, gateway: Option<nat>)
    ensures Claimed(order[..0], requests, gateway) == Gateway(gateway) && Requested(order[..0], requests) == map[]
  {
  }

  /** The error names the first service whose request is at fault, and how. */
  ghost predicate Rejects(order: seq<Name>, requests: Requests, subnet: Net, gateway: Option<nat>, plan: Plan) {
    exists i :: RejectsAt(order, requests, subnet, gateway, plan, i)
  }

  ghost predicate RejectsAt(order: seq<Name>, requests: Requests, subnet: Net, gateway: Option<nat>, plan: Plan, i: nat) {
    i < |order| && order[i] in requests
    && (forall j :: 0 <= j < i ==> AcceptableAt(order, requests, subnet, gateway, j))
    && var t := requests[order[i]];
       match plan
       case BadAddress(n) => n == order[i] && Address(t).None?
       case OutsideSubnet(n) => n == order[i] && Address(t).Some? && !Inside(subnet, t)
       case Conflict(n) => n == order[i] && Inside(subnet, t) && t in Claimed(order[..i], requests, gateway)
       case _ => false
  }

  /** First pass: the explicit addresses. */
  method PlaceRequests(order: seq<Name>, requests: Requests, subnet: Net, gateway: Option<nat>)
    returns (plan: Plan, reserved: set<Text>)
    ensures plan.Assigned? <==> Acceptable(order, requests, subnet, gateway)
    ensures plan.Assigned? ==> plan.ips == Requested(order, requests) && reserved == Claimed(order, requests, gateway)
    ensures plan != NoFreeAddress && plan != NoSubnet
    ensures !plan.Assigned? ==> Rejects(order, requests, subnet, gateway, plan)
  {
    hide Claimed, Requested, Contains, Gateway, Elems;
    reserved := GatewayTexts(gateway);
    var ips: map<Name, Text> := map[];
    ClaimedNone(order, requests, gateway);
    for i := 0 to |order|
      invariant reserved == Claimed(order[..i], requests, gateway) && ips == Requested(order[..i], requests)
      invariant forall j :: 0 <= j < i ==> AcceptableAt(order, requests, subnet, gateway, j)
    {
      var name := order[i];
      ClaimedStep(order, requests, gateway, i);
      if name in requests {
        var text := requests[name];
        if Address(text).None? {
          assert !AcceptableAt(order, requests, subnet, gateway, i);
          assert RejectsAt(order, requests, subnet, gateway, BadAddress(name), i);
          return BadAddress(name), reserved;
        }
        if !Contains(subnet, Address(text).value) {
          assert !AcceptableAt(order, requests, subnet, gateway, i);
          assert RejectsAt(order, requests, subnet, gateway, OutsideSubnet(name), i);
          return OutsideSubnet(name), reserved;
        }
        if text in reserved {
          assert !AcceptableAt(order, requests, subnet, gateway, i);
          assert RejectsAt(order, requests, subnet, gateway, Conflict(name), i);
          return Conflict(name), reserved;
        }
        reserved := reserved + {text};
        ips := ips[name := text];
      }
    }
    assert order[..|order|] == order;
    return Assigned(ips), reserved;
  }

  method GatewayTexts(gateway: Option<nat>) returns (r: set<Text>)
    ensures r == Gateway(gateway)
  {
    r := Gateway(gateway);
  }

  /** next stands at n: its bytes are n's, except that past the last address they wrap to 0. */
  ghost predicate Stands(subnet: Net, next: bytes, n: nat) {
    |next| == 4 && subnet.ip < n <= End(subnet) && BeVal(next) == Wrap(n, 4)
  }

  lemma {:induction false} Pow2Mono(a: nat, b: nat)
    requires a <= b
    ensures Pow2(a) <= Pow2(b)
  {
    if a < b {
      Pow2Mono(a, b - 1);
    }
  }

  lemma Pow2Top()
    ensures Pow2(31) == 0x8000_0000 && Pow2(32) == POW32
  {
    assert Pow2(3) == 8 && Pow2(5) == 32 && Pow2(7) == 128 && Pow2(9) == 512 && Pow2(11) == 2048;
    assert Pow2(13) == 8192 && Pow2(15) == 0x8000 && Pow2(17) == 0x2_0000 && Pow2(19) == 0x8_0000;
    assert Pow2(21) == 0x20_0000 && Pow2(23) == 0x80_0000 && Pow2(25) == 0x200_0000;
    assert Pow2(27) == 0x800_0000 && Pow2(29) == 0x2000_0000;
  }

  /** An aligned block within 32 bits ends within 32 bits. */
  lemma {:induction false} BlockFits(v: nat, h: nat, w: nat)
    requires Clear(v, h) == v && v < Pow2(w) && h <= w
    ensures v + Pow2(h) <= Pow2(w)
  {
    if h > 0 {
      assert v == 2 * Clear(v / 2, h - 1);
      BlockFits(v / 2, h - 1, w - 1);
    }
  }

  lemma EndFits(subnet: Net)
    requires Proper(subnet)
    ensures End(subnet) <= POW32
    ensures End(subnet) == POW32 && subnet.prefix >= 1 ==> subnet.ip > 0
  {
    Pow2Top();
    BlockFits(subnet.ip, HostBits(subnet), 32);
    if subnet.prefix >= 1 {
      Pow2Mono(HostBits(subnet), 31);
    }
  }

  /**
   * Testing next against the subnet is testing whether n is still below the end, except that in
   * the whole address space next wraps round to 0 and stays inside.
   */
  lemma {:induction false} StandsInside(subnet: Net, next: bytes, n: nat)
    requires Proper(subnet) && Stands(subnet, next, n)
    ensures n < End(subnet) ==> Contains(subnet, BeVal(next)) && BeVal(next) == n && n < POW32
    ensures n == End(subnet) && subnet.prefix >= 1 ==> !Contains(subnet, BeVal(next))
  {
    hide Wrap, Pow2, Clear, BeVal, Pow256, Contains;
    EndFits(subnet);
    PowValues();
    ContainsRange(subnet, BeVal(next));
    if n < POW32 {
      WrapFits(n, 4);
    } else {
      WrapAround(4);
    }
  }

  lemma {:induction false} StandsNext(subnet: Net, next: bytes, n: nat)
    requires Proper(subnet) && Stands(subnet, next, n) && n < End(subnet)
    ensures Stands(subnet, AddTo(next, 1), n + 1)
  {
    StandsInside(subnet, next, n);
    AddToValue(next, 1);
  }

  /** Some address from n on is not reserved. */
  ghost predicate Left(subnet: Net, reserved: set<Text>, n: nat) {
    exists a: nat :: n <= a < End(subnet) && Dotted(a) !in reserved
  }

  lemma LeftBelow(subnet: Net, reserved: set<Text>, n: nat)
    ensures Left(subnet, reserved, n) ==> n < End(subnet)
  {
  }

  lemma LeftNext(subnet: Net, reserved: set<Text>, n: nat)
    requires Dotted(n) in reserved
    ensures Left(subnet, reserved, n) ==> Left(subnet, reserved, n + 1)
  {
    hide Dotted, End;
    if Left(subnet, reserved, n) {
      var a: nat :| n <= a < End(subnet) && Dotted(a) !in reserved;
      assert n + 1 <= a;
    }
  }

  ghost predicate AllReserved(reserved: set<Text>, lo: nat, hi: nat) {
    forall a: nat :: lo <= a < hi ==> Dotted(a) in reserved
  }

  lemma NoneReserved(reserved: set<Text>, n: nat)
    ensures AllReserved(reserved, n, n)
  {
  }

  lemma OneReserved(reserved: set<Text>, lo: nat, a: nat)
    requires AllReserved(reserved, lo, a) && Dotted(a) in reserved
    ensures AllReserved(reserved, lo, a + 1)
  {
    hide Dotted;
  }

  /** The lowest address from n on whose text is not reserved. */
  method Take(subnet: Net, next: array<byte>, reserved: set<Text>, ghost n: nat)
    returns (r: Option<nat>, ghost n': nat)
    requires Proper(subnet) && Stands(subnet, next[..], n)
    requires subnet.prefix >= 1 || Left(subnet, reserved, n)
    modifies next
    ensures Stands(subnet, next[..], n')
    ensures r.None? ==> n' == End(subnet) && AllReserved(reserved, n, n')
    ensures r.Some? ==> n' == r.value + 1 && n <= r.value && Dotted(r.value) !in reserved && AllReserved(reserved, n, r.value)
  {
    hide Stands, Proper, Left, AllReserved, Dotted, Address, Contains, End, AddTo, BeVal;
    n' := n;
    NoneReserved(reserved, n);
    while true
      invariant Stands(subnet, next[..], n') && n <= n' && AllReserved(reserved, n, n')
      invariant subnet.prefix >= 1 || Left(subnet, reserved, n')
      decreases End(subnet) - n'
    {
      StandsInside(subnet, next[..], n');
      StandsBound(subnet, next[..], n');
      LeftBelow(subnet, reserved, n');
      if !Contains(subnet, BeVal(next[..])) {
        return None, n';
      }
      StandsNext(subnet, next[..], n');
      var candidate := BeVal(next[..]);
      Increment(next);
      n' := n' + 1;
      if Dotted(candidate) in reserved {
        LeftNext(subnet, reserved, candidate);
        OneReserved(reserved, n, candidate);
        continue;
      }
      return Some(candidate), n';
    }
  }

  lemma StandsBound(subnet: Net, next: bytes, n: nat)
    requires Stands(subnet, next, n)
    ensures subnet.ip < n <= End(subnet)
  {
  }
}
