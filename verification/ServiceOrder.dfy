/** Compose start order: Kahn's sort over depends_on. */
module ServiceOrder {
  import opened Names

  /** Each service and the names it depends on. */
  type Deps = map<Name, set<Name>>

  predicate Known(g: Deps) {
    forall n :: n in g ==> g[n] <= g.Keys
  }

  /** Every listed service is in g and its dependencies come before it. */
  ghost predicate DepsFirst(g: Deps, t: seq<Name>) {
    forall i :: 0 <= i < |t| ==> t[i] in g && g[t[i]] <= Elems(t[..i])
  }

  /** t lists every service once, dependencies first. */
  ghost predicate Topological(g: Deps, t: seq<Name>) {
    NoDup(t) && Elems(t) == g.Keys && DepsFirst(g, t)
  }

  ghost predicate Sortable(g: Deps) {
    exists t :: Topological(g, t)
  }

  /** A set of services each of which depends on another member: no member can ever start. */
  ghost predicate Knot(g: Deps, s: set<Name>) {
    s != {} && s <= g.Keys && forall n :: n in s ==> Meets(g[n], s)
  }

  ghost predicate Meets<T(!new)>(a: set<T>, b: set<T>) {
    exists x :: x in a && x in b
  }

  /** Services that wait for nothing beyond the ones placed. */
  ghost predicate Free(g: Deps, order: seq<Name>, n: Name) {
    n in g && g[n] <= Elems(order)
  }

  /** What holds between two steps of the sort. */
  ghost predicate Underway(g: Deps, queue: seq<Name>, order: seq<Name>) {
    NoDup(order + queue) && DepsFirst(g, order)
    && forall n :: n in order + queue <==> Free(g, order, n)
  }

  /** The services that placing name sets free. */
  ghost function Freed(g: Deps, order: seq<Name>, name: Name): set<Name> {
    set d | d in g && name in g[d] && g[d] <= Elems(order + [name])
  }

  ghost function Roots(g: Deps): set<Name> {
    set n | n in g && g[n] == {}
  }

  lemma StartUnderway(g: Deps)
    ensures Underway(g, Sorted(Roots(g)), [])
  {
    var q := Sorted(Roots(g));
    AscendingNoDup(q);
    assert [] + q == q;
    forall n ensures n in q <==> Free(g, [], n) {
      assert n in q <==> n in Elems(q);
    }
  }

  lemma StepUnderway(g: Deps, queue: seq<Name>, order: seq<Name>)
    requires Underway(g, queue, order) && queue != []
    ensures Underway(g, queue[1..] + Sorted(Freed(g, order, queue[0])), order + [queue[0]])
  {
    hide Free, Freed, NoDup, DepsFirst, Sorted;
    var name := queue[0];
    var order' := order + [name];
    var more := Sorted(Freed(g, order, name));
    assert order + queue == order' + queue[1..];
    assert name in order + queue;
    HeadNotPlaced(queue, order);
    StepDepsFirst(g, order, name);
    AscendingNoDup(more);
    forall n ensures n in order' + (queue[1..] + more) <==> Free(g, order', n) {
      StepMember(g, queue, order, n);
      assert n in more <==> n in Elems(more);
      assert n in order' + (queue[1..] + more) <==> n in (order' + queue[1..]) + more;
    }
    forall n | n in more ensures n !in order + queue {
      assert n in Elems(more);
      StepMember(g, queue, order, n);
    }
    NoDupConcat(order + queue, more);
    assert order + queue + more == order' + (queue[1..] + more);
  }

  /** A service is free after the step if it was free before, or the step frees it; never both. */
  lemma StepMember(g: Deps, queue: seq<Name>, order: seq<Name>, n: Name)
    requires Underway(g, queue, order) && queue != []
    ensures Free(g, order + [queue[0]], n) <==> n in order + queue || n in Freed(g, order, queue[0])
    ensures !(n in order + queue && n in Freed(g, order, queue[0]))
  {
    HeadNotPlaced(queue, order);
    ElemsAppend(order, queue[0]);
    assert n in order + queue <==> Free(g, order, n);
  }

  lemma HeadNotPlaced(queue: seq<Name>, order: seq<Name>)
    requires NoDup(order + queue) && queue != []
    ensures queue[0] !in order
  {
    var all := order + queue;
    forall i | 0 <= i < |order| ensures order[i] != queue[0] {
      assert all[i] != all[|order|];
    }
  }

  lemma NoDupConcat(a: seq<Name>, b: seq<Name>)
    requires NoDup(a) && NoDup(b) && forall n :: n in b ==> n !in a
    ensures NoDup(a + b)
  {
    var c := a + b;
    forall i, j | 0 <= i < j < |c| ensures c[i] != c[j] {
      if i < |a| <= j {
        assert b[j - |a|] in b;
      }
    }
  }

  lemma StepDepsFirst(g: Deps, order: seq<Name>, name: Name)
    requires DepsFirst(g, order) && Free(g, order, name)
    ensures DepsFirst(g, order + [name])
  {
    var t := order + [name];
    forall i | 0 <= i < |t| ensures t[i] in g && g[t[i]] <= Elems(t[..i]) {
      if i < |order| {
        assert t[..i] == order[..i];
      } else {
        assert t[..i] == order;
      }
    }
  }

  lemma UnderwayRoom(g: Deps, queue: seq<Name>, order: seq<Name>)
    requires Underway(g, queue, order)
    ensures |order| + |queue| <= |g|
  {
    var all := order + queue;
    ElemsSize(all);
    forall n | n in Elems(all) ensures n in g.Keys {
      assert Free(g, order, n);
    }
    SubsetSize(Elems(all), g.Keys);
    assert |g.Keys| == |g|;
  }

  /** The sort's remaining run: place the queue's head, then queue what it set free, ascending. */
  ghost function Run(g: Deps, queue: seq<Name>, order: seq<Name>): (r: seq<Name>)
    requires Underway(g, queue, order)
    ensures Underway(g, [], r)
    decreases |g| - |order|
  {
    if queue == [] then
      order
    else
      UnderwayRoom(g, queue, order);
      StepUnderway(g, queue, order);
      Run(g, queue[1..] + Sorted(Freed(g, order, queue[0])), order + [queue[0]])
  }

  /** The order the sort ends with: a function of the services alone. */
  ghost function Order(g: Deps): (r: seq<Name>)
    ensures Underway(g, [], r)
  {
    StartUnderway(g);
    Run(g, Sorted(Roots(g)), [])
  }

  /** Placing all services is finding a topological order. */
  lemma OrderSound(g: Deps)
    requires |Order(g)| == |g|
    ensures Topological(g, Order(g)) && Known(g)
  {
    var r := Order(g);
    assert r + [] == r;
    ElemsSize(r);
    forall n | n in Elems(r) ensures n in g.Keys {
      assert n in r + [];
    }
    assert |g.Keys| == |g|;
    SubsetSize(Elems(r), g.Keys);
    TopologicalKnown(g, r);
  }

  lemma TopologicalParts(g: Deps, t: seq<Name>)
    requires Topological(g, t)
    ensures NoDup(t) && Elems(t) == g.Keys
  {
  }

  lemma TopologicalAt(g: Deps, t: seq<Name>, i: nat)
    requires Topological(g, t) && i < |t|
    ensures t[i] in g && g[t[i]] <= Elems(t[..i])
  {
  }

  lemma TopologicalKnown(g: Deps, t: seq<Name>)
    requires Topological(g, t)
    ensures Known(g)
  {
    forall n | n in g ensures g[n] <= g.Keys {
      assert n in Elems(t);
      var i :| 0 <= i < |t| && t[i] == n;
      assert Elems(t[..i]) <= Elems(t);
    }
  }

  lemma {:induction false} PlacedSoFar(g: Deps, t: seq<Name>, k: nat)
    requires Topological(g, t) && k <= |t|
    ensures forall i :: 0 <= i < k ==> t[i] in Order(g)
  {
    if k > 0 {
      PlacedSoFar(g, t, k - 1);
      var r := Order(g);
      assert r + [] == r;
      assert Elems(t[..k - 1]) <= Elems(r);
      assert Free(g, r, t[k - 1]);
    }
  }

  /** If any topological order exists, the sort places everything. */
  lemma OrderComplete(g: Deps)
    ensures Sortable(g) <==> |Order(g)| == |g|
  {
    if |Order(g)| == |g| {
      OrderSound(g);
    }
    if Sortable(g) {
      var t :| Topological(g, t);
      var r := Order(g);
      PlacedSoFar(g, t, |t|);
      assert Elems(t) <= Elems(r);
      UnderwayRoom(g, [], r);
      assert r + [] == r;
      ElemsSize(r);
      ElemsSize(t);
      assert |g.Keys| == |g|;
      SubsetSize(Elems(t), Elems(r));
    }
  }

  /** With every dependency known, the only obstacle is a knot. */
  lemma SortableExactly(g: Deps)
    requires Known(g)
    ensures Sortable(g) <==> !exists s :: Knot(g, s)
  {
    OrderComplete(g);
    var r := Order(g);
    assert r + [] == r;
    if !Sortable(g) {
      var left := g.Keys - Elems(r);
      ElemsSize(r);
      UnderwayRoom(g, [], r);
      assert |g.Keys| == |g|;
      SmallerMisses(Elems(r), g.Keys);
      forall n | n in left ensures Meets(g[n], left) {
        assert !Free(g, r, n);
        var d :| d in g[n] && d !in Elems(r);
        assert d in left;
      }
      assert Knot(g, left);
    } else {
      var t :| Topological(g, t);
      assert t[..|t|] == t;
      forall s ensures !Knot(g, s) {
        if Knot(g, s) {
          KnotBlocks(g, t, s, |t|);
        }
      }
    }
  }

  lemma {:induction false} KnotBlocks(g: Deps, t: seq<Name>, s: set<Name>, k: nat)
    requires Topological(g, t) && Knot(g, s) && k <= |t|
    ensures Elems(t[..k]) !! s
  {
    hide Elems, Meets, NoDup, Topological, Knot;
    if k > 0 {
      KnotBlocks(g, t, s, k - 1);
      KnotAt(g, t, s, k - 1);
    } else {
      ElemsEnds(t);
    }
  }

  lemma KnotAt(g: Deps, t: seq<Name>, s: set<Name>, k: nat)
    requires Topological(g, t) && Knot(g, s) && k < |t| && Elems(t[..k]) !! s
    ensures t[k] !in s && Elems(t[..k + 1]) == Elems(t[..k]) + {t[k]}
  {
    KnotStep(g[t[k]], Elems(t[..k]), s);
    ElemsStep(t, k);
    hide Elems, Meets, NoDup;
  }

  lemma KnotStep(deps: set<Name>, placed: set<Name>, s: set<Name>)
    requires deps <= placed && placed !! s
    ensures !Meets(deps, s)
  {
  }
}
