/** The sort itself: counts of unplaced dependencies and a queue of free services. */
module ServiceSort {
  import opened Names
  import opened ServiceOrder

  datatype SortResult = Ordered(order: seq<Name>) | UnknownDependency | Circular

  type Lists = map<Name, seq<Name>>

  /** A Go map lookup: a missing key reads as the empty list. */
  function At(m: Lists, d: Name): seq<Name> {
    if d in m then m[d] else []
  }

  ghost function Dependents(g: Deps, d: Name): set<Name> {
    set n | n in g && d in g[n]
  }

  /** The tallies after the edges in seen have been counted. */
  ghost predicate Tallied(seen: Deps, indegree: map<Name, nat>, dependents: Lists) {
    indegree.Keys == seen.Keys
    && (forall n :: n in seen ==> indegree[n] == |seen[n]|)
    && forall d :: ListsDependents(seen, d, At(dependents, d))
  }

  ghost predicate ListsDependents(seen: Deps, d: Name, l: seq<Name>) {
    NoDup(l) && Elems(l) == Dependents(seen, d)
  }

  lemma TallyEdge(seen: Deps, indegree: map<Name, nat>, dependents: Lists, name: Name, dep: Name)
    requires Tallied(seen, indegree, dependents) && name in seen && dep !in seen[name]
    ensures Tallied(seen[name := seen[name] + {dep}], indegree[name := indegree[name] + 1],
                    dependents[dep := At(dependents, dep) + [name]])
  {
    var seen' := seen[name := seen[name] + {dep}];
    var dependents' := dependents[dep := At(dependents, dep) + [name]];
    forall d ensures ListsDependents(seen', d, At(dependents', d)) {
      var l := At(dependents, d);
      assert ListsDependents(seen, d, l);
      if d == dep {
        assert name !in Elems(l);
        AppendNoDup(l, name);
        ElemsAppend(l, name);
        assert Dependents(seen', d) == Dependents(seen, d) + {name};
      } else {
        assert Dependents(seen', d) == Dependents(seen, d);
      }
    }
  }

  /** dependsOn: a service's dependencies, ascending. */
  method DependsOn(deps: set<Name>) returns (r: seq<Name>)
    ensures r == Sorted(deps)
  {
    var names := Listing(deps);
    r := SortStrings(names);
  }

  /** Counts one service's dependencies, unless one is unknown. */
  method TallyService(g: Deps, name: Name, ghost seen: Deps, indegree: map<Name, nat>, dependents: Lists)
    returns (known: bool, indegree': map<Name, nat>, dependents': Lists)
    requires name in g && name in seen && seen[name] == {} && Tallied(seen, indegree, dependents)
    ensures known <==> g[name] <= g.Keys
    ensures known ==> Tallied(seen[name := g[name]], indegree', dependents')
  {
    hide Tallied, Elems, NoDup, Sorted, Ascending;
    indegree', dependents' := indegree, dependents;
    var deps := DependsOn(g[name]);
    AscendingNoDup(deps);
    ElemsEnds(deps);
    assert seen[name := {}] == seen;
    for j := 0 to |deps|
      invariant Tallied(seen[name := Elems(deps[..j])], indegree', dependents')
      invariant Elems(deps[..j]) <= g.Keys
    {
      var dep := deps[j];
      ElemsStep(deps, j);
      if dep !in g {
        return false, indegree', dependents';
      }
      ghost var seen' := seen[name := Elems(deps[..j])];
      TallyEdge(seen', indegree', dependents', name, dep);
      indegree', dependents' := Bump(seen', indegree', dependents', name, dep);
      assert seen'[name := Elems(deps[..j + 1])] == seen[name := Elems(deps[..j + 1])];
    }
    known := true;
  }

  /** One dependency counted. */
  method Bump(ghost seen: Deps, indegree: map<Name, nat>, dependents: Lists, name: Name, dep: Name)
    returns (indegree': map<Name, nat>, dependents': Lists)
    requires name in seen && Tallied(seen, indegree, dependents)
    ensures name in indegree && indegree' == indegree[name := indegree[name] + 1]
    ensures dependents' == dependents[dep := At(dependents, dep) + [name]]
  {
    indegree' := indegree[name := indegree[name] + 1];
    dependents' := dependents[dep := At(dependents, dep) + [name]];
  }

  /** The dependencies of the services in done; none for the others. */
  ghost function Upto(g: Deps, done: set<Name>): Deps {
    map n | n in g :: if n in done then g[n] else {}
  }

  lemma UptoStep(g: Deps, done: set<Name>, name: Name)
    requires name in g && name !in done
    ensures name in Upto(g, done) && Upto(g, done)[name] == {}
    ensures Upto(g, done + {name}) == Upto(g, done)[name := g[name]]
  {
  }

  lemma UptoEnds(g: Deps)
    ensures Tallied(Upto(g, {}), map n | n in g :: 0, map[]) && Upto(g, g.Keys) == g
  {
    forall d ensures ListsDependents(Upto(g, {}), d, At(map[], d)) {
      assert Dependents(Upto(g, {}), d) == {};
    }
  }

  /** Counts every dependency, visiting the services in any order. */
  method Tally(g: Deps) returns (known: bool, indegree: map<Name, nat>, dependents: Lists)
    ensures known <==> Known(g)
    ensures known ==> Tallied(g, indegree, dependents)
  {
    hide Tallied, Elems, NoDup, Upto;
    indegree := map n | n in g :: 0;
    dependents := map[];
    UptoEnds(g);
    var names := Listing(g.Keys);
    ElemsEnds(names);
    for i := 0 to |names|
      invariant Tallied(Upto(g, Elems(names[..i])), indegree, dependents)
      invariant forall n :: n in Elems(names[..i]) ==> n in g && g[n] <= g.Keys
    {
      var name := names[i];
      ElemsStep(names, i);
      ghost var done := Elems(names[..i]);
      UptoStep(g, done, name);
      known, indegree, dependents := TallyService(g, name, Upto(g, done), indegree, dependents);
      if !known {
        return;
      }
    }
    known := true;
  }

  /** The lists of dependents, each sorted. */
  ghost predicate Listed(g: Deps, dependents: Lists) {
    forall d :: At(dependents, d) == Sorted(Dependents(g, d))
  }

  method SortLists(g: Deps, dependents: Lists) returns (r: Lists)
    requires forall d :: ListsDependents(g, d, At(dependents, d))
    ensures Listed(g, r)
  {
    r := dependents;
    var keys := Listing(dependents.Keys);
    for i := 0 to |keys|
      invariant r.Keys == dependents.Keys
      invariant forall d :: d in dependents && d in keys[..i] ==> r[d] == Sorted(Dependents(g, d))
      invariant forall d :: d in dependents && d !in keys[..i] ==> r[d] == dependents[d]
    {
      var d := keys[i];
      assert d in Elems(keys);
      assert d !in keys[..i];
      assert ListsDependents(g, d, At(dependents, d));
      var l := SortStrings(r[d]);
      r := r[d := l];
      assert keys[..i + 1] == keys[..i] + [d];
    }
    forall d ensures At(r, d) == Sorted(Dependents(g, d)) {
      assert ListsDependents(g, d, At(dependents, d));
      if d in dependents {
        assert d in Elems(keys);
        assert d in keys[..|keys|];
      } else {
        assert Dependents(g, d) == {};
      }
    }
  }

  /** Each count is the number of dependencies not yet placed. */
  ghost predicate Counts(g: Deps, order: seq<Name>, indegree: map<Name, nat>) {
    indegree.Keys == g.Keys && forall n :: n in g ==> indegree[n] == |g[n] - Elems(order)|
  }

  lemma CountDrop(a: set<Name>, placed: set<Name>, x: Name)
    requires x !in placed
    ensures |a - (placed + {x})| == |a - placed| - (if x in a then 1 else 0)
  {
    if x in a {
      assert a - (placed + {x}) == (a - placed) - {x};
    } else {
      assert a - (placed + {x}) == a - placed;
    }
  }

  lemma CountZero(a: set<Name>, placed: set<Name>)
    ensures |a - placed| == 0 <==> a <= placed
  {
    if a <= placed {
      assert a - placed == {};
    } else {
      var x :| x in a && x !in placed;
      assert x in a - placed;
    }
  }

  /** The counts midway: those of done are down by the new placement. */
  ghost predicate Dropping(g: Deps, order: seq<Name>, name: Name, done: seq<Name>, indegree: map<Name, nat>) {
    indegree.Keys == g.Keys
    && forall n :: n in g ==> indegree[n] == |g[n] - Elems(if n in done then order + [name] else order)|
  }

  ghost predicate FreedAmong(g: Deps, order: seq<Name>, done: seq<Name>, freed: seq<Name>) {
    forall n :: n in freed <==> n in done && n in g && g[n] <= Elems(order)
  }

  lemma DropNext(g: Deps, order: seq<Name>, name: Name, done: seq<Name>, indegree: map<Name, nat>, d: Name)
    requires Dropping(g, order, name, done, indegree)
    requires d in g && name in g[d] && name !in order && d !in done
    ensures d in indegree && indegree[d] > 0 && Dropping(g, order, name, done + [d], indegree[d := indegree[d] - 1])
    ensures indegree[d] == 1 <==> g[d] <= Elems(order + [name])
  {
    ElemsAppend(order, name);
    CountDrop(g[d], Elems(order), name);
    CountZero(g[d], Elems(order + [name]));
  }

  /** Takes name off its dependents' counts and returns those that became free. */
  method Release(g: Deps, order: seq<Name>, name: Name, list: seq<Name>, indegree: map<Name, nat>)
    returns (indegree': map<Name, nat>, freed: seq<Name>)
    requires Counts(g, order, indegree) && name !in order && list == Sorted(Dependents(g, name))
    ensures Counts(g, order + [name], indegree') && freed == Sorted(Freed(g, order, name))
  {
    hide Counts, Dropping, FreedAmong, Ascending, Freed, Dependents, Elems, Sorted;
    indegree', freed := indegree, [];
    ReleaseStart(g, order, name, indegree);
    assert list[..0] == [];
    for k := 0 to |list|
      invariant Dropping(g, order, name, list[..k], indegree')
      invariant FreedAmong(g, order + [name], list[..k], freed) && Ascending(freed)
    {
      var d := list[k];
      DependentAt(g, name, list, k);
      DropNext(g, order, name, list[..k], indegree', d);
      FreedNext(g, order + [name], list, k, freed);
      indegree' := indegree'[d := indegree'[d] - 1];
      if indegree'[d] == 0 {
        freed := freed + [d];
      }
    }
    assert list[..|list|] == list;
    ReleaseDone(g, order, name, list, indegree', freed);
  }

  lemma DependentAt(g: Deps, name: Name, list: seq<Name>, k: nat)
    requires list == Sorted(Dependents(g, name)) && k < |list|
    ensures list[k] in g && name in g[list[k]] && list[k] !in list[..k] && Ascending(list)
    ensures list[..k + 1] == list[..k] + [list[k]]
  {
    AscendingNoDup(list);
    assert list[k] in Elems(list);
  }

  lemma ReleaseStart(g: Deps, order: seq<Name>, name: Name, indegree: map<Name, nat>)
    requires Counts(g, order, indegree)
    ensures Dropping(g, order, name, [], indegree) && FreedAmong(g, order + [name], [], []) && Ascending([])
  {
  }

  lemma FreedNext(g: Deps, order: seq<Name>, list: seq<Name>, k: nat, freed: seq<Name>)
    requires k < |list| && list[k] in g && Ascending(list) && Ascending(freed)
    requires FreedAmong(g, order, list[..k], freed)
    ensures g[list[k]] <= Elems(order) ==>
      FreedAmong(g, order, list[..k] + [list[k]], freed + [list[k]]) && Ascending(freed + [list[k]])
    ensures !(g[list[k]] <= Elems(order)) ==> FreedAmong(g, order, list[..k] + [list[k]], freed)
  {
    forall i | 0 <= i < |freed| ensures Before(freed[i], list[k]) {
      assert freed[i] in list[..k];
    }
  }

  lemma ReleaseDone(g: Deps, order: seq<Name>, name: Name, list: seq<Name>, indegree: map<Name, nat>,
                    freed: seq<Name>)
    requires list == Sorted(Dependents(g, name)) && name !in order
    requires Dropping(g, order, name, list, indegree)
    requires FreedAmong(g, order + [name], list, freed) && Ascending(freed)
    ensures Counts(g, order + [name], indegree) && freed == Sorted(Freed(g, order, name))
  {
    forall n | n in g ensures indegree[n] == |g[n] - Elems(order + [name])| {
      assert n in list <==> n in Elems(list);
      if n !in list {
        ElemsAppend(order, name);
        CountDrop(g[n], Elems(order), name);
      }
    }
    forall n ensures n in Elems(freed) <==> n in Freed(g, order, name) {
      assert n in list <==> n in Elems(list);
    }
    assert Elems(freed) == Freed(g, order, name);
    SortedIs(Freed(g, order, name), freed);
  }

  /** The services that depend on nothing, ascending. */
  method InitialQueue(g: Deps, names: seq<Name>, indegree: map<Name, nat>) returns (queue: seq<Name>)
    requires names == Sorted(g.Keys) && Counts(g, [], indegree)
    ensures queue == Sorted(Roots(g))
  {
    hide Counts, FreedAmong, Ascending, Roots, Elems, Sorted;
    queue := [];
    ReleaseNone(g);
    assert names[..0] == [];
    for i := 0 to |names|
      invariant FreedAmong(g, [], names[..i], queue) && Ascending(queue)
    {
      var name := names[i];
      RootAt(g, names, indegree, i);
      FreedNext(g, [], names, i, queue);
      if indegree[name] == 0 {
        queue := queue + [name];
      }
    }
    assert names[..|names|] == names;
    QueueIsRoots(g, names, queue);
  }

  lemma ReleaseNone(g: Deps)
    ensures FreedAmong(g, [], [], []) && Ascending([])
  {
  }

  lemma RootAt(g: Deps, names: seq<Name>, indegree: map<Name, nat>, i: nat)
    requires names == Sorted(g.Keys) && Counts(g, [], indegree) && i < |names|
    ensures names[i] in g && names[i] in indegree && (indegree[names[i]] == 0 <==> g[names[i]] <= Elems([]))
    ensures Ascending(names) && names[..i + 1] == names[..i] + [names[i]]
  {
    hide Elems, Sorted, Ascending, Counts, NoDup;
    AscendingNoDup(names);
    ElemsStep(names, i);
    CountsAt(g, [], indegree, names[i]);
  }

  lemma CountsAt(g: Deps, order: seq<Name>, indegree: map<Name, nat>, n: Name)
    requires Counts(g, order, indegree) && n in g
    ensures n in indegree && (indegree[n] == 0 <==> g[n] <= Elems(order))
  {
    hide Elems;
    CountZero(g[n], Elems(order));
  }

  lemma QueueIsRoots(g: Deps, names: seq<Name>, queue: seq<Name>)
    requires names == Sorted(g.Keys) && FreedAmong(g, [], names, queue) && Ascending(queue)
    ensures queue == Sorted(Roots(g))
  {
    forall n ensures n in Elems(queue) <==> n in Roots(g) {
      assert n in names <==> n in Elems(names);
    }
    assert Elems(queue) == Roots(g);
    SortedIs(Roots(g), queue);
  }

  /** Places services until the queue runs dry. */
  method PlaceAll(g: Deps, names: seq<Name>, indegree: map<Name, nat>, dependents: Lists)
    returns (order: seq<Name>)
    requires names == Sorted(g.Keys) && Counts(g, [], indegree) && Listed(g, dependents)
    ensures order == Order(g)
  {
    order := [];
    var counts := indegree;
    var queue := InitialQueue(g, names, indegree);
    StartUnderway(g);
    while queue != []
      invariant Underway(g, queue, order) && Counts(g, order, counts)
      invariant Run(g, queue, order) == Order(g)
      decreases |g| - |order|
    {
      hide Underway, Counts, Listed;
      var name := queue[0];
      UnderwayRoom(g, queue, order);
      StepUnderway(g, queue, order);
      NotPlaced(g, queue, order);
      var list := At(dependents, name);
      assert list == Sorted(Dependents(g, name)) by { ListedAt(g, dependents, name); }
      var freed: seq<Name>;
      counts, freed := Release(g, order, name, list, counts);
      queue := queue[1..] + freed;
      order := order + [name];
    }
  }

  lemma NotPlaced(g: Deps, queue: seq<Name>, order: seq<Name>)
    requires Underway(g, queue, order) && queue != []
    ensures queue[0] !in order
  {
    HeadNotPlaced(queue, order);
  }

  lemma ListedAt(g: Deps, dependents: Lists, d: Name)
    requires Listed(g, dependents)
    ensures At(dependents, d) == Sorted(Dependents(g, d))
  {
  }

  lemma MinusNone(a: set<Name>)
    ensures a - Elems([]) == a
  {
  }

  lemma TalliedCounts(g: Deps, indegree: map<Name, nat>, dependents: Lists)
    requires Tallied(g, indegree, dependents)
    ensures Counts(g, [], indegree)
  {
    hide At, Dependents, ListsDependents;
    forall n | n in g ensures indegree[n] == |g[n] - Elems([])| {
      MinusNone(g[n]);
    }
  }

  /**
   * The sort is sound, complete and independent of map iteration order: it fails exactly when a
   * dependency is unknown or no topological order exists, and otherwise returns one fixed
   * topological order.
   */
  method SortServices(g: Deps) returns (r: SortResult)
    ensures r.UnknownDependency? <==> !Known(g)
    ensures r.Circular? <==> Known(g) && !Sortable(g)
    ensures r.Ordered? <==> Sortable(g)
    ensures r.Ordered? ==> Topological(g, r.order) && r.order == Order(g)
  {
    hide Known, Sortable, Topological, Order;
    var all := Listing(g.Keys);
    var names := SortStrings(all);
    var known, indegree, dependents := Tally(g);
    OrderComplete(g);
    SortableKnown(g);
    if !known {
      return UnknownDependency;
    }
    var lists := SortLists(g, dependents);
    TalliedCounts(g, indegree, dependents);
    var order := PlaceAll(g, names, indegree, lists);
    if |order| != |g| {
      return Circular;
    }
    OrderSound(g);
    return Ordered(order);
  }

  lemma SortableKnown(g: Deps)
    ensures Sortable(g) ==> Known(g)
  {
    if t :| Topological(g, t) {
      TopologicalKnown(g, t);
    }
  }
}
