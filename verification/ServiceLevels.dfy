/** Compose dependency levels: services grouped by their longest dependency chain. */
module ServiceLevels {
  import opened Names
  import opened ServiceOrder

  /** A service, one of its dependencies, one of that one's dependencies, and so on. */
  ghost predicate Chain(g: Deps, c: seq<Name>) {
    c != [] && (forall i :: 0 <= i < |c| ==> c[i] in g)
    && forall i, j :: 0 <= i && j == i + 1 && j < |c| ==> Follows(g, c[i], c[j])
  }

  ghost predicate Follows(g: Deps, a: Name, b: Name) {
    a in g && b in g[a]
  }

  ghost predicate ChainFrom(g: Deps, n: Name, c: seq<Name>) {
    Chain(g, c) && c[0] == n
  }

  /** k edges is the longest dependency chain below n. */
  ghost predicate Level(g: Deps, n: Name, k: nat) {
    (exists c :: ChainFrom(g, n, c) && |c| == k + 1)
    && forall c :: ChainFrom(g, n, c) ==> |c| <= k + 1
  }

  lemma LevelUnique(g: Deps, n: Name, j: nat, k: nat)
    requires Level(g, n, j) && Level(g, n, k)
    ensures j == k
  {
    var c :| ChainFrom(g, n, c) && |c| == j + 1;
    var d :| ChainFrom(g, n, d) && |d| == k + 1;
  }

  lemma ChainUp(g: Deps, n: Name, c: seq<Name>)
    requires n in g && Chain(g, c) && c[0] in g[n]
    ensures ChainFrom(g, n, [n] + c)
  {
    var u := [n] + c;
    forall i, j | 0 <= i && j == i + 1 && j < |u| ensures Follows(g, u[i], u[j]) {
      if i > 0 {
        assert u[i] == c[i - 1] && u[j] == c[j - 1];
      }
    }
  }

  lemma ChainDown(g: Deps, c: seq<Name>)
    requires Chain(g, c) && |c| > 1
    ensures ChainFrom(g, c[1], c[1..]) && c[1] in g[c[0]]
  {
    var u := c[1..];
    assert Follows(g, c[0], c[1]);
    forall i, j | 0 <= i && j == i + 1 && j < |u| ensures Follows(g, u[i], u[j]) {
      assert Follows(g, c[i + 1], c[j + 1]);
    }
  }

  /** A dependency sits on a strictly lower level. */
  lemma DependencyLower(g: Deps, n: Name, d: Name, k: nat, j: nat)
    requires Level(g, n, k) && Level(g, d, j) && n in g && d in g[n]
    ensures j < k
  {
    var c :| ChainFrom(g, d, c) && |c| == j + 1;
    ChainUp(g, n, c);
    assert |[n] + c| <= k + 1;
  }

  /** levels records, for each name in done, its level. */
  ghost predicate Leveled(g: Deps, levels: map<Name, nat>, done: set<Name>) {
    levels.Keys == done && forall n :: n in done ==> Level(g, n, levels[n])
  }

  /** current is one above the highest of deps, or 0. */
  ghost predicate OneAbove(levels: map<Name, nat>, deps: set<Name>, current: nat) {
    (forall d :: d in deps ==> d in levels && levels[d] < current)
    && (current == 0 || exists d :: d in deps && d in levels && levels[d] + 1 == current)
  }

  lemma LevelOfNext(g: Deps, levels: map<Name, nat>, done: set<Name>, n: Name, current: nat)
    requires Leveled(g, levels, done) && n in g && g[n] <= done
    requires OneAbove(levels, g[n], current)
    ensures Level(g, n, current)
  {
    if current == 0 {
      assert ChainFrom(g, n, [n]) && |[n]| == 1;
    } else {
      var d :| d in g[n] && d in levels && levels[d] + 1 == current;
      assert Level(g, d, levels[d]);
      var c :| ChainFrom(g, d, c) && |c| == levels[d] + 1;
      ChainUp(g, n, c);
      assert |[n] + c| == current + 1;
    }
    forall c | ChainFrom(g, n, c) ensures |c| <= current + 1 {
      if |c| > 1 {
        ChainDown(g, c);
        assert Level(g, c[1], levels[c[1]]);
      }
    }
  }

  /** One past the highest level among a service's dependencies. */
  method NextLevel(levels: map<Name, nat>, deps: set<Name>) returns (current: nat)
    requires deps <= levels.Keys
    ensures OneAbove(levels, deps, current)
  {
    current := 0;
    var names := Listing(deps);
    ElemsEnds(names);
    for j := 0 to |names|
      invariant OneAbove(levels, Elems(names[..j]), current)
    {
      hide Elems, NoDup;
      var dep := names[j];
      ElemsStep(names, j);
      if levels[dep] + 1 > current {
        current := levels[dep] + 1;
      }
    }
  }

  /** Each service's level, in start order, and the highest of them. */
  method Levels(order: seq<Name>, g: Deps) returns (levels: map<Name, nat>, maxLevel: nat)
    requires Topological(g, order)
    ensures Leveled(g, levels, g.Keys)
    ensures Highest(levels, maxLevel)
  {
    hide NoDup, Elems, Level, OneAbove, Topological, DepsFirst;
    levels, maxLevel := map[], 0;
    ElemsEnds(order);
    TopologicalParts(g, order);
    for i := 0 to |order|
      invariant Leveled(g, levels, Elems(order[..i]))
      invariant Highest(levels, maxLevel)
    {
      var name := order[i];
      ElemsStep(order, i);
      TopologicalAt(g, order, i);
      var current := NextLevel(levels, g[name]);
      LevelOfNext(g, levels, Elems(order[..i]), name, current);
      levels := levels[name := current];
      assert name in levels;
      if current > maxLevel {
        maxLevel := current;
      }
    }
  }

  /** No level is above top, and some service is on it unless there are none. */
  ghost predicate Highest(levels: map<Name, nat>, top: nat) {
    (forall n :: n in levels ==> levels[n] <= top)
    && (|levels| == 0 ==> top == 0) && (top > 0 ==> exists n :: n in levels && levels[n] == top)
  }

  /** The services of one level, in start order. */
  ghost function AtLevel(g: Deps, order: seq<Name>, l: nat): (r: seq<Name>)
    ensures forall n :: n in r <==> n in order && Level(g, n, l)
  {
    if order == [] then
      []
    else
      var k := |order| - 1;
      AtLevel(g, order[..k], l) + (if Level(g, order[k], l) then [order[k]] else [])
  }

  lemma {:induction false} AtLevelStep(g: Deps, order: seq<Name>, i: nat, l: nat)
    requires i < |order|
    ensures AtLevel(g, order[..i + 1], l)
      == AtLevel(g, order[..i], l) + (if Level(g, order[i], l) then [order[i]] else [])
  {
    assert order[..i + 1][..i] == order[..i];
  }

  /** The level of order[i] is levels[order[i]] and no other. */
  lemma LevelAt(g: Deps, levels: map<Name, nat>, n: Name, l: nat)
    requires Leveled(g, levels, g.Keys) && n in g
    ensures Level(g, n, l) <==> l == levels[n]
  {
    if Level(g, n, l) {
      LevelUnique(g, n, l, levels[n]);
    }
  }

  lemma {:induction false} LevelsFilled(g: Deps, levels: map<Name, nat>, n: Name, l: nat)
    requires Leveled(g, levels, g.Keys) && Known(g) && n in g && l <= levels[n]
    ensures exists m :: m in g && Level(g, m, l)
    decreases levels[n]
  {
    if l < levels[n] {
      var c :| ChainFrom(g, n, c) && |c| == levels[n] + 1;
      ChainDown(g, c);
      var d := c[1];
      DependencyLower(g, n, d, levels[n], levels[d]);
      assert Level(g, d, levels[d]) && |c[1..]| == levels[n];
      LevelsFilled(g, levels, d, l);
    }
  }

  /** The groups by level: what the caller may rely on. */
  ghost predicate Grouped(g: Deps, order: seq<Name>, groups: seq<seq<Name>>) {
    (forall l :: 0 <= l < |groups| ==> groups[l] == AtLevel(g, order, l) && groups[l] != [])
    && forall n :: n in g ==> exists l :: 0 <= l < |groups| && Level(g, n, l)
  }

  /** The groups after the first i services of the order. */
  ghost predicate GroupsUpto(g: Deps, order: seq<Name>, i: nat, groups: seq<seq<Name>>) {
    i <= |order| && forall l :: 0 <= l < |groups| ==> groups[l] == AtLevel(g, order[..i], l)
  }

  lemma GroupsNext(g: Deps, order: seq<Name>, i: nat, groups: seq<seq<Name>>, levels: map<Name, nat>)
    requires GroupsUpto(g, order, i, groups) && i < |order| && order[i] in g
    requires Leveled(g, levels, g.Keys) && levels[order[i]] < |groups|
    ensures GroupsUpto(g, order, i + 1, groups[levels[order[i]] := groups[levels[order[i]]] + [order[i]]])
  {
    hide AtLevel, Level;
    var at := levels[order[i]];
    var groups' := groups[at := groups[at] + [order[i]]];
    forall l | 0 <= l < |groups'| ensures groups'[l] == AtLevel(g, order[..i + 1], l) {
      AtLevelStep(g, order, i, l);
      LevelAt(g, levels, order[i], l);
      assert groups[l] + [] == groups[l];
    }
  }

  method FillGroups(order: seq<Name>, g: Deps, levels: map<Name, nat>, maxLevel: nat) returns (groups: seq<seq<Name>>)
    requires Leveled(g, levels, g.Keys) && Elems(order) == g.Keys && Highest(levels, maxLevel)
    ensures |groups| == maxLevel + 1 && GroupsUpto(g, order, |order|, groups)
  {
    groups := seq(maxLevel + 1, i => []);
    assert order[..0] == [];
    hide Level, GroupsUpto;
    assert GroupsUpto(g, order, 0, groups) by { GroupsNone(g, order, groups); }
    for i := 0 to |order|
      invariant |groups| == maxLevel + 1 && GroupsUpto(g, order, i, groups)
    {
      var name := order[i];
      assert name in Elems(order);
      GroupsNext(g, order, i, groups, levels);
      groups := groups[levels[name] := groups[levels[name]] + [name]];
    }
  }

  lemma GroupsNone(g: Deps, order: seq<Name>, groups: seq<seq<Name>>)
    requires forall l :: 0 <= l < |groups| ==> groups[l] == []
    ensures GroupsUpto(g, order, 0, groups)
  {
    assert order[..0] == [];
  }

  lemma {:induction false} GroupNonEmpty(g: Deps, order: seq<Name>, levels: map<Name, nat>, maxLevel: nat, l: nat)
    requires Topological(g, order) && order != [] && Leveled(g, levels, g.Keys) && Highest(levels, maxLevel)
    requires l <= maxLevel
    ensures AtLevel(g, order, l) != []
  {
    TopologicalKnown(g, order);
    assert order[0] in Elems(order);
    var n := if maxLevel == 0 then order[0] else TopOf(levels, maxLevel);
    LevelsFilled(g, levels, n, l);
    var m :| m in g && Level(g, m, l);
    assert m in Elems(order);
    assert m in AtLevel(g, order, l);
  }

  ghost function TopOf(levels: map<Name, nat>, top: nat): (n: Name)
    requires top > 0 && Highest(levels, top)
    ensures n in levels && levels[n] == top
  {
    var n :| n in levels && levels[n] == top;
    n
  }

  /**
   * For a start order, the groups are the levels of longest dependency chain: none is empty,
   * each keeps the start order, and every service is in the one of its level.
   */
  method DependencyGroups(order: seq<Name>, g: Deps) returns (groups: seq<seq<Name>>)
    requires Topological(g, order)
    ensures Grouped(g, order, groups)
  {
    hide AtLevel, Level, Topological, NoDup, Elems;
    TopologicalParts(g, order);
    ElemsEnds(order);
    if order == [] {
      return [];
    }
    var levels, maxLevel := Levels(order, g);
    groups := FillGroups(order, g, levels, maxLevel);
    assert order[..|order|] == order;
    forall l | 0 <= l < |groups| ensures groups[l] != [] {
      GroupNonEmpty(g, order, levels, maxLevel, l);
    }
    forall n | n in g ensures exists l :: 0 <= l < |groups| && Level(g, n, l) {
      assert Level(g, n, levels[n]);
    }
  }
}
