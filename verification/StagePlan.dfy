/**
 * The Dockerfile planner: splitting an instruction list into stages, resolving
 * stage references, and marking the stages the last one needs.
 *
 * References are the expanded ones: build-argument substitution inside FROM and
 * --from words has already happened.
 */
module StagePlan {
  import opened Prelude

  /** The build arguments an instruction may look at: RUN sees them all, the others those their words name. */
  datatype Looks = Everything | Only(names: set<string>)

  /** The default of an ARG: a word that stands for itself, or one that is expanded first. */
  datatype Default = Literal(text: string) | Word(text: string, looks: Looks)

  datatype Instr =
    | From(image: string, alias: string, looks: Looks)
    | Arg(key: string, value: Option<Default>)
    | Step(text: string, refs: seq<string>, looks: Looks)

  datatype Stage = Stage(index: nat, alias: string, fromRef: string, deps: seq<string>, instrs: seq<Instr>)

  datatype Plan = Plan(preamble: seq<Instr>, stages: seq<Stage>)

  /** The stage references of the instructions, in order (COPY/ADD --from, RUN --mount from). */
  function RefsOf(instrs: seq<Instr>): seq<string> {
    if instrs == [] then []
    else RefsOf(instrs[..|instrs| - 1]) + InstrRefs(instrs[|instrs| - 1])
  }

  function InstrRefs(instr: Instr): seq<string> {
    if instr.Step? then instr.refs else []
  }

  ghost predicate NoFrom(instrs: seq<Instr>) {
    forall i :: 0 <= i < |instrs| ==> !instrs[i].From?
  }

  /** A stage opens with its FROM, holds no other FROM, and lists exactly the references of its body. */
  ghost predicate StageOk(stage: Stage, pos: nat) {
    && stage.index == pos
    && stage.instrs != []
    && stage.instrs[0] == From(stage.fromRef, stage.alias, FromLooks(stage))
    && NoFrom(stage.instrs[1..])
    && stage.deps == RefsOf(stage.instrs[1..])
  }

  ghost predicate StagesOk(stages: seq<Stage>) {
    forall i {:trigger StageOk(stages[i], i)} :: 0 <= i < |stages| ==> StageOk(stages[i], i)
  }

  ghost predicate PlanOk(plan: Plan) {
    NoFrom(plan.preamble) && StagesOk(plan.stages)
  }

  /** What the FROM of a stage looks at. */
  function FromLooks(stage: Stage): Looks {
    if stage.instrs != [] && stage.instrs[0].From? then stage.instrs[0].looks else Everything
  }

  /** What follows the FROM of a stage. */
  function Body(stage: Stage): seq<Instr> {
    if stage.instrs == [] then [] else stage.instrs[1..]
  }

  function Flatten(stages: seq<Stage>): seq<Instr> {
    if stages == [] then []
    else Flatten(stages[..|stages| - 1]) + stages[|stages| - 1].instrs
  }

  lemma {:induction false} FlattenSnoc(stages: seq<Stage>, s: Stage)
    ensures Flatten(stages + [s]) == Flatten(stages) + s.instrs
  {
    assert (stages + [s])[..|stages|] == stages;
  }

  lemma ExtendOk(c: Stage, pos: nat, x: Instr)
    requires StageOk(c, pos) && !x.From?
    ensures StageOk(Extend(c, x), pos)
  {
    assert (c.instrs + [x])[1..] == c.instrs[1..] + [x];
    assert (c.instrs[1..] + [x])[..|c.instrs| - 1] == c.instrs[1..];
  }

  /** Adds an instruction to the stage being collected. */
  function Extend(c: Stage, x: Instr): Stage {
    c.(instrs := c.instrs + [x], deps := c.deps + InstrRefs(x))
  }

  function Pending(current: Option<Stage>): seq<Instr> {
    if current.Some? then current.value.instrs else []
  }

  /** Closes the stage being collected, if there is one. */
  function Close(stages: seq<Stage>, current: Option<Stage>): seq<Stage> {
    if current.None? then stages else stages + [current.value]
  }

  /** The planner's loop state after reading some instructions. */
  ghost predicate Collected(preamble: seq<Instr>, stages: seq<Stage>, current: Option<Stage>, read: seq<Instr>) {
    && NoFrom(preamble) && StagesOk(stages)
    && (current.None? ==> stages == [])
    && (current.Some? ==> StageOk(current.value, |stages|))
    && preamble + Flatten(stages) + Pending(current) == read
  }

  lemma CollectFrom(preamble: seq<Instr>, stages: seq<Stage>, current: Option<Stage>, read: seq<Instr>, x: Instr)
    requires Collected(preamble, stages, current, read) && x.From?
    ensures var closed := Close(stages, current);
            Collected(preamble, closed, Some(Stage(|closed|, x.alias, x.image, [], [x])), read + [x])
  {
    CloseOk(preamble, stages, current, read);
  }

  lemma CollectBody(preamble: seq<Instr>, stages: seq<Stage>, c: Stage, read: seq<Instr>, x: Instr)
    requires Collected(preamble, stages, Some(c), read) && !x.From?
    ensures Collected(preamble, stages, Some(Extend(c, x)), read + [x])
  {
    ExtendOk(c, |stages|, x);
    ConcatAssoc(preamble + Flatten(stages), c.instrs, [x]);
  }

  lemma CloseOk(preamble: seq<Instr>, stages: seq<Stage>, current: Option<Stage>, read: seq<Instr>)
    requires Collected(preamble, stages, current, read)
    ensures StagesOk(Close(stages, current))
    ensures preamble + Flatten(Close(stages, current)) == read
  {
    if current.Some? {
      FlattenSnoc(stages, current.value);
      ConcatAssoc(preamble, Flatten(stages), current.value.instrs);
      StagesOkSnoc(stages, current.value);
    }
  }

  lemma StagesOkSnoc(stages: seq<Stage>, s: Stage)
    requires StagesOk(stages) && StageOk(s, |stages|)
    ensures StagesOk(stages + [s])
  {
    forall i | 0 <= i < |stages| + 1 ensures StageOk((stages + [s])[i], i) {
      if i < |stages| {
        assert (stages + [s])[i] == stages[i];
      }
    }
  }

  /** Splits the instructions into a preamble and stages, losing and reordering nothing. */
  method BuildStagePlan(instrs: seq<Instr>) returns (plan: Plan)
    ensures PlanOk(plan)
    ensures plan.preamble + Flatten(plan.stages) == instrs
  {
    var preamble: seq<Instr> := [];
    var stages: seq<Stage> := [];
    var current: Option<Stage> := None;
    for i := 0 to |instrs|
      invariant Collected(preamble, stages, current, instrs[..i])
    {
      var instr := instrs[i];
      assert instrs[..i + 1] == instrs[..i] + [instr];
      if instr.From? {
        CollectFrom(preamble, stages, current, instrs[..i], instr);
        stages := Close(stages, current);
        current := Some(Stage(|stages|, instr.alias, instr.image, [], [instr]));
      } else if current.None? {
        preamble := preamble + [instr];
      } else {
        CollectBody(preamble, stages, current.value, instrs[..i], instr);
        current := Some(Extend(current.value, instr));
      }
    }
    assert instrs[..|instrs|] == instrs;
    CloseOk(preamble, stages, current, instrs);
    plan := Plan(preamble, Close(stages, current));
  }

  /** A stage answers to its index and, when it has one, to its alias. */
  predicate Answers(index: nat, alias: string, ref: string) {
    ref == Itoa(index) || (alias != "" && ref == alias)
  }

  /** The nearest stage before pos that answers to ref. */
  function Resolve(stages: seq<Stage>, pos: nat, ref: string): (r: Option<nat>)
    requires pos <= |stages|
    ensures r.Some? ==> r.value < pos
  {
    if pos == 0 then None
    else if Answers(stages[pos - 1].index, stages[pos - 1].alias, ref) then Some(pos - 1)
    else Resolve(stages, pos - 1, ref)
  }

  /** Resolve finds an answering stage if there is one, and the nearest of them. */
  lemma {:induction false} ResolveIsNearest(stages: seq<Stage>, pos: nat, ref: string)
    requires pos <= |stages|
    ensures var r := Resolve(stages, pos, ref);
            && (r.Some? ==> Answers(stages[r.value].index, stages[r.value].alias, ref))
            && (forall j :: 0 <= j < pos && (r.Some? ==> r.value < j) ==> !Answers(stages[j].index, stages[j].alias, ref))
  {
    if pos > 0 && !Answers(stages[pos - 1].index, stages[pos - 1].alias, ref) {
      ResolveIsNearest(stages, pos - 1, ref);
    }
  }

  /** A number leads to the stage of that number, unless a stage in between has taken it as its alias. */
  lemma {:induction false} ResolveNumber(stages: seq<Stage>, pos: nat, j: nat)
    requires StagesOk(stages) && j < pos <= |stages|
    requires forall k :: j < k < pos ==> stages[k].alias != Itoa(j)
    ensures Resolve(stages, pos, Itoa(j)) == Some(j)
  {
    hide StageOk, Itoa;
    var k := pos - 1;
    IndexIs(stages, k);
    if k > j {
      ItoaDiffers(k, j);
      ResolveNumber(stages, pos - 1, j);
    }
  }

  /** An alias leads to the last stage before pos that has it, unless a later one has that number. */
  lemma {:induction false} ResolveAlias(stages: seq<Stage>, pos: nat, j: nat, name: string)
    requires StagesOk(stages) && j < pos <= |stages| && name != "" && stages[j].alias == name
    requires forall k :: j < k < pos ==> stages[k].alias != name && Itoa(k) != name
    ensures Resolve(stages, pos, name) == Some(j)
  {
    hide StageOk, Itoa;
    IndexIs(stages, pos - 1);
    if pos - 1 > j {
      ResolveAlias(stages, pos - 1, j, name);
    }
  }

  /** Any other reference leads to no stage. */
  lemma {:induction false} ResolveNone(stages: seq<Stage>, pos: nat, ref: string)
    requires StagesOk(stages) && pos <= |stages|
    requires forall k :: 0 <= k < pos ==> Itoa(k) != ref && (ref == "" || stages[k].alias != ref)
    ensures Resolve(stages, pos, ref) == None
  {
    hide StageOk, Itoa;
    if pos > 0 {
      IndexIs(stages, pos - 1);
      ResolveNone(stages, pos - 1, ref);
    }
  }

  lemma IndexIs(stages: seq<Stage>, i: nat)
    requires StagesOk(stages) && i < |stages|
    ensures StageOk(stages[i], i) && stages[i].index == i
  {
    assert StageOk(stages[i], i);
  }

  method ResolvePlannedStageRef(stages: seq<Stage>, stagePos: nat, ref: string) returns (r: Option<nat>)
    requires stagePos < |stages|
    ensures r == Resolve(stages, stagePos, ref)
  {
    var i := stagePos - 1;
    while i >= 0
      invariant -1 <= i < stagePos
      invariant Resolve(stages, stagePos, ref) == Resolve(stages, i + 1, ref)
    {
      if ref == Itoa(stages[i].index) {
        return Some(i);
      }
      if stages[i].alias != "" && ref == stages[i].alias {
        return Some(i);
      }
      i := i - 1;
    }
    return None;
  }

  /** The stages that stage i names in its FROM or in its body. */
  ghost function Needs(stages: seq<Stage>, i: nat): set<nat>
    requires i < |stages|
  {
    Targets(stages, i, Refs(stages[i]))
  }

  /** The references of a stage: its FROM, then those of its body. */
  function Refs(stage: Stage): seq<string> {
    [stage.fromRef] + stage.deps
  }

  /** The stages the given references lead to, seen from stage i. */
  ghost function Targets(stages: seq<Stage>, i: nat, refs: seq<string>): set<nat>
    requires i < |stages|
  {
    set ref | ref in refs && Resolve(stages, i, ref).Some? :: Resolve(stages, i, ref).value
  }

  ghost predicate IsPath(stages: seq<Stage>, p: seq<nat>) {
    && p != []
    && (forall k :: 0 <= k < |p| ==> p[k] < |stages|)
    && (forall k :: 0 <= k < |p| - 1 ==> p[k + 1] in Needs(stages, p[k]))
  }

  ghost predicate PathTo(stages: seq<Stage>, p: seq<nat>, i: nat) {
    IsPath(stages, p) && p[0] == |stages| - 1 && p[|p| - 1] == i
  }

  /** Stage i is needed by the last stage, directly or through other stages. */
  ghost predicate Reachable(stages: seq<Stage>, i: nat) {
    exists p :: PathTo(stages, p, i)
  }

  ghost predicate Closed(stages: seq<Stage>, keep: set<nat>) {
    forall i :: i in keep ==> i < |stages| && Needs(stages, i) <= keep
  }

  lemma PathExtends(stages: seq<Stage>, i: nat, j: nat)
    requires i < |stages| && Reachable(stages, i) && j in Needs(stages, i)
    ensures Reachable(stages, j)
  {
    var p :| PathTo(stages, p, i);
    assert PathTo(stages, p + [j], j);
  }

  lemma {:induction false} PathStaysInside(stages: seq<Stage>, keep: set<nat>, p: seq<nat>)
    requires IsPath(stages, p) && Closed(stages, keep) && p[0] in keep
    ensures p[|p| - 1] in keep
  {
    if |p| > 1 {
      assert p[1] in Needs(stages, p[0]);
      PathStaysInside(stages, keep, p[1..]);
    }
  }

  /** Pushes every stage that stage pos names; what is on the stack afterwards is the old stack and Needs. */
  method PushNeeded(stages: seq<Stage>, pos: nat, stack0: seq<nat>) returns (stack: seq<nat>)
    requires pos < |stages|
    ensures Elements(stack) == Elements(stack0) + Needs(stages, pos)
  {
    stack := stack0;
    var refs := Refs(stages[pos]);
    for d := 0 to |refs|
      invariant Elements(stack) == Elements(stack0) + Targets(stages, pos, refs[..d])
    {
      assert refs[..d + 1] == refs[..d] + [refs[d]];
      var dep := ResolvePlannedStageRef(stages, pos, refs[d]);
      TargetsSnoc(stages, pos, refs[..d], refs[d]);
      if dep.Some? {
        ElementsSnoc(stack, dep.value);
        stack := stack + [dep.value];
      }
    }
    assert refs[..|refs|] == refs;
  }

  lemma {:induction false} TargetsSnoc(stages: seq<Stage>, pos: nat, refs: seq<string>, ref: string)
    requires pos < |stages|
    ensures var r := Resolve(stages, pos, ref);
            Targets(stages, pos, refs + [ref]) == Targets(stages, pos, refs) + (if r.Some? then {r.value} else {})
  {
    var r := Resolve(stages, pos, ref);
    forall x | x in Targets(stages, pos, refs) ensures x in Targets(stages, pos, refs + [ref]) {
      var y :| y in refs && Resolve(stages, pos, y).Some? && Resolve(stages, pos, y).value == x;
      assert y in refs + [ref];
    }
    if r.Some? {
      assert ref in refs + [ref];
    }
  }

  ghost function Elements(s: seq<nat>): set<nat> {
    set i | i in s
  }

  lemma ElementsSnoc(s: seq<nat>, x: nat)
    ensures Elements(s + [x]) == Elements(s) + {x}
  {
  }

  /** Marking state: everything seen is needed, and what marked stages need has been seen. */
  ghost predicate Marking(stages: seq<Stage>, keep: set<nat>, pending: set<nat>) {
    && (forall i :: i in keep + pending ==> i < |stages| && Reachable(stages, i))
    && (forall i {:trigger Needs(stages, i)} :: i in keep ==> Needs(stages, i) <= keep + pending)
    && (stages != [] ==> |stages| - 1 in keep + pending)
  }

  lemma MarkInit(stages: seq<Stage>)
    requires stages != []
    ensures Marking(stages, {}, Elements([|stages| - 1]))
  {
    assert PathTo(stages, [|stages| - 1], |stages| - 1);
    assert Elements([|stages| - 1]) == {|stages| - 1};
  }

  lemma MarkSkip(stages: seq<Stage>, keep: set<nat>, pending: set<nat>, pos: nat)
    requires Marking(stages, keep, pending + {pos}) && pos in keep
    ensures Marking(stages, keep, pending)
  {
    assert keep + (pending + {pos}) == keep + pending;
  }

  lemma MarkStep(stages: seq<Stage>, keep: set<nat>, pending: set<nat>, pos: nat)
    requires Marking(stages, keep, pending + {pos})
    ensures pos < |stages|
    ensures Marking(stages, keep + {pos}, pending + Needs(stages, pos))
    ensures |keep + {pos}| <= |stages|
  {
    assert pos in keep + (pending + {pos});
    forall j | j in Needs(stages, pos) ensures j < |stages| && Reachable(stages, j) {
      PathExtends(stages, pos, j);
    }
    BoundedSetSize(keep + {pos}, |stages|);
  }

  lemma MarkedExactly(stages: seq<Stage>, keep: set<nat>)
    requires Marking(stages, keep, {})
    ensures Closed(stages, keep)
    ensures forall i :: i in keep <==> Reachable(stages, i)
  {
    assert keep + {} == keep;
    forall i | Reachable(stages, i) ensures i in keep {
      var p :| PathTo(stages, p, i);
      PathStaysInside(stages, keep, p);
    }
  }

  /** Depth-first marking keeps exactly the stages the last stage needs. */
  method MarkReachableStages(stages: seq<Stage>) returns (keep: set<nat>)
    requires StagesOk(stages)
    ensures Closed(stages, keep)
    ensures stages != [] ==> |stages| - 1 in keep
    ensures forall i :: i in keep <==> Reachable(stages, i)
  {
    keep := {};
    if stages == [] {
      return;
    }
    var stack: seq<nat> := [|stages| - 1];
    MarkInit(stages);
    while stack != []
      invariant Marking(stages, keep, Elements(stack))
      decreases |stages| - |keep|, |stack|
    {
      var pos := stack[|stack| - 1];
      ElementsSnoc(stack[..|stack| - 1], pos);
      assert stack == stack[..|stack| - 1] + [pos];
      stack := stack[..|stack| - 1];
      MarkStep(stages, keep, Elements(stack), pos);
      assert StageOk(stages[pos], pos);
      if stages[pos].index in keep {
        MarkSkip(stages, keep, Elements(stack), pos);
        continue;
      }
      keep := keep + {stages[pos].index};
      stack := PushNeeded(stages, pos, stack);
    }
    assert Elements(stack) == {};
    MarkedExactly(stages, keep);
  }
}
