/**
 * The Dockerfile builder: running a plan, with the stages outside a keep set
 * skipped.
 *
 * What a FROM or a step does to a root file system is a parameter: any
 * deterministic function of the build arguments it may look at, the current root
 * file system and the resolved sources.
 */
module StageRun {
  import opened Prelude
  import opened StagePlan

  type Args = map<string, string>

  /** The part of a table an instruction looks at. */
  function Seen<V>(table: map<string, V>, looks: Looks): map<string, V> {
    match looks
    case Everything => table
    case Only(names) => map k | k in table && k in names :: table[k]
  }

  /** Where a FROM or a --from reference leads. */
  datatype Source<+R> = Scratch | Built(result: R) | External(ref: string)

  /** The effects the planner knows nothing about. Any of them may fail. */
  datatype Semantics<!R> = Semantics(
    from: (Args, Source<R>) -> Option<R>,
    expand: (Args, Option<R>, string) -> Option<string>,
    step: (Args, R, string, seq<Source<R>>) -> Option<R>)

  /** A finished stage, as commitCurrentStage records it. */
  datatype Done<+R> = Done(index: nat, alias: string, result: R)

  datatype State<+R> = State(args: Args, done: seq<Done<R>>)

  /** The last finished stage that answers to ref. */
  function Lookup<R>(done: seq<Done<R>>, ref: string): Option<R> {
    if done == [] then None
    else
      var d := done[|done| - 1];
      if Answers(d.index, d.alias, ref) then Some(d.result) else Lookup(done[..|done| - 1], ref)
  }

  /** The table gives the last finished stage of that number or alias. */
  lemma {:induction false} LookupLast<R>(done: seq<Done<R>>, j: nat, ref: string)
    requires j < |done| && (Itoa(done[j].index) == ref || (done[j].alias == ref && ref != ""))
    requires forall k :: j < k < |done| ==> Itoa(done[k].index) != ref && (done[k].alias != ref || ref == "")
    ensures Lookup(done, ref) == Some(done[j].result)
  {
    hide Itoa;
    var k := |done| - 1;
    if k > j {
      LookupLast(done[..k], j, ref);
    }
  }

  lemma {:induction false} LookupNone<R>(done: seq<Done<R>>, ref: string)
    requires forall k :: 0 <= k < |done| ==> Itoa(done[k].index) != ref && (done[k].alias != ref || ref == "")
    ensures Lookup(done, ref) == None
  {
    hide Itoa;
    if done != [] {
      LookupNone(done[..|done| - 1], ref);
    }
  }

  function SourceOf<R>(done: seq<Done<R>>, ref: string): Source<R> {
    var r := Lookup(done, ref);
    if r.Some? then Built(r.value) else External(ref)
  }

  function FromSource<R>(done: seq<Done<R>>, image: string): Source<R> {
    if image == "scratch" then Scratch else SourceOf(done, image)
  }

  function Sources<R>(done: seq<Done<R>>, refs: seq<string>): (s: seq<Source<R>>)
    ensures |s| == |refs|
    ensures forall i :: 0 <= i < |refs| ==> s[i] == SourceOf(done, refs[i])
  {
    if refs == [] then []
    else Sources(done, refs[..|refs| - 1]) + [SourceOf(done, refs[|refs| - 1])]
  }

  /** An ARG binds its key only if nothing has bound it before. */
  function Declare<R>(sem: Semantics<R>, args: Args, cur: Option<R>, key: string, value: Option<Default>): Option<Args> {
    if key in args then Some(args)
    else if value.None? then Some(args[key := ""])
    else
      match value.value
      case Literal(text) => Some(args[key := text])
      case Word(text, looks) =>
        var v := sem.expand(Seen(args, looks), cur, text);
        if v.None? then None else Some(args[key := v.value])
  }

  /** One instruction of a stage body; a FROM never is one. */
  function RunInstr<R>(sem: Semantics<R>, done: seq<Done<R>>, args: Args, cur: R, instr: Instr): Option<(Args, R)> {
    match instr
    case From(_, _, _) => None
    case Arg(key, value) =>
      var a := Declare(sem, args, Some(cur), key, value);
      if a.None? then None else Some((a.value, cur))
    case Step(text, refs, looks) =>
      var r := sem.step(Seen(args, looks), cur, text, Sources(done, refs));
      if r.None? then None else Some((args, r.value))
  }

  function RunBody<R>(sem: Semantics<R>, done: seq<Done<R>>, args: Args, cur: R, body: seq<Instr>): Option<(Args, R)> {
    if body == [] then Some((args, cur))
    else
      var front := RunBody(sem, done, args, cur, body[..|body| - 1]);
      if front.None? then None
      else RunInstr(sem, done, front.value.0, front.value.1, body[|body| - 1])
  }

  function RunFrom<R>(sem: Semantics<R>, st: State<R>, image: string, looks: Looks): Option<R> {
    if image == "" then None else sem.from(Seen(st.args, looks), FromSource(st.done, image))
  }

  function RunStage<R>(sem: Semantics<R>, st: State<R>, stage: Stage): Option<State<R>> {
    var base := RunFrom(sem, st, stage.fromRef, FromLooks(stage));
    if base.None? then None
    else
      var end := RunBody(sem, st.done, st.args, base.value, Body(stage));
      if end.None? then None
      else Some(State(end.value.0, st.done + [Done(stage.index, stage.alias, end.value.1)]))
  }

  /** The state after the first k stages, running only those in keep. */
  function RunStages<R>(sem: Semantics<R>, st: State<R>, stages: seq<Stage>, keep: set<nat>, k: nat): Option<State<R>>
    requires k <= |stages|
  {
    if k == 0 then Some(st)
    else
      var before := RunStages(sem, st, stages, keep, k - 1);
      if before.None? || stages[k - 1].index !in keep then before
      else RunStage(sem, before.value, stages[k - 1])
  }

  /** Before the first FROM only ARG is allowed. */
  function RunPreamble<R>(sem: Semantics<R>, args: Args, preamble: seq<Instr>): Option<Args> {
    if preamble == [] then Some(args)
    else
      var before := RunPreamble(sem, args, preamble[..|preamble| - 1]);
      var x := preamble[|preamble| - 1];
      if before.None? || !x.Arg? then None
      else Declare(sem, before.value, None, x.key, x.value)
  }

  /** The image a build produces when only the stages in keep are run. */
  function Execute<R>(sem: Semantics<R>, seed: Args, plan: Plan, keep: set<nat>): Option<R> {
    var args := RunPreamble(sem, seed, plan.preamble);
    if args.None? then None
    else
      var st := RunStages(sem, State(args.value, []), plan.stages, keep, |plan.stages|);
      if st.None? || st.value.done == [] then None
      else Some(st.value.done[|st.value.done| - 1].result)
  }

  /** Keeping these is building every stage. */
  ghost function Every(stages: seq<Stage>): set<nat> {
    set s | s in stages :: s.index
  }

  lemma EveryHolds(stages: seq<Stage>)
    requires StagesOk(stages)
    ensures forall i :: 0 <= i < |stages| ==> i in Every(stages)
  {
    forall i | 0 <= i < |stages| ensures i in Every(stages) {
      assert StageOk(stages[i], i) && stages[i] in stages;
    }
  }

  // ---------- the builder object ----------

  /** The builder: its fields change one instruction at a time. */
  class Builder<R> {
    var args: Args
    var rootfs: Option<R>
    var currentName: string
    var currentIndex: nat
    var nextIndex: nat
    var stages: seq<Done<R>>
    var stageByName: map<string, Done<R>>
    const sem: Semantics<R>

    /** The name table holds, for each name, the last committed stage that answers to it. */
    ghost predicate Valid()
      reads this
    {
      forall ref :: (ref in stageByName <==> Lookup(stages, ref).Some?)
        && (ref in stageByName ==> Lookup(stages, ref) == Some(stageByName[ref].result))
    }

    /** The finished stages, counting the open one. */
    ghost function Finished(): seq<Done<R>>
      reads this
    {
      if rootfs.None? then stages else stages + [Done(currentIndex, currentName, rootfs.value)]
    }

    constructor (sem: Semantics<R>, seed: Args)
      ensures Valid() && this.sem == sem && args == seed && rootfs == None && stages == []
    {
      this.sem := sem;
      args, rootfs, currentName, currentIndex, nextIndex := seed, None, "", 0, 0;
      stages, stageByName := [], map[];
    }

    method CommitCurrentStage()
      requires Valid()
      modifies this
      ensures Valid() && args == old(args) && rootfs == old(rootfs) && nextIndex == old(nextIndex)
      ensures stages == old(Finished())
    {
      if rootfs.None? {
        return;
      }
      var stage := Done(currentIndex, currentName, rootfs.value);
      ghost var before := stages;
      stages := stages + [stage];
      assert stages[..|stages| - 1] == before;
      stageByName := stageByName[Itoa(stage.index) := stage];
      if stage.alias != "" {
        stageByName := stageByName[stage.alias := stage];
      }
    }

    method LookupStage(ref: string) returns (r: Option<R>)
      requires Valid()
      ensures r == Lookup(stages, ref)
    {
      if ref in stageByName {
        r := Some(stageByName[ref].result);
      } else {
        r := None;
      }
    }

    method ResolveSource(ref: string) returns (s: Source<R>)
      requires Valid()
      ensures s == SourceOf(stages, ref)
    {
      var r := LookupStage(ref);
      s := if r.Some? then Built(r.value) else External(ref);
    }

    method ResolveSources(refs: seq<string>) returns (srcs: seq<Source<R>>)
      requires Valid()
      ensures srcs == Sources(stages, refs)
    {
      srcs := [];
      for i := 0 to |refs|
        invariant srcs == Sources(stages, refs[..i])
      {
        assert refs[..i + 1][..i] == refs[..i];
        var s := ResolveSource(refs[i]);
        srcs := srcs + [s];
      }
      assert refs[..|refs|] == refs;
    }

    /** FROM: commits the open stage, then opens the next one on its base. */
    method HandleFrom(image: string, alias: string, looks: Looks) returns (ok: bool)
      requires Valid()
      modifies this
      ensures Valid() && args == old(args)
      ensures var st := State(old(args), old(Finished()));
              ok == RunFrom(sem, st, image, looks).Some?
              && (ok ==> stages == st.done && rootfs == RunFrom(sem, st, image, looks)
                         && currentIndex == old(nextIndex) && currentName == alias)
    {
      if image == "" {
        return false;
      }
      CommitCurrentStage();
      var src := Scratch;
      if image != "scratch" {
        src := ResolveSource(image);
      }
      currentName, currentIndex := alias, nextIndex;
      var base := sem.from(Seen(args, looks), src);
      if base.None? {
        return false;
      }
      rootfs := base;
      return true;
    }

    /** Any instruction other than FROM. */
    method HandleBody(instr: Instr) returns (ok: bool)
      requires Valid() && !instr.From?
      modifies this`args, this`rootfs
      ensures stages == old(stages) && Valid()
      ensures old(rootfs).Some? ==>
        var r := RunInstr(sem, stages, old(args), old(rootfs).value, instr);
        ok == r.Some? && (ok ==> rootfs.Some? && r.value == (args, rootfs.value))
      ensures old(rootfs).None? ==> rootfs == None
      ensures old(rootfs).None? && instr.Step? ==> !ok
      ensures old(rootfs).None? && instr.Arg? ==>
        var r := Declare(sem, old(args), None, instr.key, instr.value);
        ok == r.Some? && (ok ==> args == r.value)
    {
      match instr
      case Arg(key, value) =>
        var a := Declare(sem, args, rootfs, key, value);
        if a.None? {
          return false;
        }
        args := a.value;
        return true;
      case Step(text, refs, looks) =>
        if rootfs.None? {
          return false;
        }
        var srcs := ResolveSources(refs);
        var r := sem.step(Seen(args, looks), rootfs.value, text, srcs);
        if r.None? {
          return false;
        }
        rootfs := r;
        return true;
    }

    method RunPreambleSteps(preamble: seq<Instr>) returns (ok: bool)
      requires Valid() && rootfs == None && NoFrom(preamble)
      modifies this`args, this`rootfs
      ensures Valid() && rootfs == None && stages == old(stages)
      ensures ok == RunPreamble(sem, old(args), preamble).Some?
      ensures ok ==> args == RunPreamble(sem, old(args), preamble).value
    {
      for i := 0 to |preamble|
        invariant Valid() && rootfs == None && stages == old(stages)
        invariant RunPreamble(sem, old(args), preamble[..i]) == Some(args)
      {
        assert preamble[..i + 1][..i] == preamble[..i];
        var good := HandleBody(preamble[i]);
        if !good {
          PreambleFails(sem, old(args), preamble, i + 1);
          return false;
        }
      }
      assert preamble[..|preamble|] == preamble;
      return true;
    }

    /** Runs one kept stage, instruction by instruction. */
    method RunStageSteps(stage: Stage) returns (ok: bool)
      requires Valid() && StageOk(stage, stage.index)
      modifies this
      ensures Valid()
      ensures var r := RunStage(sem, State(old(args), old(Finished())), stage);
              ok == r.Some? && (ok ==> r.value == State(args, Finished()) && rootfs.Some?)
    {
      ghost var st := State(args, Finished());
      nextIndex := stage.index;
      ok := HandleFrom(stage.fromRef, stage.alias, FromLooks(stage));
      if !ok {
        return;
      }
      ghost var base := rootfs.value;
      ghost var body := stage.instrs[1..];
      for i := 1 to |stage.instrs|
        invariant Valid() && rootfs.Some? && stages == st.done
        invariant currentIndex == stage.index && currentName == stage.alias
        invariant RunBody(sem, st.done, st.args, base, body[..i - 1]) == Some((args, rootfs.value))
      {
        assert body[..i][..i - 1] == body[..i - 1] && body[i - 1] == stage.instrs[i];
        ok := HandleBody(stage.instrs[i]);
        if !ok {
          BodyFails(sem, st.done, st.args, base, body, i);
          return;
        }
      }
      assert body[..|body|] == body;
    }

    /** Runs the marked stages in order. */
    method RunMarked(planned: seq<Stage>, reachable: set<nat>) returns (ok: bool)
      requires Valid() && StagesOk(planned)
      requires rootfs.None? && stages == []
      modifies this
      ensures var r := RunStages(sem, State(old(args), []), planned, reachable, |planned|);
              ok == r.Some? && (ok ==> r.value == State(args, Finished()))
      ensures ok && rootfs.None? ==> stages == []
    {
      ghost var st := State(args, []);
      assert RunStages(sem, st, planned, reachable, 0) == Some(st);
      hide RunStages, RunStage;
      for k := 0 to |planned|
        invariant Valid()
        invariant rootfs.None? ==> stages == []
        invariant RunStages(sem, st, planned, reachable, k) == Some(State(args, Finished()))
      {
        RunNext(sem, st, planned, reachable, k);
        var marked := planned[k].index in reachable;
        if marked {
          assert StageOk(planned[k], k);
          ok := RunStageSteps(planned[k]);
          if !ok {
            StagesFail(sem, st, planned, reachable, k + 1, |planned|);
            return;
          }
        }
      }
      ok := true;
    }

    /** The whole build: plan, mark, and run what is marked. */
    method Build(instrs: seq<Instr>) returns (r: Option<R>, ghost plan: Plan, ghost keep: set<nat>)
      requires Valid() && rootfs == None && stages == []
      modifies this
      ensures PlanOk(plan) && plan.preamble + Flatten(plan.stages) == instrs
      ensures forall i :: i in keep <==> Reachable(plan.stages, i)
      ensures r == Execute(sem, old(args), plan, keep)
    {
      var p := BuildStagePlan(instrs);
      var reachable := MarkReachableStages(p.stages);
      plan, keep := p, reachable;
      r := None;
      var ok := RunPreambleSteps(p.preamble);
      if ok {
        ok := RunMarked(p.stages, reachable);
        if ok && rootfs.Some? {
          r := rootfs;
        }
      }
    }
  }

  lemma {:induction false} PreambleFails<R>(sem: Semantics<R>, args: Args, preamble: seq<Instr>, i: nat)
    requires i <= |preamble| && RunPreamble(sem, args, preamble[..i]).None?
    ensures RunPreamble(sem, args, preamble).None?
    decreases |preamble| - i
  {
    if i < |preamble| {
      assert preamble[..i + 1][..i] == preamble[..i];
      PreambleFails(sem, args, preamble, i + 1);
    } else {
      assert preamble[..i] == preamble;
    }
  }

  lemma {:induction false} BodyFails<R>(sem: Semantics<R>, done: seq<Done<R>>, args: Args, cur: R, body: seq<Instr>, i: nat)
    requires i <= |body| && RunBody(sem, done, args, cur, body[..i]).None?
    ensures RunBody(sem, done, args, cur, body).None?
    decreases |body| - i
  {
    if i < |body| {
      assert body[..i + 1][..i] == body[..i];
      BodyFails(sem, done, args, cur, body, i + 1);
    } else {
      assert body[..i] == body;
    }
  }

  lemma RunNext<R>(sem: Semantics<R>, st: State<R>, stages: seq<Stage>, keep: set<nat>, k: nat)
    requires k < |stages|
    ensures var before := RunStages(sem, st, stages, keep, k);
            RunStages(sem, st, stages, keep, k + 1)
            == if before.None? || stages[k].index !in keep then before else RunStage(sem, before.value, stages[k])
  {
  }

  lemma {:induction false} StagesFail<R>(sem: Semantics<R>, st: State<R>, stages: seq<Stage>, keep: set<nat>, k: nat, n: nat)
    requires k <= n <= |stages| && RunStages(sem, st, stages, keep, k).None?
    ensures RunStages(sem, st, stages, keep, n).None?
  {
    hide RunStages, RunStage;
    if k < n {
      StagesFail(sem, st, stages, keep, k, n - 1);
      RunNext(sem, st, stages, keep, n - 1);
    }
  }
}
