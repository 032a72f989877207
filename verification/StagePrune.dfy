/**
 * Skipping the stages the last stage does not need.
 *
 * Here references are already expanded. Stage results then flow only along
 * resolved references, and a pruned run resolves every reference it still makes
 * to the same stage. Build arguments are the one other channel this model has:
 * ARG writes a table the whole build shares. So pruning keeps the image if every
 * kept instruction finds the arguments it looks at as before. (The builder also
 * expands the image of a FROM against the environment the stage before it left;
 * that channel is not part of the model.)
 */
module StagePrune {
  import opened Prelude
  import opened StagePlan
  import opened StageRun
  import opened StageArgs

  // ---------- runs as traces ----------

  /** One entry of a run: a kept stage runs, any other stage changes nothing. */
  ghost predicate StepAt<R>(sem: Semantics<R>, stages: seq<Stage>, keep: set<nat>, tr: seq<State<R>>, k: nat)
    requires k + 1 < |tr| <= |stages| + 1
  {
    if k in keep then RunStage(sem, tr[k], stages[k]) == Some(tr[k + 1]) else tr[k + 1] == tr[k]
  }

  /** The states of a successful run: tr[k] is the state before stage k. */
  ghost predicate IsRun<R>(sem: Semantics<R>, stages: seq<Stage>, keep: set<nat>, tr: seq<State<R>>) {
    && 1 <= |tr| <= |stages| + 1 && StagesOk(stages) && tr[0].done == []
    && forall k :: 0 <= k < |tr| - 1 ==> StepAt(sem, stages, keep, tr, k)
  }

  lemma RunSnoc<R>(sem: Semantics<R>, stages: seq<Stage>, keep: set<nat>, tr: seq<State<R>>, next: State<R>)
    requires IsRun(sem, stages, keep, tr) && |tr| <= |stages|
    requires var k := |tr| - 1;
             if k in keep then RunStage(sem, tr[k], stages[k]) == Some(next) else next == tr[k]
    ensures IsRun(sem, stages, keep, tr + [next])
  {
    hide RunStage;
    var tr' := tr + [next];
    forall k | 0 <= k < |tr'| - 1 ensures StepAt(sem, stages, keep, tr', k) {
      if k < |tr| - 1 {
        assert StepAt(sem, stages, keep, tr, k);
      }
    }
  }

  /** A successful run has a trace. */
  lemma {:induction false} TraceOf<R>(sem: Semantics<R>, st: State<R>, stages: seq<Stage>, keep: set<nat>, n: nat)
    returns (tr: seq<State<R>>)
    requires n <= |stages| && StagesOk(stages) && st.done == []
    requires RunStages(sem, st, stages, keep, n).Some?
    ensures IsRun(sem, stages, keep, tr) && |tr| == n + 1 && tr[0] == st
    ensures tr[n] == RunStages(sem, st, stages, keep, n).value
  {
    hide RunStage;
    if n == 0 {
      tr := [st];
    } else {
      RunNext(sem, st, stages, keep, n - 1);
      assert StageOk(stages[n - 1], n - 1);
      tr := TraceOf(sem, st, stages, keep, n - 1);
      RunSnoc(sem, stages, keep, tr, RunStages(sem, st, stages, keep, n).value);
      tr := tr + [RunStages(sem, st, stages, keep, n).value];
    }
  }

  /** A trace is the trace of the run from its first state. */
  lemma {:induction false} TraceRuns<R>(sem: Semantics<R>, stages: seq<Stage>, keep: set<nat>, tr: seq<State<R>>, n: nat)
    requires IsRun(sem, stages, keep, tr) && n < |tr|
    ensures RunStages(sem, tr[0], stages, keep, n) == Some(tr[n])
  {
    hide RunStage;
    if n > 0 {
      TraceRuns(sem, stages, keep, tr, n - 1);
      RunNext(sem, tr[0], stages, keep, n - 1);
      assert StageOk(stages[n - 1], n - 1);
      assert StepAt(sem, stages, keep, tr, n - 1);
    }
  }

  /** What a run records: one entry per kept stage, in order, under its index and alias. */
  ghost predicate RecordAt<R>(stages: seq<Stage>, keep: set<nat>, tr: seq<State<R>>, k: nat)
    requires k + 1 < |tr| <= |stages| + 1
  {
    var now, next := tr[k].done, tr[k + 1].done;
    if k in keep then
      |next| == |now| + 1 && next[..|now|] == now && next[|now|].index == k && next[|now|].alias == stages[k].alias
    else next == now
  }

  lemma Records<R>(sem: Semantics<R>, stages: seq<Stage>, keep: set<nat>, tr: seq<State<R>>, k: nat)
    requires IsRun(sem, stages, keep, tr) && k + 1 < |tr|
    ensures RecordAt(stages, keep, tr, k)
  {
    assert StageOk(stages[k], k);
    assert StepAt(sem, stages, keep, tr, k);
  }

  /** The result stage j leaves behind in a run that keeps it. */
  ghost function ResultAt<R>(tr: seq<State<R>>, j: nat): R
    requires j + 1 < |tr| && tr[j + 1].done != []
  {
    tr[j + 1].done[|tr[j + 1].done| - 1].result
  }

  /**
   * Run-time lookup agrees with the planner: if the nearest earlier match of ref is kept, the name
   * table holds its result; if there is none, the table has no entry.
   */
  lemma {:induction false} LookupIsResolve<R>(sem: Semantics<R>, stages: seq<Stage>, keep: set<nat>, tr: seq<State<R>>, k: nat, ref: string)
    requires IsRun(sem, stages, keep, tr) && k < |tr|
    requires var r := Resolve(stages, k, ref); r.Some? ==> r.value in keep
    ensures var r := Resolve(stages, k, ref);
            && (r.None? ==> Lookup(tr[k].done, ref) == None)
            && (r.Some? ==> tr[r.value + 1].done != [] && Lookup(tr[k].done, ref) == Some(ResultAt(tr, r.value)))
  {
    hide IsRun, RecordAt, Lookup, Answers, ResultAt;
    if k == 0 {
      NothingDone(sem, stages, keep, tr, ref);
    } else {
      var j := k - 1;
      DoneNext(sem, stages, keep, tr, j, ref);
      if !Answers(j, stages[j].alias, ref) {
        LookupIsResolve(sem, stages, keep, tr, j, ref);
      }
    }
  }

  lemma {:induction false} NothingDone<R>(sem: Semantics<R>, stages: seq<Stage>, keep: set<nat>, tr: seq<State<R>>, ref: string)
    requires IsRun(sem, stages, keep, tr)
    ensures Lookup(tr[0].done, ref) == None
  {
    hide StepAt, StageOk;
  }

  /** One stage on: the lookup finds that stage if it is kept and answers, and otherwise what it found before. */
  lemma {:induction false} DoneNext<R>(sem: Semantics<R>, stages: seq<Stage>, keep: set<nat>, tr: seq<State<R>>, j: nat, ref: string)
    requires IsRun(sem, stages, keep, tr) && j + 1 < |tr|
    ensures j < |stages| && stages[j].index == j
    ensures j in keep && Answers(j, stages[j].alias, ref) ==>
      tr[j + 1].done != [] && Lookup(tr[j + 1].done, ref) == Some(ResultAt(tr, j))
    ensures !Answers(j, stages[j].alias, ref) ==> Lookup(tr[j + 1].done, ref) == Lookup(tr[j].done, ref)
  {
    hide StepAt, Answers;
    Records(sem, stages, keep, tr, j);
    assert StageOk(stages[j], j);
    if j in keep {
      assert tr[j + 1].done[..|tr[j + 1].done| - 1] == tr[j].done;
    }
  }

  // ---------- pruning preserves meaning ----------

  ghost predicate SameResult<R>(f: seq<State<R>>, p: seq<State<R>>, j: nat)
    requires j + 1 < |f| && j + 1 < |p|
  {
    f[j + 1].done != [] && p[j + 1].done != [] && ResultAt(f, j) == ResultAt(p, j)
  }

  /** The two runs agree on every kept stage both have run. */
  ghost predicate SameResults<R>(keep: set<nat>, f: seq<State<R>>, p: seq<State<R>>) {
    forall j {:trigger SameResult(f, p, j)} :: 0 <= j < |f| - 1 && j < |p| - 1 && j in keep ==> SameResult(f, p, j)
  }

  /** A reference a kept stage makes leads to equal sources in both runs. */
  lemma SameSource<R>(sem: Semantics<R>, stages: seq<Stage>, all: set<nat>, keep: set<nat>, f: seq<State<R>>, p: seq<State<R>>, k: nat, ref: string)
    requires IsRun(sem, stages, all, f) && IsRun(sem, stages, keep, p) && Closed(stages, keep)
    requires k < |stages| && k in keep && k < |f| && k < |p|
    requires forall i :: 0 <= i < |stages| ==> i in all
    requires SameResults(keep, f, p)
    requires ref in Refs(stages[k])
    ensures SourceOf(f[k].done, ref) == SourceOf(p[k].done, ref)
  {
    var r := Resolve(stages, k, ref);
    if r.Some? {
      assert r.value in Needs(stages, k);
      assert SameResult(f, p, r.value);
    }
    LookupIsResolve(sem, stages, all, f, k, ref);
    LookupIsResolve(sem, stages, keep, p, k, ref);
  }

  /** The references lead to the same sources in both runs. */
  ghost predicate SameSources<R>(d1: seq<Done<R>>, d2: seq<Done<R>>, refs: seq<string>) {
    forall i :: 0 <= i < |refs| ==> SourceOf(d1, refs[i]) == SourceOf(d2, refs[i])
  }

  lemma SameSourcesSplit<R>(d1: seq<Done<R>>, d2: seq<Done<R>>, a: seq<string>, b: seq<string>)
    requires SameSources(d1, d2, a + b)
    ensures SameSources(d1, d2, a) && SameSources(d1, d2, b)
  {
    hide SourceOf;
    forall i | 0 <= i < |a| ensures SourceOf(d1, a[i]) == SourceOf(d2, a[i]) {
      assert (a + b)[i] == a[i];
    }
    forall i | 0 <= i < |b| ensures SourceOf(d1, b[i]) == SourceOf(d2, b[i]) {
      assert (a + b)[|a| + i] == b[i];
    }
  }

  lemma {:induction false} SourcesEqual<R>(d1: seq<Done<R>>, d2: seq<Done<R>>, refs: seq<string>)
    requires SameSources(d1, d2, refs)
    ensures Sources(d1, refs) == Sources(d2, refs)
  {
    hide SourceOf;
  }

  /** A body whose references lead to the same sources and whose instructions find what they look at runs alike. */
  lemma {:induction false} SameBody<R>(sem: Semantics<R>, d1: seq<Done<R>>, d2: seq<Done<R>>, t1: Table, a1: Args, t2: Table, a2: Args,
                                       cur: R, body: seq<Instr>, stage: nat)
    requires NoFrom(body) && SameSources(d1, d2, RefsOf(body))
    requires Linked(t1, a1, t2, a2) && BodyAlike(t1, t2, stage, body)
    requires RunBody(sem, d1, a1, cur, body).Some?
    ensures RunBody(sem, d2, a2, cur, body).Some?
    ensures var r1, r2 := RunBody(sem, d1, a1, cur, body).value, RunBody(sem, d2, a2, cur, body).value;
            r1.1 == r2.1 && Linked(BodyTable(t1, stage, body), r1.0, BodyTable(t2, stage, body), r2.0)
  {
    hide SameSources, SourceOf, Sources, Linked, BodyAlike, Alike, RunInstr, InstrTable, NoFrom;
    if body != [] {
      var k := |body| - 1;
      var x, front := body[k], body[..k];
      SameSourcesSplit(d1, d2, RefsOf(front), InstrRefs(x));
      SourcesEqual(d1, d2, InstrRefs(x));
      AlikeFront(t1, t2, stage, body);
      NoFromFront(body);
      SameBody(sem, d1, d2, t1, a1, t2, a2, cur, front, stage);
      var m1, m2 := RunBody(sem, d1, a1, cur, front).value, RunBody(sem, d2, a2, cur, front).value;
      LinkedInstr(sem, d1, d2, BodyTable(t1, stage, front), m1.0, BodyTable(t2, stage, front), m2.0, m1.1, x, stage, k);
    }
  }

  lemma NoFromFront(body: seq<Instr>)
    requires body != [] && NoFrom(body)
    ensures NoFrom(body[..|body| - 1])
  {
  }

  lemma {:induction false} SameStage<R>(sem: Semantics<R>, f: State<R>, p: State<R>, t1: Table, t2: Table, stage: Stage)
    requires StageOk(stage, stage.index) && Linked(t1, f.args, t2, p.args) && StageAlike(t1, t2, stage)
    requires SameSources(f.done, p.done, Refs(stage)) && RunStage(sem, f, stage).Some?
    ensures RunStage(sem, p, stage).Some?
    ensures var x, y := RunStage(sem, f, stage).value, RunStage(sem, p, stage).value;
            && Linked(BodyTable(t1, stage.index, Body(stage)), x.args, BodyTable(t2, stage.index, Body(stage)), y.args)
            && x.done[|f.done|] == y.done[|p.done|]
  {
    hide SameSources, SourceOf, RunBody, RefsOf, NoFrom, Linked, Seen, BodyAlike, BodyTable;
    SameSourcesSplit(f.done, p.done, [stage.fromRef], stage.deps);
    SameOne(f.done, p.done, stage.fromRef);
    SeenSame(t1, f.args, t2, p.args, FromLooks(stage));
    var base := RunFrom(sem, f, stage.fromRef, FromLooks(stage)).value;
    SameBody(sem, f.done, p.done, t1, f.args, t2, p.args, base, Body(stage), stage.index);
  }

  lemma SameOne<R>(d1: seq<Done<R>>, d2: seq<Done<R>>, ref: string)
    requires SameSources(d1, d2, [ref])
    ensures SourceOf(d1, ref) == SourceOf(d2, ref)
  {
    hide SourceOf;
    assert [ref][0] == ref;
  }

  /** The pruned run so far follows the full run: linked arguments, same results. */
  ghost predicate Follows<R>(sem: Semantics<R>, stages: seq<Stage>, keep: set<nat>, f: seq<State<R>>, p: seq<State<R>>) {
    && IsRun(sem, stages, keep, p) && |p| <= |f| && p[0] == f[0] && SameResults(keep, f, p)
    && LinkedAt(stages, keep, f, p, |p| - 1)
  }

  ghost predicate LinkedAt<R>(stages: seq<Stage>, keep: set<nat>, f: seq<State<R>>, p: seq<State<R>>, k: nat) {
    && 0 <= k < |f| && k < |p| && k <= |stages|
    && var seed := f[0].args.Keys;
       Linked(TableBefore(seed, stages, Every(stages), k), f[k].args, TableBefore(seed, stages, keep, k), p[k].args)
  }

  lemma FollowKept<R>(sem: Semantics<R>, stages: seq<Stage>, keep: set<nat>, f: seq<State<R>>, q: seq<State<R>>)
    returns (next: State<R>)
    requires IsRun(sem, stages, Every(stages), f) && Closed(stages, keep) && |q| < |f|
    requires Steady(f[0].args.Keys, stages, keep)
    requires Follows(sem, stages, keep, f, q) && |q| - 1 in keep
    ensures Follows(sem, stages, keep, f, q + [next])
  {
    hide IsRun, SameResults, SameSources, SourceOf, Refs, StageOk, RunStage, Closed, Linked, StageAlike, BodyTable, Every;
    var k := |q| - 1;
    RunsEvery(sem, stages, f);
    KeptStep(sem, stages, Every(stages), f, k);
    FollowSources(sem, stages, keep, f, q);
    assert SteadyAt(f[0].args.Keys, stages, keep, k);
    var seed := f[0].args.Keys;
    var t1, t2 := TableBefore(seed, stages, Every(stages), k), TableBefore(seed, stages, keep, k);
    SameStage(sem, f[k], q[k], t1, t2, stages[k]);
    next := RunStage(sem, q[k], stages[k]).value;
    RunSnoc(sem, stages, keep, q, next);
    StageAppends(sem, f[k], stages[k]);
    StageAppends(sem, q[k], stages[k]);
    SameResultsSnoc(keep, f, q, next);
  }

  lemma RunsEvery<R>(sem: Semantics<R>, stages: seq<Stage>, f: seq<State<R>>)
    requires IsRun(sem, stages, Every(stages), f)
    ensures forall i :: 0 <= i < |stages| ==> i in Every(stages)
  {
    hide StepAt, StageOk;
    EveryHolds(stages);
  }

  /** A kept stage of a run has run, and is well formed. */
  lemma KeptStep<R>(sem: Semantics<R>, stages: seq<Stage>, keep: set<nat>, tr: seq<State<R>>, k: nat)
    requires IsRun(sem, stages, keep, tr) && k + 1 < |tr| && (k < |stages| ==> k in keep)
    ensures k < |stages| && StageOk(stages[k], k) && stages[k].index == k
    ensures RunStage(sem, tr[k], stages[k]) == Some(tr[k + 1])
  {
    hide RunStage;
    assert StepAt(sem, stages, keep, tr, k);
    assert StageOk(stages[k], k);
  }

  lemma FollowSources<R>(sem: Semantics<R>, stages: seq<Stage>, keep: set<nat>, f: seq<State<R>>, q: seq<State<R>>)
    requires IsRun(sem, stages, Every(stages), f) && Closed(stages, keep) && |q| < |f|
    requires Follows(sem, stages, keep, f, q) && |q| - 1 in keep
    ensures |q| <= |stages| && SameSources(f[|q| - 1].done, q[|q| - 1].done, Refs(stages[|q| - 1]))
  {
    hide SourceOf, StepAt, Closed, SameResults, StageOk, LinkedAt;
    var k := |q| - 1;
    RunsEvery(sem, stages, f);
    var refs := Refs(stages[k]);
    forall i | 0 <= i < |refs| ensures SourceOf(f[k].done, refs[i]) == SourceOf(q[k].done, refs[i]) {
      SameSource(sem, stages, Every(stages), keep, f, q, k, refs[i]);
    }
  }

  lemma StageAppends<R>(sem: Semantics<R>, st: State<R>, stage: Stage)
    requires RunStage(sem, st, stage).Some?
    ensures |RunStage(sem, st, stage).value.done| == |st.done| + 1
  {
    hide RunBody, RunFrom;
  }

  lemma FollowSkipped<R>(sem: Semantics<R>, stages: seq<Stage>, keep: set<nat>, f: seq<State<R>>, q: seq<State<R>>)
    requires IsRun(sem, stages, Every(stages), f) && |q| < |f|
    requires Follows(sem, stages, keep, f, q) && |q| - 1 !in keep
    ensures Follows(sem, stages, keep, f, q + [q[|q| - 1]])
  {
    hide IsRun, SameResults, StageOk, RunStage, Linked, BodyTable, Every;
    var k := |q| - 1;
    RunsEvery(sem, stages, f);
    KeptStep(sem, stages, Every(stages), f, k);
    var seed := f[0].args.Keys;
    LinkedSkip(sem, f[k], stages[k], TableBefore(seed, stages, Every(stages), k), TableBefore(seed, stages, keep, k), q[k].args);
    RunSnoc(sem, stages, keep, q, q[k]);
    SameResultsSnoc(keep, f, q, q[k]);
  }

  /** A stage that only the full run has. */
  lemma {:induction false} LinkedSkip<R>(sem: Semantics<R>, st: State<R>, stage: Stage, t1: Table, t2: Table, a2: Args)
    requires Linked(t1, st.args, t2, a2) && RunStage(sem, st, stage).Some?
    ensures Linked(BodyTable(t1, stage.index, Body(stage)), RunStage(sem, st, stage).value.args, t2, a2)
  {
    hide Linked, RunBody, BodyTable;
    var base := RunFrom(sem, st, stage.fromRef, FromLooks(stage)).value;
    LinkedBodyAlone(sem, st.done, t1, st.args, t2, a2, base, Body(stage), stage.index);
  }

  /** The pruned run follows the full run stage by stage. */
  lemma {:induction false} PrunedTrace<R>(sem: Semantics<R>, stages: seq<Stage>, keep: set<nat>, f: seq<State<R>>, k: nat)
    returns (p: seq<State<R>>)
    requires IsRun(sem, stages, Every(stages), f) && k < |f| && Closed(stages, keep)
    requires Steady(f[0].args.Keys, stages, keep)
    ensures |p| == k + 1 && Follows(sem, stages, keep, f, p)
  {
    if k == 0 {
      p := [f[0]];
      LinkedSelf(f[0].args);
    } else {
      hide Steady, Closed, SameResults, LinkedAt;
      var q := PrunedTrace(sem, stages, keep, f, k - 1);
      if k - 1 in keep {
        var next := FollowKept(sem, stages, keep, f, q);
        p := q + [next];
      } else {
        FollowSkipped(sem, stages, keep, f, q);
        p := q + [q[k - 1]];
      }
    }
  }

  lemma SameResultsSnoc<R>(keep: set<nat>, f: seq<State<R>>, p: seq<State<R>>, next: State<R>)
    requires |p| >= 1 && |p| < |f| && SameResults(keep, f, p)
    requires |p| - 1 in keep ==> SameResult(f, p + [next], |p| - 1)
    ensures SameResults(keep, f, p + [next])
  {
    forall j | 0 <= j < |p| && j in keep ensures SameResult(f, p + [next], j) {
      if j < |p| - 1 {
        assert SameResult(f, p, j);
      }
    }
  }

  /** The image is the result of the last finished stage. */
  lemma {:induction false} ImageOf<R>(sem: Semantics<R>, seed: Args, plan: Plan, keep: set<nat>, tr: seq<State<R>>)
    requires IsRun(sem, plan.stages, keep, tr) && |tr| == |plan.stages| + 1
    requires RunPreamble(sem, seed, plan.preamble) == Some(tr[0].args)
    ensures var done := tr[|plan.stages|].done;
            Execute(sem, seed, plan, keep) == if done == [] then None else Some(done[|done| - 1].result)
  {
    TraceRuns(sem, plan.stages, keep, tr, |plan.stages|);
    assert tr[0] == State(tr[0].args, []);
  }

  /** A successful build has a trace. */
  lemma BuildTrace<R>(sem: Semantics<R>, seed: Args, plan: Plan, keep: set<nat>) returns (tr: seq<State<R>>)
    requires PlanOk(plan) && Execute(sem, seed, plan, keep).Some?
    ensures IsRun(sem, plan.stages, keep, tr) && |tr| == |plan.stages| + 1
    ensures RunPreamble(sem, seed, plan.preamble) == Some(tr[0].args)
  {
    var args := RunPreamble(sem, seed, plan.preamble).value;
    tr := TraceOf(sem, State(args, []), plan.stages, keep, |plan.stages|);
  }

  /** The keys bound when the first stage starts. */
  ghost function SeedKeys(seed: Args, plan: Plan): set<string> {
    seed.Keys + Declares(plan.preamble)
  }

  lemma {:induction false} PreambleKeys<R>(sem: Semantics<R>, seed: Args, preamble: seq<Instr>)
    requires RunPreamble(sem, seed, preamble).Some?
    ensures RunPreamble(sem, seed, preamble).value.Keys == seed.Keys + Declares(preamble)
  {
    if preamble != [] {
      var front := preamble[..|preamble| - 1];
      PreambleKeys(sem, seed, front);
      assert forall y :: y in preamble <==> y in front || y == preamble[|preamble| - 1] by {
        assert front + [preamble[|preamble| - 1]] == preamble;
      }
    }
  }

  /**
   * If building every stage succeeds, building only the stages in keep succeeds with the same image,
   * for every set keep that is closed under references and holds the last stage, provided every kept
   * instruction finds the arguments it looks at as if all stages had run.
   */
  lemma PruningPreserves<R>(sem: Semantics<R>, seed: Args, plan: Plan, keep: set<nat>)
    requires PlanOk(plan) && Closed(plan.stages, keep)
    requires plan.stages != [] ==> |plan.stages| - 1 in keep
    requires Steady(SeedKeys(seed, plan), plan.stages, keep)
    requires Execute(sem, seed, plan, Every(plan.stages)).Some?
    ensures Execute(sem, seed, plan, keep) == Execute(sem, seed, plan, Every(plan.stages))
  {
    hide Steady, Closed, IsRun, Every;
    var n := |plan.stages|;
    var f := BuildTrace(sem, seed, plan, Every(plan.stages));
    PreambleKeys(sem, seed, plan.preamble);
    var p := PrunedTrace(sem, plan.stages, keep, f, n);
    ImageOf(sem, seed, plan, Every(plan.stages), f);
    ImageOf(sem, seed, plan, keep, p);
    if n > 0 {
      assert SameResult(f, p, n - 1);
    }
  }
}
