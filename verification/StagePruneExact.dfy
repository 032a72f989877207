/**
 * The other half of the pruning theorem: when a kept FROM or step looks at an
 * argument that pruning takes away or changes, some builder semantics tells the
 * two builds apart.
 *
 * The semantics used records the whole history of a root file system as a tree,
 * with the arguments each FROM and each step has seen.
 */
module StagePruneExact {
  import opened Prelude
  import opened StagePlan
  import opened StageRun
  import opened StageArgs
  import opened StagePrune

  datatype Tree = Tree(seen: Args, kids: seq<Tree>)

  const LEAF := Tree(map[], [])

  function SourceTree(s: Source<Tree>): Tree {
    if s.Built? then s.result else LEAF
  }

  function SourceTrees(srcs: seq<Source<Tree>>): (t: seq<Tree>)
    ensures |t| == |srcs|
    ensures forall i :: 0 <= i < |srcs| ==> t[i] == SourceTree(srcs[i])
  {
    if srcs == [] then [] else SourceTrees(srcs[..|srcs| - 1]) + [SourceTree(srcs[|srcs| - 1])]
  }

  /** Never fails, and remembers everything; a word expands to itself. */
  function Recording(): Semantics<Tree> {
    Semantics(
      (seen: Args, src: Source<Tree>) => Some(Tree(seen, [SourceTree(src)])),
      (seen: Args, cur: Option<Tree>, text: string) => Some(text),
      (seen: Args, cur: Tree, text: string, srcs: seq<Source<Tree>>) => Some(Tree(seen, [cur] + SourceTrees(srcs))))
  }

  /** The errors the builder reports whatever the steps do: work before the first FROM, an empty image name. */
  ghost predicate CanRun(plan: Plan) {
    && plan.stages != []
    && (forall i :: 0 <= i < |plan.preamble| ==> plan.preamble[i].Arg?)
    && (forall i :: 0 <= i < |plan.stages| ==> plan.stages[i].fromRef != "")
  }

  // ---------- what the recording run has in its table ----------

  function ValueOf(b: Bound, start: Args, key: string): string {
    if !b.Given? then b.text else if key in start then start[key] else ""
  }

  /** The table holds, for each key, what the plan says bound it. */
  ghost predicate Foretold(t: Table, start: Args, a: Args) {
    t.Keys == a.Keys
    && forall k :: k in t && k in a ==> (t[k].Given? <==> k in start) && a[k] == ValueOf(t[k], start, k)
  }

  /** The texts of a table: what a recording can show of it. */
  ghost function Shown(t: Table): map<string, Option<string>> {
    map k | k in t :: if t[k].Given? then None else Some(t[k].text)
  }

  lemma ShownSame(t1: Table, t2: Table, start: Args, a1: Args, a2: Args, looks: Looks)
    requires Foretold(t1, start, a1) && Foretold(t2, start, a2) && Seen(a1, looks) == Seen(a2, looks)
    ensures Seen(Shown(t1), looks) == Seen(Shown(t2), looks)
  {
    var s1, s2 := Seen(a1, looks), Seen(a2, looks);
    var u1, u2 := Seen(Shown(t1), looks), Seen(Shown(t2), looks);
    forall k ensures k in u1 <==> k in u2 {
      assert k in s1 <==> k in s2;
    }
    forall k | k in u1 ensures u1[k] == u2[k] {
      assert k in s1 && s1[k] == a1[k] && s2[k] == a2[k];
    }
  }

  lemma RecordInstr(done: seq<Done<Tree>>, t: Table, start: Args, a: Args, cur: Tree, x: Instr, stage: nat, at: nat)
    requires !x.From? && Foretold(t, start, a) && start.Keys <= a.Keys
    ensures RunInstr(Recording(), done, a, cur, x).Some?
    ensures var r := RunInstr(Recording(), done, a, cur, x).value.0;
            Foretold(InstrTable(t, x, stage, at), start, r) && start.Keys <= r.Keys
  {
    hide Seen, Sources;
    if x.Arg? {
      assert x.key in t <==> x.key in a;
      if x.key !in t {
        hide Foretold;
        RecordBind(t, start, a, x.key, BoundBy(x.value, stage, at));
      }
    }
  }

  lemma RecordBind(t: Table, start: Args, a: Args, key: string, b: Bound)
    requires Foretold(t, start, a) && start.Keys <= a.Keys && key !in a && !b.Given?
    ensures Foretold(t[key := b], start, a[key := b.text])
  {
  }

  lemma {:induction false} RecordBody(done: seq<Done<Tree>>, t: Table, start: Args, a: Args, cur: Tree, body: seq<Instr>, stage: nat)
    requires NoFrom(body) && Foretold(t, start, a) && start.Keys <= a.Keys
    ensures RunBody(Recording(), done, a, cur, body).Some?
    ensures var r := RunBody(Recording(), done, a, cur, body).value.0;
            Foretold(BodyTable(t, stage, body), start, r) && start.Keys <= r.Keys
  {
    hide Recording, RunInstr, InstrTable, Foretold, NoFrom;
    if body != [] {
      var k := |body| - 1;
      NoFromFront(body);
      RecordBody(done, t, start, a, cur, body[..k], stage);
      var mid := RunBody(Recording(), done, a, cur, body[..k]).value;
      LastNoFrom(body);
      RecordInstr(done, BodyTable(t, stage, body[..k]), start, mid.0, mid.1, body[k], stage, k);
    }
  }

  lemma LastNoFrom(body: seq<Instr>)
    requires body != [] && NoFrom(body)
    ensures !body[|body| - 1].From?
  {
  }

  lemma {:induction false} RecordStage(st: State<Tree>, t: Table, start: Args, stage: Stage)
    requires StageOk(stage, stage.index) && stage.fromRef != "" && Foretold(t, start, st.args) && start.Keys <= st.args.Keys
    ensures RunStage(Recording(), st, stage).Some?
    ensures var r := RunStage(Recording(), st, stage).value.args;
            Foretold(BodyTable(t, stage.index, Body(stage)), start, r) && start.Keys <= r.Keys
  {
    hide Foretold, BodyTable, RunBody, Seen, NoFrom, RefsOf;
    var base := RunFrom(Recording(), st, stage.fromRef, FromLooks(stage)).value;
    RecordBody(st.done, t, start, st.args, base, Body(stage), stage.index);
  }

  lemma StartForetold(start: Args)
    ensures Foretold(StartTable(start.Keys), start, start)
  {
  }

  /** The recording run of any set of stages goes through, with the table the plan foretells. */
  lemma {:induction false} RecordStages(start: Args, stages: seq<Stage>, keep: set<nat>, k: nat)
    requires k <= |stages| && StagesOk(stages)
    requires forall i :: 0 <= i < |stages| ==> stages[i].fromRef != ""
    ensures RunStages(Recording(), State(start, []), stages, keep, k).Some?
    ensures var r := RunStages(Recording(), State(start, []), stages, keep, k).value.args;
            Foretold(TableBefore(start.Keys, stages, keep, k), start, r) && start.Keys <= r.Keys
  {
    if k == 0 {
      StartForetold(start);
    } else {
      hide RunStages, RunStage, Recording, StageOk, Foretold, BodyTable;
      RecordStages(start, stages, keep, k - 1);
      RunNext(Recording(), State(start, []), stages, keep, k - 1);
      IndexIs(stages, k - 1);
      RecordStage(RunStages(Recording(), State(start, []), stages, keep, k - 1).value,
                  TableBefore(start.Keys, stages, keep, k - 1), start, stages[k - 1]);
    }
  }

  lemma {:induction false} ForetoldAt(stages: seq<Stage>, keep: set<nat>, tr: seq<State<Tree>>, k: nat)
    requires IsRun(Recording(), stages, keep, tr) && k < |tr|
    requires forall i :: 0 <= i < |stages| ==> stages[i].fromRef != ""
    ensures Foretold(TableBefore(tr[0].args.Keys, stages, keep, k), tr[0].args, tr[k].args)
  {
    hide RunStages, Recording, StepAt, StageOk, Foretold;
    TraceRuns(Recording(), stages, keep, tr, k);
    assert tr[0] == State(tr[0].args, []);
    RecordStages(tr[0].args, stages, keep, k);
  }

  lemma {:induction false} RecordPreamble(seed: Args, preamble: seq<Instr>)
    requires forall i :: 0 <= i < |preamble| ==> preamble[i].Arg?
    ensures RunPreamble(Recording(), seed, preamble).Some?
  {
    if preamble != [] {
      RecordPreamble(seed, preamble[..|preamble| - 1]);
    }
  }

  // ---------- equal trees come from equal sources and equal arguments ----------

  ghost predicate SameTree(d1: seq<Done<Tree>>, d2: seq<Done<Tree>>, ref: string) {
    SourceTree(SourceOf(d1, ref)) == SourceTree(SourceOf(d2, ref))
  }

  /** Step q of the body sees the same texts in both tables. */
  ghost predicate ShownAt(t1: Table, t2: Table, stage: nat, body: seq<Instr>, q: nat)
    requires q < |body|
  {
    body[q].Step? ==>
      Seen(Shown(BodyTable(t1, stage, body[..q])), body[q].looks) == Seen(Shown(BodyTable(t2, stage, body[..q])), body[q].looks)
  }

  ghost predicate BodyShown(t1: Table, t2: Table, stage: nat, body: seq<Instr>) {
    forall q {:trigger ShownAt(t1, t2, stage, body, q)} :: 0 <= q < |body| ==> ShownAt(t1, t2, stage, body, q)
  }

  ghost predicate StageShown(t1: Table, t2: Table, stage: Stage) {
    Seen(Shown(t1), FromLooks(stage)) == Seen(Shown(t2), FromLooks(stage)) && BodyShown(t1, t2, stage.index, Body(stage))
  }

  ghost predicate AllSame(d1: seq<Done<Tree>>, d2: seq<Done<Tree>>, refs: seq<string>) {
    forall ref :: ref in refs ==> SameTree(d1, d2, ref)
  }

  lemma {:induction false} BodyInjective(d1: seq<Done<Tree>>, d2: seq<Done<Tree>>, t1: Table, a1: Args, t2: Table, a2: Args, start: Args,
                                         c1: Tree, c2: Tree, body: seq<Instr>, stage: nat)
    requires NoFrom(body) && Foretold(t1, start, a1) && Foretold(t2, start, a2) && start.Keys <= a1.Keys && start.Keys <= a2.Keys
    requires RunBody(Recording(), d1, a1, c1, body).Some? && RunBody(Recording(), d2, a2, c2, body).Some?
    requires RunBody(Recording(), d1, a1, c1, body).value.1 == RunBody(Recording(), d2, a2, c2, body).value.1
    ensures c1 == c2 && AllSame(d1, d2, RefsOf(body)) && BodyShown(t1, t2, stage, body)
  {
    hide Recording, RunInstr, Foretold, NoFrom, SameTree, Shown, BodyTable;
    if body != [] {
      var k := |body| - 1;
      var x, front := body[k], body[..k];
      NoFromFront(body);
      LastNoFrom(body);
      RecordBody(d1, t1, start, a1, c1, front, stage);
      RecordBody(d2, t2, start, a2, c2, front, stage);
      var r1 := RunBody(Recording(), d1, a1, c1, front).value;
      var r2 := RunBody(Recording(), d2, a2, c2, front).value;
      InstrInjective(d1, d2, r1.0, r2.0, r1.1, r2.1, x);
      BodyInjective(d1, d2, t1, a1, t2, a2, start, c1, c2, front, stage);
      if x.Step? {
        ShownSame(BodyTable(t1, stage, front), BodyTable(t2, stage, front), start, r1.0, r2.0, x.looks);
      }
      ShownSnoc(t1, t2, stage, body);
    }
  }

  lemma ShownSnoc(t1: Table, t2: Table, stage: nat, body: seq<Instr>)
    requires body != [] && BodyShown(t1, t2, stage, body[..|body| - 1]) && ShownAt(t1, t2, stage, body, |body| - 1)
    ensures BodyShown(t1, t2, stage, body)
  {
    hide Shown, BodyTable, Seen;
    var front := body[..|body| - 1];
    forall q | 0 <= q < |body| ensures ShownAt(t1, t2, stage, body, q) {
      if q < |front| {
        assert ShownAt(t1, t2, stage, front, q);
        assert front[..q] == body[..q];
      }
    }
  }

  lemma InstrInjective(d1: seq<Done<Tree>>, d2: seq<Done<Tree>>, a1: Args, a2: Args, c1: Tree, c2: Tree, x: Instr)
    requires !x.From?
    requires RunInstr(Recording(), d1, a1, c1, x).Some? && RunInstr(Recording(), d2, a2, c2, x).Some?
    requires RunInstr(Recording(), d1, a1, c1, x).value.1 == RunInstr(Recording(), d2, a2, c2, x).value.1
    ensures c1 == c2 && AllSame(d1, d2, InstrRefs(x))
    ensures x.Step? ==> Seen(a1, x.looks) == Seen(a2, x.looks)
  {
    if x.Step? {
      StepTree(d1, a1, c1, x);
      StepTree(d2, a2, c2, x);
      hide RunInstr, Recording, Seen, SameTree;
      KidsInjective(d1, d2, c1, c2, x.refs);
    }
  }

  /** What a step leaves: the arguments it has seen, over the tree so far and its sources. */
  lemma StepTree(done: seq<Done<Tree>>, a: Args, cur: Tree, x: Instr)
    requires x.Step?
    ensures RunInstr(Recording(), done, a, cur, x) == Some((a, Tree(Seen(a, x.looks), Kids(done, cur, x.refs))))
  {
    hide Seen, Sources;
  }

  function Kids(done: seq<Done<Tree>>, cur: Tree, refs: seq<string>): seq<Tree> {
    [cur] + SourceTrees(Sources(done, refs))
  }

  lemma KidsInjective(d1: seq<Done<Tree>>, d2: seq<Done<Tree>>, c1: Tree, c2: Tree, refs: seq<string>)
    requires Kids(d1, c1, refs) == Kids(d2, c2, refs)
    ensures c1 == c2 && AllSame(d1, d2, refs)
  {
    hide SourceOf;
    var k1, k2 := Kids(d1, c1, refs), Kids(d2, c2, refs);
    assert k1[0] == k2[0];
    forall ref | ref in refs ensures SameTree(d1, d2, ref) {
      var i :| 0 <= i < |refs| && refs[i] == ref;
      assert k1[i + 1] == k2[i + 1];
    }
  }

  lemma StageInjective(f: State<Tree>, p: State<Tree>, t1: Table, t2: Table, start: Args, stage: Stage, f': State<Tree>, p': State<Tree>)
    requires StageOk(stage, stage.index)
    requires Foretold(t1, start, f.args) && Foretold(t2, start, p.args) && start.Keys <= f.args.Keys && start.Keys <= p.args.Keys
    requires RunStage(Recording(), f, stage) == Some(f') && RunStage(Recording(), p, stage) == Some(p')
    requires f'.done[|f.done|].result == p'.done[|p.done|].result
    ensures StageShown(t1, t2, stage)
    ensures forall ref :: ref in Refs(stage) && ref != "scratch" ==> SameTree(f.done, p.done, ref)
  {
    hide RunBody, Foretold, Seen, BodyShown, NoFrom, RefsOf;
    var b1 := RunFrom(Recording(), f, stage.fromRef, FromLooks(stage)).value;
    var b2 := RunFrom(Recording(), p, stage.fromRef, FromLooks(stage)).value;
    BodyInjective(f.done, p.done, t1, f.args, t2, p.args, start, b1, b2, Body(stage), stage.index);
    assert b1.kids[0] == b2.kids[0];
    ShownSame(t1, t2, start, f.args, p.args, FromLooks(stage));
  }

  /** No stage reads as the reserved name, so a FROM of that name never hides a stage. */
  ghost predicate NoScratchStage(stages: seq<Stage>) {
    forall i :: 0 <= i < |stages| ==> stages[i].alias != "scratch"
  }

  lemma {:induction false} NotNumeral(n: nat)
    ensures Itoa(n) != "scratch"
  {
    assert "scratch"[0] == 's' && Itoa(n)[0] <= '9';
  }

  lemma {:induction false} ScratchUnresolved(stages: seq<Stage>, k: nat)
    requires k <= |stages| && NoScratchStage(stages)
    ensures Resolve(stages, k, "scratch") == None
  {
    var r := Resolve(stages, k, "scratch");
    ResolveIsNearest(stages, k, "scratch");
    assert "scratch"[0] == 's';
    if r.Some? {
      NotNumeral(stages[r.value].index);
    }
  }

  // ---------- a difference at one stage reaches the last one ----------

  lemma {:induction false} SameNeeded(stages: seq<Stage>, all: set<nat>, keep: set<nat>, f: seq<State<Tree>>, p: seq<State<Tree>>, j: nat, i: nat, ref: string)
    requires IsRun(Recording(), stages, all, f) && IsRun(Recording(), stages, keep, p)
    requires i in keep && i in all
    requires j < |f| && j < |p|
    requires Resolve(stages, j, ref) == Some(i) && SameTree(f[j].done, p[j].done, ref)
    ensures SameResult(f, p, i)
  {
    hide IsRun, Recording, Resolve, Lookup;
    LookupIsResolve(Recording(), stages, all, f, j, ref);
    LookupIsResolve(Recording(), stages, keep, p, j, ref);
  }

  /** Two recording runs from the same arguments, one of every stage and one of those kept. */
  ghost predicate TwoRuns(stages: seq<Stage>, keep: set<nat>, f: seq<State<Tree>>, p: seq<State<Tree>>) {
    && IsRun(Recording(), stages, Every(stages), f) && IsRun(Recording(), stages, keep, p)
    && |f| == |p| == |stages| + 1 && f[0] == p[0]
    && Closed(stages, keep) && NoScratchStage(stages)
    && forall i :: 0 <= i < |stages| ==> stages[i].fromRef != ""
  }

  /** The tables of stage j in the full and in the pruned run show the same to its FROM and steps. */
  ghost predicate ShownBefore(seed: set<string>, stages: seq<Stage>, keep: set<nat>, j: nat)
    requires j < |stages|
  {
    StageShown(TableBefore(seed, stages, Every(stages), j), TableBefore(seed, stages, keep, j), stages[j])
  }

  /** Equal results of a stage mean equal results of every stage it needs, and equal arguments shown to it. */
  lemma SameBelow(stages: seq<Stage>, keep: set<nat>, f: seq<State<Tree>>, p: seq<State<Tree>>, j: nat)
    requires TwoRuns(stages, keep, f, p) && j < |stages| && j in keep && SameResult(f, p, j)
    ensures ShownBefore(f[0].args.Keys, stages, keep, j)
    ensures forall i :: i in Needs(stages, j) ==> i < j && SameResult(f, p, i)
  {
    hide IsRun, Recording, RunStage, Foretold, StageShown, TableBefore, Refs, SameTree, StageOk;
    RunsEvery(Recording(), stages, f);
    KeptStep(Recording(), stages, Every(stages), f, j);
    KeptStep(Recording(), stages, keep, p, j);
    BothRecord(stages, keep, f, p, j);
    StageAppends(Recording(), f[j], stages[j]);
    StageAppends(Recording(), p[j], stages[j]);
    var seed := f[0].args.Keys;
    StageInjective(f[j], p[j], TableBefore(seed, stages, Every(stages), j), TableBefore(seed, stages, keep, j), f[0].args, stages[j],
                   f[j + 1], p[j + 1]);
    forall i | i in Needs(stages, j) ensures i < j && SameResult(f, p, i) {
      var ref :| ref in Refs(stages[j]) && Resolve(stages, j, ref) == Some(i);
      ScratchUnresolved(stages, j);
      SameNeeded(stages, Every(stages), keep, f, p, j, i, ref);
    }
  }

  lemma {:induction false} BothRecord(stages: seq<Stage>, keep: set<nat>, f: seq<State<Tree>>, p: seq<State<Tree>>, j: nat)
    requires TwoRuns(stages, keep, f, p) && j < |stages|
    ensures var seed := f[0].args.Keys;
            && Foretold(TableBefore(seed, stages, Every(stages), j), f[0].args, f[j].args) && seed <= f[j].args.Keys
            && Foretold(TableBefore(seed, stages, keep, j), f[0].args, p[j].args) && seed <= p[j].args.Keys
  {
    hide IsRun, Recording, Closed;
    ForetoldAt(stages, Every(stages), f, j);
    ForetoldAt(stages, keep, p, j);
    StartStays(f[0].args.Keys, stages, Every(stages), j);
    StartStays(f[0].args.Keys, stages, keep, j);
  }

  lemma {:induction false} StartStays(seed: set<string>, stages: seq<Stage>, keep: set<nat>, k: nat)
    requires k <= |stages|
    ensures seed <= TableBefore(seed, stages, keep, k).Keys
  {
    if k > 0 {
      hide BodyTable;
      StartStays(seed, stages, keep, k - 1);
      BodyKeeps(TableBefore(seed, stages, keep, k - 1), k - 1, Body(stages[k - 1]));
    }
  }

  lemma {:induction false} BodyKeeps(t: Table, stage: nat, body: seq<Instr>)
    ensures t.Keys <= BodyTable(t, stage, body).Keys
  {
    if body != [] {
      BodyKeeps(t, stage, body[..|body| - 1]);
    }
  }

  lemma {:induction false} SameAlong(stages: seq<Stage>, keep: set<nat>, f: seq<State<Tree>>, p: seq<State<Tree>>, path: seq<nat>)
    requires TwoRuns(stages, keep, f, p)
    requires IsPath(stages, path) && path[0] in keep && SameResult(f, p, path[0])
    ensures path[|path| - 1] in keep && SameResult(f, p, path[|path| - 1])
  {
    if |path| > 1 {
      assert path[1] in Needs(stages, path[0]);
      SameBelow(stages, keep, f, p, path[0]);
      hide IsRun, Recording, ShownBefore, SameResult, Needs;
      SameAlong(stages, keep, f, p, path[1..]);
    }
  }

  /** Some kept stage has a FROM or a step that is shown different arguments once the others are gone. */
  ghost predicate Telling(seed: set<string>, stages: seq<Stage>, keep: set<nat>) {
    exists j {:trigger ShownBefore(seed, stages, keep, j)} :: 0 <= j < |stages| && j in keep && !ShownBefore(seed, stages, keep, j)
  }

  lemma ResultsDiffer(stages: seq<Stage>, keep: set<nat>, f: seq<State<Tree>>, p: seq<State<Tree>>)
    requires TwoRuns(stages, keep, f, p) && Telling(f[0].args.Keys, stages, keep)
    requires stages != [] && |stages| - 1 in keep && forall j :: j in keep ==> Reachable(stages, j)
    ensures !SameResult(f, p, |stages| - 1)
  {
    hide IsRun, Recording, ShownBefore, SameResult, Needs, Closed;
    var j :| 0 <= j < |stages| && j in keep && !ShownBefore(f[0].args.Keys, stages, keep, j);
    if SameResult(f, p, |stages| - 1) {
      var path :| PathTo(stages, path, j);
      SameAlong(stages, keep, f, p, path);
      SameBelow(stages, keep, f, p, j);
    }
  }

  /** The recording semantics always produces an image, that of the last stage. */
  lemma RecordingTrace(seed: Args, plan: Plan, keep: set<nat>) returns (tr: seq<State<Tree>>)
    requires PlanOk(plan) && CanRun(plan) && |plan.stages| - 1 in keep
    ensures IsRun(Recording(), plan.stages, keep, tr) && |tr| == |plan.stages| + 1
    ensures RunPreamble(Recording(), seed, plan.preamble) == Some(tr[0].args) && tr[0] == State(tr[0].args, [])
    ensures tr[0].args.Keys == SeedKeys(seed, plan) && tr[|plan.stages|].done != []
    ensures Execute(Recording(), seed, plan, keep) == Some(ResultAt(tr, |plan.stages| - 1))
  {
    hide Recording, IsRun;
    var n := |plan.stages|;
    RecordPreamble(seed, plan.preamble);
    PreambleKeys(Recording(), seed, plan.preamble);
    var start := RunPreamble(Recording(), seed, plan.preamble).value;
    RecordStages(start, plan.stages, keep, n);
    tr := TraceOf(Recording(), State(start, []), plan.stages, keep, n);
    ImageOf(Recording(), seed, plan, keep, tr);
    Records(Recording(), plan.stages, keep, tr, n - 1);
  }

  /** If a kept FROM or step is shown different arguments, the recording semantics tells the builds apart. */
  lemma PruningTellsApart(seed: Args, plan: Plan, keep: set<nat>)
    requires PlanOk(plan) && CanRun(plan) && NoScratchStage(plan.stages)
    requires Closed(plan.stages, keep) && |plan.stages| - 1 in keep
    requires forall i :: i in keep ==> Reachable(plan.stages, i)
    requires Telling(SeedKeys(seed, plan), plan.stages, keep)
    ensures Execute(Recording(), seed, plan, Every(plan.stages)).Some?
    ensures Execute(Recording(), seed, plan, keep) != Execute(Recording(), seed, plan, Every(plan.stages))
  {
    hide Execute, IsRun, Closed, Reachable, RunPreamble, NoScratchStage, SeedKeys, Telling, Recording, StageOk;
    EveryHolds(plan.stages);
    var f := RecordingTrace(seed, plan, Every(plan.stages));
    var p := RecordingTrace(seed, plan, keep);
    ResultsDiffer(plan.stages, keep, f, p);
  }

  // ---------- the exact condition ----------

  /** Pruning keeps the image of every successful build. */
  ghost predicate PruningSafe(seed: Args, plan: Plan, keep: set<nat>) {
    forall sem: Semantics<Tree> :: Execute(sem, seed, plan, Every(plan.stages)).Some? ==>
      Execute(sem, seed, plan, keep) == Execute(sem, seed, plan, Every(plan.stages))
  }

  /** No ARG of a stage has a default that must be expanded. */
  ghost predicate PlainDefaults(stages: seq<Stage>) {
    forall i :: 0 <= i < |stages| ==> PlainBody(Body(stages[i]))
  }

  ghost predicate PlainBody(body: seq<Instr>) {
    forall q :: 0 <= q < |body| ==> Plain(body[q])
  }

  predicate Plain(x: Instr) {
    x.Arg? && x.value.Some? ==> x.value.value.Literal?
  }

  ghost predicate Settled(t: Table) {
    forall k :: k in t ==> !t[k].Expanded?
  }

  lemma {:induction false} BodySettled(t: Table, stage: nat, body: seq<Instr>)
    requires Settled(t) && PlainBody(body)
    ensures Settled(BodyTable(t, stage, body))
  {
    if body != [] {
      var k := |body| - 1;
      BodySettled(t, stage, body[..k]);
      assert Plain(body[k]);
    }
  }

  lemma {:induction false} TableSettled(seed: set<string>, stages: seq<Stage>, keep: set<nat>, k: nat)
    requires PlainDefaults(stages) && k <= |stages|
    ensures Settled(TableBefore(seed, stages, keep, k))
  {
    if k > 0 {
      hide Settled, PlainBody, BodyTable;
      TableSettled(seed, stages, keep, k - 1);
      if k - 1 in keep {
        BodySettled(TableBefore(seed, stages, keep, k - 1), k - 1, Body(stages[k - 1]));
      }
    }
  }

  /** Settled tables that show the same are the same. */
  lemma ShownAll(t1: Table, t2: Table, looks: Looks)
    requires Settled(t1) && Settled(t2)
    ensures Seen(Shown(t1), looks) == Seen(Shown(t2), looks) <==> Seen(t1, looks) == Seen(t2, looks)
  {
    var s1, s2 := Seen(t1, looks), Seen(t2, looks);
    var u1, u2 := Seen(Shown(t1), looks), Seen(Shown(t2), looks);
    assert u1.Keys == s1.Keys && u2.Keys == s2.Keys;
    if u1 == u2 {
      forall k | k in s1 ensures k in s2 && s1[k] == s2[k] {
        assert k in u1 && k in u2 && u1[k] == u2[k];
      }
    }
    if s1 == s2 {
      forall k | k in u1 ensures k in u2 && u1[k] == u2[k] {
        assert k in s1 && k in s2 && s1[k] == s2[k];
      }
    }
  }

  lemma ShownIsAlike(t1: Table, t2: Table, stage: Stage)
    requires Settled(t1) && Settled(t2) && PlainBody(Body(stage)) && NoFrom(Body(stage))
    ensures StageShown(t1, t2, stage) <==> StageAlike(t1, t2, stage)
  {
    hide Seen, Shown, BodyTable, Settled;
    var body, n := Body(stage), stage.index;
    ShownAll(t1, t2, FromLooks(stage));
    forall q | 0 <= q < |body| ensures ShownAt(t1, t2, n, body, q) <==> AlikeAt(t1, t2, n, body, q) {
      BodySettled(t1, n, body[..q]);
      BodySettled(t2, n, body[..q]);
      assert Plain(body[q]) && !body[q].From?;
      if body[q].Step? {
        ShownAll(BodyTable(t1, n, body[..q]), BodyTable(t2, n, body[..q]), body[q].looks);
      }
    }
  }

  /** With plain defaults, what is not told apart is steady. */
  lemma TellingExactly(seed: set<string>, stages: seq<Stage>, keep: set<nat>)
    requires StagesOk(stages) && PlainDefaults(stages)
    ensures Telling(seed, stages, keep) <==> !Steady(seed, stages, keep)
  {
    hide StageShown, StageAlike, Settled, PlainBody, TableBefore;
    forall j | 0 <= j < |stages| ensures ShownBefore(seed, stages, keep, j) <==> SteadyAt(seed, stages, keep, j) {
      TableSettled(seed, stages, Every(stages), j);
      TableSettled(seed, stages, keep, j);
      assert StageOk(stages[j], j);
      ShownIsAlike(TableBefore(seed, stages, Every(stages), j), TableBefore(seed, stages, keep, j), stages[j]);
    }
  }

  /**
   * Running only the reachable stages is safe for every semantics exactly when every kept instruction
   * finds the arguments it looks at as if all stages had run.
   */
  lemma PruningSafeExactly(seed: Args, plan: Plan, keep: set<nat>)
    requires PlanOk(plan) && CanRun(plan) && NoScratchStage(plan.stages) && PlainDefaults(plan.stages)
    requires Closed(plan.stages, keep) && |plan.stages| - 1 in keep
    requires forall i :: i in keep ==> Reachable(plan.stages, i)
    ensures PruningSafe(seed, plan, keep) <==> Steady(SeedKeys(seed, plan), plan.stages, keep)
  {
    hide Execute, Closed, Reachable, NoScratchStage, SeedKeys, Telling, Steady, StageOk, Every, PlainDefaults, CanRun, Recording;
    TellingExactly(SeedKeys(seed, plan), plan.stages, keep);
    if Steady(SeedKeys(seed, plan), plan.stages, keep) {
      forall sem: Semantics<Tree> | Execute(sem, seed, plan, Every(plan.stages)).Some?
        ensures Execute(sem, seed, plan, keep) == Execute(sem, seed, plan, Every(plan.stages))
      {
        PruningPreserves(sem, seed, plan, keep);
      }
    } else {
      PruningTellsApart(seed, plan, keep);
    }
  }

  // ---------- three files ----------

  const NOTHING: Looks := Only({})

  /** FROM x AS a, then the given instruction; FROM y, then the given body. */
  function TwoStages(x: Instr, body: seq<Instr>): Plan {
    Plan([], [Stage(0, "a", "x", RefsOf([x]), [From("x", "a", NOTHING), x]),
              Stage(1, "", "y", RefsOf(body), [From("y", "", NOTHING)] + body)])
  }

  lemma {:induction false} TwoStagesOk(x: Instr, body: seq<Instr>)
    requires x.Arg? && NoFrom(body) && RefsOf(body) == []
    ensures var plan := TwoStages(x, body);
            && PlanOk(plan) && CanRun(plan) && NoScratchStage(plan.stages)
            && Closed(plan.stages, {1}) && Reachable(plan.stages, 1)
            && Body(plan.stages[0]) == [x] && Body(plan.stages[1]) == body
  {
    var plan := TwoStages(x, body);
    var s0, s1 := plan.stages[0], plan.stages[1];
    assert s0.instrs[1..] == [x] && s1.instrs[1..] == body;
    assert StageOk(s0, 0) && StageOk(s1, 1);
    LastStage(plan.stages);
  }

  lemma LastStage(stages: seq<Stage>)
    requires |stages| == 2 && stages[0].index == 0 && stages[0].alias == "a" && stages[1].fromRef == "y" && stages[1].deps == []
    ensures Closed(stages, {1}) && Reachable(stages, 1)
  {
    assert Itoa(0) == "0";
    assert Resolve(stages, 0, "y") == None;
    assert Resolve(stages, 1, "y") == None;
    assert Needs(stages, 1) == {};
    assert PathTo(stages, [1], 1);
  }

  /** What stage 1 of such a file finds in its table, with stage 0 and without. */
  lemma {:induction false} TwoTables(x: Instr, body: seq<Instr>)
    requires x.Arg? && NoFrom(body) && RefsOf(body) == []
    ensures var stages := TwoStages(x, body).stages;
            && TableBefore({}, stages, {1}, 1) == map[]
            && TableBefore({}, stages, Every(stages), 1) == map[x.key := BoundBy(x.value, 0, 0)]
            && SeedKeys(map[], TwoStages(x, body)) == {}
  {
    var stages := TwoStages(x, body).stages;
    TwoStagesOk(x, body);
    hide Closed, Reachable;
    EveryHolds(stages);
    hide Every;
    assert TableBefore({}, stages, {1}, 0) == map[];
    assert TableBefore({}, stages, Every(stages), 0) == map[];
    assert [x][..0] == [];
    assert BodyTable(map[], 0, [x]) == map[x.key := BoundBy(x.value, 0, 0)];
  }

  /** Dropping stage 0 of such a file is safe exactly when stage 1 does not miss what stage 0 declares. */
  lemma {:induction false} TwoStagesExactly(x: Instr, body: seq<Instr>)
    requires x.Arg? && Plain(x) && NoFrom(body) && RefsOf(body) == [] && PlainBody(body)
    ensures PruningSafe(map[], TwoStages(x, body), {1}) <==> BodyAlike(map[x.key := BoundBy(x.value, 0, 0)], map[], 1, body)
  {
    hide PruningSafe, BodyAlike, BodyTable, NoFrom, PlainBody, Every;
    var plan := TwoStages(x, body);
    var t1, t2: Table := map[x.key := BoundBy(x.value, 0, 0)], map[];
    TwoStagesOk(x, body);
    TwoTables(x, body);
    assert FromLooks(plan.stages[1]) == NOTHING;
    assert Seen(t1, NOTHING) == map[] && Seen(t2, NOTHING) == map[];
    assert SteadyAt({}, plan.stages, {1}, 1) <==> BodyAlike(t1, t2, 1, body);
    PlainTwo(x, body);
    hide PlanOk, CanRun, NoScratchStage, Closed, Reachable, SeedKeys, PlainDefaults, SteadyAt;
    OnlyOne(plan.stages);
    PruningSafeExactly(map[], plan, {1});
  }

  lemma {:induction false} PlainTwo(x: Instr, body: seq<Instr>)
    requires x.Arg? && Plain(x) && NoFrom(body) && RefsOf(body) == [] && PlainBody(body)
    ensures PlainDefaults(TwoStages(x, body).stages)
  {
    hide PlanOk, CanRun, NoScratchStage, Closed, Reachable;
    TwoStagesOk(x, body);
  }

  lemma OnlyOne(stages: seq<Stage>)
    requires |stages| == 2
    ensures Steady({}, stages, {1}) <==> SteadyAt({}, stages, {1}, 1)
  {
    hide SteadyAt;
  }

  /** FROM x AS a, ARG V=1, FROM y, RUN env: the dropped stage takes V with it. */
  lemma ArgLeaks()
    ensures !PruningSafe(map[], TwoStages(Arg("V", Some(Literal("1"))), [Step("RUN env", [], Everything)]), {1})
  {
    hide PruningSafe, TwoStages;
    var x, run := Arg("V", Some(Literal("1"))), Step("RUN env", [], Everything);
    assert [run][..0] == [];
    var t1, t2: Table := map["V" := Text("1")], map[];
    assert "V" in t1 && "V" !in t2;
    assert !AlikeAt(t1, t2, 1, [run], 0);
    TwoStagesExactly(x, [run]);
  }

  /** FROM x AS a, ARG V, FROM y, ARG V, RUN env: the kept stage declares V again, and nothing is lost. */
  lemma Redeclared()
    ensures PruningSafe(map[], TwoStages(Arg("V", None), [Arg("V", None), Step("RUN env", [], Everything)]), {1})
  {
    hide PruningSafe, TwoStages;
    var x, run := Arg("V", None), Step("RUN env", [], Everything);
    var body := [x, run];
    assert body[..1] == [x] && body[..0] == [] && [x][..0] == [];
    assert RefsOf([x]) == [] && RefsOf(body) == [];
    var t1, t2: Table := map["V" := Text("")], map[];
    assert BodyTable(t1, 1, []) == t1 && BodyTable(t2, 1, []) == t2;
    assert BodyTable(t1, 1, [x]) == t1 && BodyTable(t2, 1, [x]) == t1;
    assert AlikeAt(t1, t2, 1, body, 0) && AlikeAt(t1, t2, 1, body, 1);
    TwoStagesExactly(x, body);
  }

  /** FROM x AS a, ARG V=1, FROM y: nothing looks at V. */
  lemma Unread()
    ensures PruningSafe(map[], TwoStages(Arg("V", Some(Literal("1"))), []), {1})
  {
    hide PruningSafe, TwoStages;
    TwoStagesExactly(Arg("V", Some(Literal("1"))), []);
  }
}
