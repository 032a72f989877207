/**
 * Build arguments across stages. ARG writes a table the whole build shares and
 * never rebinds a key, so what each instruction finds in it can be told from the
 * plan alone, up to the words that are expanded while building.
 */
module StageArgs {
  import opened Prelude
  import opened StagePlan
  import opened StageRun

  // ---------- the table, told from the plan ----------

  /** What bound a key: it was there when the first stage began, or the ARG at that place did. */
  datatype Bound = Given | Text(text: string) | Expanded(stage: nat, at: nat, text: string)

  type Table = map<string, Bound>

  function BoundBy(value: Option<Default>, stage: nat, at: nat): Bound {
    if value.None? then Text("")
    else
      match value.value
      case Literal(text) => Text(text)
      case Word(text, _) => Expanded(stage, at, text)
  }

  /** The table after instruction number at of a stage. */
  function InstrTable(t: Table, x: Instr, stage: nat, at: nat): Table {
    if x.Arg? && x.key !in t then t[x.key := BoundBy(x.value, stage, at)] else t
  }

  function BodyTable(t: Table, stage: nat, body: seq<Instr>): Table {
    if body == [] then t
    else
      var k := |body| - 1;
      InstrTable(BodyTable(t, stage, body[..k]), body[k], stage, k)
  }

  ghost function StartTable(seed: set<string>): Table {
    map k | k in seed :: Given
  }

  /** The table before stage k of a build that runs the stages in keep. */
  ghost function TableBefore(seed: set<string>, stages: seq<Stage>, keep: set<nat>, k: nat): Table
    requires k <= |stages|
  {
    if k == 0 then StartTable(seed)
    else
      var t := TableBefore(seed, stages, keep, k - 1);
      if k - 1 in keep then BodyTable(t, k - 1, Body(stages[k - 1])) else t
  }

  // ---------- when pruned stages are not missed ----------

  /** The instruction finds the same in both tables; an ARG looks only if its default is still to be expanded. */
  predicate Alike(x: Instr, t1: Table, t2: Table) {
    match x
    case From(_, _, looks) => Seen(t1, looks) == Seen(t2, looks)
    case Step(_, _, looks) => Seen(t1, looks) == Seen(t2, looks)
    case Arg(key, value) =>
      value.Some? && value.value.Word? ==>
        (key in t1 <==> key in t2) && (key in t1 || Seen(t1, value.value.looks) == Seen(t2, value.value.looks))
  }

  ghost predicate AlikeAt(t1: Table, t2: Table, stage: nat, body: seq<Instr>, q: nat)
    requires q < |body|
  {
    Alike(body[q], BodyTable(t1, stage, body[..q]), BodyTable(t2, stage, body[..q]))
  }

  ghost predicate BodyAlike(t1: Table, t2: Table, stage: nat, body: seq<Instr>) {
    forall q {:trigger AlikeAt(t1, t2, stage, body, q)} :: 0 <= q < |body| ==> AlikeAt(t1, t2, stage, body, q)
  }

  ghost predicate StageAlike(t1: Table, t2: Table, stage: Stage) {
    Seen(t1, FromLooks(stage)) == Seen(t2, FromLooks(stage)) && BodyAlike(t1, t2, stage.index, Body(stage))
  }

  /** Every instruction of every kept stage finds the arguments it looks at as if all stages had run. */
  ghost predicate Steady(seed: set<string>, stages: seq<Stage>, keep: set<nat>) {
    forall j {:trigger SteadyAt(seed, stages, keep, j)} :: 0 <= j < |stages| && j in keep ==> SteadyAt(seed, stages, keep, j)
  }

  ghost predicate SteadyAt(seed: set<string>, stages: seq<Stage>, keep: set<nat>, j: nat)
    requires j < |stages|
  {
    StageAlike(TableBefore(seed, stages, Every(stages), j), TableBefore(seed, stages, keep, j), stages[j])
  }

  // ---------- tables and argument values ----------

  /** The keys are those bound, and text binds itself. */
  ghost predicate Fits(t: Table, a: Args) {
    t.Keys == a.Keys && forall k :: k in t && k in a && t[k].Text? ==> a[k] == t[k].text
  }

  /** The second run has bound no more than the first, and keys bound alike have equal values. */
  ghost predicate Linked(t1: Table, a1: Args, t2: Table, a2: Args) {
    && Fits(t1, a1) && Fits(t2, a2) && t2.Keys <= t1.Keys
    && forall k :: k in t1 && k in t2 && k in a1 && k in a2 && t1[k] == t2[k] ==> a1[k] == a2[k]
  }

  lemma LinkedSelf(a: Args)
    ensures Linked(StartTable(a.Keys), a, StartTable(a.Keys), a)
  {
  }

  lemma SeenSame(t1: Table, a1: Args, t2: Table, a2: Args, looks: Looks)
    requires Linked(t1, a1, t2, a2) && Seen(t1, looks) == Seen(t2, looks)
    ensures Seen(a1, looks) == Seen(a2, looks)
  {
    var s1, s2 := Seen(t1, looks), Seen(t2, looks);
    forall k ensures k in Seen(a1, looks) <==> k in Seen(a2, looks) {
      assert k in s1 <==> k in s2;
    }
    forall k | k in Seen(a1, looks) ensures Seen(a1, looks)[k] == Seen(a2, looks)[k] {
      assert k in s1 && s1[k] == t1[k] && s2[k] == t2[k];
    }
  }

  /** Binding one new key in both runs, alike only if the values are. */
  lemma BindBoth(t1: Table, a1: Args, t2: Table, a2: Args, key: string, b: Bound, v1: string, v2: string)
    requires Linked(t1, a1, t2, a2) && key !in t1
    requires v1 == v2 && (b.Text? ==> v1 == b.text)
    ensures Linked(t1[key := b], a1[key := v1], t2[key := b], a2[key := v2])
  {
  }

  /** Binding a key only in the run that had not bound it. */
  lemma BindSecond(t1: Table, a1: Args, t2: Table, a2: Args, key: string, text: string)
    requires Linked(t1, a1, t2, a2) && key in t1 && key !in t2
    ensures Linked(t1, a1, t2[key := Text(text)], a2[key := text])
  {
  }

  lemma BindFirst(t1: Table, a1: Args, t2: Table, a2: Args, key: string, b: Bound, v: string)
    requires Linked(t1, a1, t2, a2) && key !in t1 && (b.Text? ==> v == b.text)
    ensures Linked(t1[key := b], a1[key := v], t2, a2)
  {
  }

  // ---------- running both ----------

  /** If the first run gets past an ARG, so does the second. */
  lemma LinkedArg<R>(sem: Semantics<R>, t1: Table, a1: Args, t2: Table, a2: Args, cur: R, x: Instr, stage: nat, at: nat)
    requires Linked(t1, a1, t2, a2) && x.Arg? && Alike(x, t1, t2)
    requires Declare(sem, a1, Some(cur), x.key, x.value).Some?
    ensures Declare(sem, a2, Some(cur), x.key, x.value).Some?
    ensures Linked(InstrTable(t1, x, stage, at), Declare(sem, a1, Some(cur), x.key, x.value).value,
                   InstrTable(t2, x, stage, at), Declare(sem, a2, Some(cur), x.key, x.value).value)
  {
    assert (x.key in t1 <==> x.key in a1) && (x.key in t2 <==> x.key in a2) && (x.key in t2 ==> x.key in t1);
    var b := BoundBy(x.value, stage, at);
    if x.key !in t1 {
      if x.value.Some? && x.value.value.Word? {
        SeenSame(t1, a1, t2, a2, x.value.value.looks);
      }
      hide Linked, Seen;
      var v := Declare(sem, a1, Some(cur), x.key, x.value).value[x.key];
      BindBoth(t1, a1, t2, a2, x.key, b, v, v);
    } else if x.key !in t2 {
      hide Linked, Seen;
      BindSecond(t1, a1, t2, a2, x.key, b.text);
    }
  }

  lemma {:induction false} LinkedInstr<R>(sem: Semantics<R>, d1: seq<Done<R>>, d2: seq<Done<R>>, t1: Table, a1: Args, t2: Table, a2: Args, cur: R, x: Instr,
                       stage: nat, at: nat)
    requires Linked(t1, a1, t2, a2) && Alike(x, t1, t2) && Sources(d1, InstrRefs(x)) == Sources(d2, InstrRefs(x))
    requires RunInstr(sem, d1, a1, cur, x).Some?
    ensures RunInstr(sem, d2, a2, cur, x).Some?
    ensures var r1, r2 := RunInstr(sem, d1, a1, cur, x).value, RunInstr(sem, d2, a2, cur, x).value;
            r1.1 == r2.1 && Linked(InstrTable(t1, x, stage, at), r1.0, InstrTable(t2, x, stage, at), r2.0)
  {
    hide Linked, Seen, Declare, Sources, InstrTable, BoundBy;
    match x
    case Arg(_, _) => LinkedArg(sem, t1, a1, t2, a2, cur, x, stage, at);
    case Step(_, _, looks) =>
      SeenSame(t1, a1, t2, a2, looks);
      NoArg(t1, x, stage, at);
      NoArg(t2, x, stage, at);
  }

  lemma NoArg(t: Table, x: Instr, stage: nat, at: nat)
    requires !x.Arg?
    ensures InstrTable(t, x, stage, at) == t
  {
  }

  /** One instruction that only the first run has. */
  lemma LinkedAlone<R>(sem: Semantics<R>, done: seq<Done<R>>, t1: Table, a1: Args, t2: Table, a2: Args, cur: R, x: Instr, stage: nat, at: nat)
    requires Linked(t1, a1, t2, a2) && RunInstr(sem, done, a1, cur, x).Some?
    ensures Linked(InstrTable(t1, x, stage, at), RunInstr(sem, done, a1, cur, x).value.0, t2, a2)
  {
    assert x.Arg? ==> (x.key in t1 <==> x.key in a1);
    hide Linked, Seen;
    if x.Arg? && x.key !in t1 {
      var after := RunInstr(sem, done, a1, cur, x).value.0;
      BindFirst(t1, a1, t2, a2, x.key, BoundBy(x.value, stage, at), after[x.key]);
    }
  }

  lemma {:induction false} LinkedBodyAlone<R>(sem: Semantics<R>, done: seq<Done<R>>, t1: Table, a1: Args, t2: Table, a2: Args, cur: R,
                                              body: seq<Instr>, stage: nat)
    requires Linked(t1, a1, t2, a2) && RunBody(sem, done, a1, cur, body).Some?
    ensures Linked(BodyTable(t1, stage, body), RunBody(sem, done, a1, cur, body).value.0, t2, a2)
  {
    hide Linked, RunInstr, InstrTable;
    if body != [] {
      var k := |body| - 1;
      var mid := RunBody(sem, done, a1, cur, body[..k]).value;
      LinkedBodyAlone(sem, done, t1, a1, t2, a2, cur, body[..k], stage);
      LinkedAlone(sem, done, BodyTable(t1, stage, body[..k]), mid.0, t2, a2, mid.1, body[k], stage, k);
    }
  }

  lemma {:induction false} AlikeFront(t1: Table, t2: Table, stage: nat, body: seq<Instr>)
    requires body != [] && BodyAlike(t1, t2, stage, body)
    ensures var k := |body| - 1;
            && BodyAlike(t1, t2, stage, body[..k])
            && Alike(body[k], BodyTable(t1, stage, body[..k]), BodyTable(t2, stage, body[..k]))
  {
    hide Alike, BodyTable;
    var k := |body| - 1;
    var front := body[..k];
    forall q | 0 <= q < k ensures AlikeAt(t1, t2, stage, front, q) {
      assert AlikeAt(t1, t2, stage, body, q);
      assert front[..q] == body[..q];
    }
    assert AlikeAt(t1, t2, stage, body, k);
  }

  // ---------- a simple way to be steady ----------

  /** The keys the instructions declare. */
  ghost function Declares(instrs: seq<Instr>): set<string> {
    set x | x in instrs && x.Arg? :: x.key
  }

  /** No pruned stage is the first to declare an argument. */
  ghost predicate PrunedArgsBound(seed: set<string>, stages: seq<Stage>, keep: set<nat>) {
    forall i {:trigger BoundAt(seed, stages, keep, i)} :: 0 <= i < |stages| && i !in keep ==> BoundAt(seed, stages, keep, i)
  }

  ghost predicate BoundAt(seed: set<string>, stages: seq<Stage>, keep: set<nat>, i: nat)
    requires i < |stages|
  {
    Declares(Body(stages[i])) <= TableBefore(seed, stages, keep, i).Keys
  }

  lemma {:induction false} NothingNew(t: Table, stage: nat, body: seq<Instr>)
    requires Declares(body) <= t.Keys
    ensures BodyTable(t, stage, body) == t
  {
    if body != [] {
      var k := |body| - 1;
      forall key | key in Declares(body[..k]) ensures key in Declares(body) {
        var x :| x in body[..k] && x.Arg? && x.key == key;
        assert x in body;
      }
      NothingNew(t, stage, body[..k]);
      assert body[k] in body;
    }
  }

  lemma {:induction false} SameTables(seed: set<string>, stages: seq<Stage>, keep: set<nat>, k: nat)
    requires StagesOk(stages) && PrunedArgsBound(seed, stages, keep) && k <= |stages|
    ensures TableBefore(seed, stages, Every(stages), k) == TableBefore(seed, stages, keep, k)
  {
    hide Declares, BodyTable;
    if k > 0 {
      SameTables(seed, stages, keep, k - 1);
      EveryHolds(stages);
      if k - 1 !in keep {
        assert BoundAt(seed, stages, keep, k - 1);
        NothingNew(TableBefore(seed, stages, keep, k - 1), k - 1, Body(stages[k - 1]));
      }
    }
  }

  /** It is enough that no pruned stage is the first to declare an argument. */
  lemma BoundIsSteady(seed: set<string>, stages: seq<Stage>, keep: set<nat>)
    requires StagesOk(stages) && PrunedArgsBound(seed, stages, keep)
    ensures Steady(seed, stages, keep)
  {
    hide PrunedArgsBound, TableBefore, BodyTable, Seen;
    forall j | 0 <= j < |stages| && j in keep ensures SteadyAt(seed, stages, keep, j) {
      SameTables(seed, stages, keep, j);
      AlikeSelf(TableBefore(seed, stages, keep, j), stages[j]);
    }
  }

  lemma AlikeSelf(t: Table, stage: Stage)
    ensures StageAlike(t, t, stage)
  {
    hide BodyTable, Seen;
  }
}
