/** Compose start-up: services start in order, each gated on its dependencies' conditions. */
module ServiceStart {
  import opened Names
  import opened Prelude
  import opened ServiceOrder
  import opened ServiceSort

  datatype Condition = Started | Healthy | CompletedSuccessfully | Unsupported

  datatype Spec = Spec(condition: Condition, required: bool)

  type Config = map<Name, map<Name, Spec>>

  /** What the health check lookup says of a service. */
  datatype Check = Invalid | Missing | Usable

  /** A started service as the stack records it. */
  datatype Vm = Vm(failed: bool, hasResult: bool, hasHandle: bool)

  predicate Up(vm: Vm) {
    !vm.failed && vm.hasResult && vm.hasHandle
  }

  /** The calls into the outside world, with their outcomes, in the order they were made. */
  datatype Event =
    | Launch(name: Name, ok: bool)
    | Probe(name: Name, ok: bool)
    | Exit(name: Name, code: Option<int>)

  /** What the log must show of a dependency before the dependent may start. */
  ghost predicate Met(log: seq<Event>, dep: Name, c: Condition) {
    Launch(dep, true) in log
    && (c == Healthy ==> Probe(dep, true) in log)
    && (c == CompletedSuccessfully ==> Exit(dep, Some(0)) in log)
    && c != Unsupported
  }

  /** The outside world was asked about a running dependency, whatever it answered and required or not. */
  ghost predicate Asked(checks: map<Name, Check>, log: seq<Event>, dep: Name, c: Condition) {
    (c == Healthy && CheckOf(checks, dep) == Usable ==> Probe(dep, true) in log || Probe(dep, false) in log)
    && (c == CompletedSuccessfully ==> exists code :: Exit(dep, code) in log)
    && c != Unsupported
  }

  /** Started and not failed since. */
  ghost predicate Running(log: seq<Event>, n: Name) {
    Launch(n, true) in log && Launch(n, false) !in log
  }

  /**
   * At step i: a start finds every required dependency's condition met and every running dependency asked,
   * a probe or exit finds its service started.
   */
  ghost predicate SafeAt(cfg: Config, checks: map<Name, Check>, log: seq<Event>, i: nat) {
    i < |log| ==>
      var e := log[i];
      if e.Launch? then
        e.name in cfg
        && (forall d :: d in cfg[e.name] && cfg[e.name][d].required ==> Met(log[..i], d, cfg[e.name][d].condition))
        && (forall d :: d in cfg[e.name] && Running(log[..i], d) ==> Asked(checks, log[..i], d, cfg[e.name][d].condition))
      else
        Launch(e.name, true) in log[..i]
  }

  ghost predicate Safe(cfg: Config, checks: map<Name, Check>, log: seq<Event>) {
    forall i :: 0 <= i < |log| ==> SafeAt(cfg, checks, log, i)
  }

  lemma SafeAppend(cfg: Config, checks: map<Name, Check>, log: seq<Event>, e: Event)
    requires Safe(cfg, checks, log) && SafeAt(cfg, checks, log + [e], |log|)
    ensures Safe(cfg, checks, log + [e])
  {
    var more := log + [e];
    forall i | 0 <= i < |more| ensures SafeAt(cfg, checks, more, i) {
      if i < |log| {
        assert SafeAt(cfg, checks, log, i);
        assert more[..i] == log[..i];
      }
    }
  }

  /** The services started, in order. */
  function Launches(log: seq<Event>): seq<Name> {
    if log == [] then
      []
    else
      var k := |log| - 1;
      Launches(log[..k]) + (if log[k].Launch? then [log[k].name] else [])
  }

  lemma {:induction false} LaunchesAppend(log: seq<Event>, e: Event)
    ensures Launches(log + [e]) == Launches(log) + (if e.Launch? then [e.name] else [])
  {
    assert (log + [e])[..|log|] == log;
  }

  ghost predicate RequiredAs(cfg: Config, d: Name, c: Condition) {
    exists n :: n in cfg && d in cfg[n] && cfg[n][d] == Spec(c, true)
  }

  /** An outcome that may stop the start-up. */
  ghost predicate Fatal(cfg: Config, e: Event) {
    match e
    case Launch(_, ok) => !ok
    case Probe(d, ok) => !ok && RequiredAs(cfg, d, Healthy)
    case Exit(d, code) => code != Some(0) && RequiredAs(cfg, d, CompletedSuccessfully)
  }

  ghost predicate DefectAt(cfg: Config, checks: map<Name, Check>, n: Name, d: Name) {
    n in cfg && d in cfg[n]
    && (cfg[n][d].condition == Unsupported
        || (cfg[n][d] == Spec(Healthy, true) && CheckOf(checks, d) != Usable))
  }

  /** A configuration error that stops the start-up whatever happens. */
  ghost predicate Defect(cfg: Config, checks: map<Name, Check>) {
    exists n, d :: DefectAt(cfg, checks, n, d)
  }

  ghost predicate Blame(cfg: Config, checks: map<Name, Check>, log: seq<Event>) {
    Defect(cfg, checks) || exists e :: e in log && Fatal(cfg, e)
  }

  lemma BlameEvent(cfg: Config, checks: map<Name, Check>, log: seq<Event>, e: Event)
    requires e in log && Fatal(cfg, e)
    ensures Blame(cfg, checks, log)
  {
  }

  function CheckOf(checks: map<Name, Check>, d: Name): Check {
    if d in checks then checks[d] else Missing
  }

  /** The services some other service requires healthy. */
  function RequiredHealthy(cfg: Config): (r: set<Name>)
    ensures forall d :: d in r <==> RequiredAs(cfg, d, Healthy)
  {
    var r := set n, d | n in cfg.Keys && d in cfg[n].Keys && cfg[n][d] == Spec(Healthy, true) :: d;
    assert forall d :: RequiredAs(cfg, d, Healthy) ==> d in r;
    r
  }

  /** The dependency graph the sort sees. */
  function Graph(cfg: Config): Deps {
    map n | n in cfg :: cfg[n].Keys
  }

  class Stack {
    const cfg: Config
    const checks: map<Name, Check>
    var services: map<Name, Vm>
    var healthy: set<Name>
    var completed: map<Name, int>
    var log: seq<Event>

    constructor (cfg: Config, checks: map<Name, Check>)
      ensures this.cfg == cfg && this.checks == checks && Valid() && log == [] && services == map[]
    {
      this.cfg, this.checks := cfg, checks;
      services, healthy, completed, log := map[], {}, map[], [];
    }

    /** Everything the stack remembers is backed by the log, and the log is safe so far. */
    ghost predicate Valid()
      reads this
    {
      Safe(cfg, checks, log)
      && (forall n :: n in services && Up(services[n]) ==> Launch(n, true) in log)
      && (forall n :: Running(log, n) ==> n in services && Up(services[n]))
      && (forall n :: n in healthy ==> Probe(n, true) in log)
      && (forall n :: n in completed ==> Exit(n, Some(completed[n])) in log)
    }

    /** waitForHealthy: any outcome may come back. */
    method WaitForHealthy(name: Name) returns (ok: bool)
      requires Valid() && name in services && Up(services[name])
      modifies `log
      ensures Valid() && log == old(log) + [Probe(name, ok)]
    {
      ok := *;
      assert (log + [Probe(name, ok)])[..|log|] == log;
      SafeAppend(cfg, checks, log, Probe(name, ok));
      hide Safe;
      log := log + [Probe(name, ok)];
    }

    /** waitForServiceExitCode: any code, or an error. */
    method WaitForExitCode(name: Name) returns (code: Option<int>)
      requires Valid() && name in services && Up(services[name])
      modifies `log
      ensures Valid() && log == old(log) + [Exit(name, code)]
    {
      code := *;
      assert (log + [Exit(name, code)])[..|log|] == log;
      SafeAppend(cfg, checks, log, Exit(name, code));
      hide Safe;
      log := log + [Exit(name, code)];
    }

    /** startService: it may fail, and then there is no usable VM. */
    method StartService(name: Name) returns (ok: bool)
      requires Valid() && name in cfg
      requires forall d :: d in cfg[name] && cfg[name][d].required ==> Met(log, d, cfg[name][d].condition)
      requires forall d :: d in cfg[name] && d in services && Up(services[d]) ==> Asked(checks, log, d, cfg[name][d].condition)
      modifies `log, `services
      ensures Valid() && log == old(log) + [Launch(name, ok)]
      ensures services.Keys == old(services).Keys + {name} && (Up(services[name]) <==> ok)
      ensures forall n :: n in old(services) && n != name ==> services[n] == old(services)[n]
    {
      ok := *;
      assert (log + [Launch(name, ok)])[..|log|] == log;
      SafeAppend(cfg, checks, log, Launch(name, ok));
      hide Safe;
      log := log + [Launch(name, ok)];
      services := services[name := Vm(!ok, ok, ok)];
    }

    /** Only probes and waits were added to the log. */
    twostate predicate Waited()
      reads this
    {
      old(log) <= log && Launches(log) == Launches(old(log)) && services == old(services)
    }

    /** A service_healthy dependency: probed unless already known healthy. */
    method CheckHealthy(dep: Name, required: bool) returns (ok: bool)
      requires Valid() && dep in services && Up(services[dep])
      modifies `log, `healthy
      ensures Valid() && Waited()
      ensures dep in old(healthy) ==> ok && log == old(log) && healthy == old(healthy)
      ensures dep !in old(healthy) && CheckOf(checks, dep) != Usable ==> ok == !required && log == old(log) && healthy == old(healthy)
      ensures dep !in old(healthy) && CheckOf(checks, dep) == Usable ==>
        || (log == old(log) + [Probe(dep, true)] && ok && healthy == old(healthy) + {dep})
        || (log == old(log) + [Probe(dep, false)] && ok == !required && healthy == old(healthy))
      ensures ok && required ==> Probe(dep, true) in log
      ensures !ok ==> required && (CheckOf(checks, dep) != Usable || Probe(dep, false) in log)
    {
      if dep in healthy {
        return true;
      }
      if CheckOf(checks, dep) != Usable {
        return !required;
      }
      ok := WaitForHealthy(dep);
      LaunchesAppend(old(log), Probe(dep, ok));
      if !ok {
        return !required;
      }
      hide Safe;
      healthy := healthy + {dep};
    }

    /** A service_completed_successfully dependency: its exit code awaited once. */
    method CheckCompleted(dep: Name, required: bool) returns (ok: bool)
      requires Valid() && dep in services && Up(services[dep])
      modifies `log, `completed
      ensures Valid() && Waited()
      ensures dep in old(completed) ==>
        log == old(log) && completed == old(completed) && ok == (completed[dep] == 0 || !required)
      ensures dep !in old(completed) ==> exists code ::
        && log == old(log) + [Exit(dep, code)] && ok == (code == Some(0) || !required)
        && completed == (if code.Some? then old(completed)[dep := code.value] else old(completed))
      ensures ok && required ==> Exit(dep, Some(0)) in log
      ensures !ok ==> required && exists code :: code != Some(0) && Exit(dep, code) in log
    {
      if dep in completed {
        return completed[dep] == 0 || !required;
      }
      var code := WaitForExitCode(dep);
      LaunchesAppend(old(log), Exit(dep, code));
      if code.None? {
        return !required;
      }
      hide Safe;
      completed := completed[dep := code.value];
      return code.value == 0 || !required;
    }

    /** One dependency of one service. */
    method CheckDependency(dep: Name, spec: Spec) returns (ok: bool)
      requires Valid()
      modifies `log, `healthy, `completed
      ensures Valid() && Waited()
      ensures ok && spec.required ==> Met(log, dep, spec.condition)
      ensures !ok ==> Refused(dep, spec)
      ensures dep !in services || !Up(services[dep]) ==> ok == !spec.required && log == old(log)
      ensures dep in services && Up(services[dep]) && spec.condition == Started ==> ok && log == old(log)
      ensures dep in services && Up(services[dep]) && spec.condition == Unsupported ==> !ok && log == old(log)
      ensures dep in services && Up(services[dep]) && ok ==> Asked(checks, log, dep, spec.condition)
    {
      if dep !in services || !Up(services[dep]) {
        return !spec.required;
      }
      match spec.condition {
        case Started => ok := true;
        case Healthy => ok := CheckHealthy(dep, spec.required);
        case CompletedSuccessfully => ok := CheckCompleted(dep, spec.required);
        case Unsupported => ok := false;
      }
    }

    /** Why a dependency turned its dependent away. */
    ghost predicate Refused(dep: Name, spec: Spec)
      reads this
    {
      || spec.condition == Unsupported
      || (spec.required && (dep !in services || !Up(services[dep])))
      || (spec == Spec(Healthy, true) && (CheckOf(checks, dep) != Usable || Probe(dep, false) in log))
      || (spec == Spec(CompletedSuccessfully, true) && exists code :: code != Some(0) && Exit(dep, code) in log)
    }

    lemma RefusedBlame(name: Name, dep: Name, spec: Spec)
      requires Refused(dep, spec) && name in cfg && dep in cfg[name] && cfg[name][dep] == spec
      requires dep in services && Up(services[dep])
      ensures Blame(cfg, checks, log)
    {
      if spec.condition == Unsupported || (spec == Spec(Healthy, true) && CheckOf(checks, dep) != Usable) {
        assert DefectAt(cfg, checks, name, dep);
      } else if spec == Spec(Healthy, true) {
        assert RequiredAs(cfg, dep, Healthy);
        BlameEvent(cfg, checks, log, Probe(dep, false));
      } else {
        var code :| code != Some(0) && Exit(dep, code) in log;
        assert RequiredAs(cfg, dep, CompletedSuccessfully);
        BlameEvent(cfg, checks, log, Exit(dep, code));
      }
    }

    lemma MetGrows(log: seq<Event>, log': seq<Event>, d: Name, c: Condition)
      requires log <= log' && Met(log, d, c)
      ensures Met(log', d, c)
    {
    }

    lemma AskedGrows(log: seq<Event>, log': seq<Event>, d: Name, c: Condition)
      requires log <= log' && Asked(checks, log, d, c)
      ensures Asked(checks, log', d, c)
    {
    }

    /** Every dependency of a service, in name order. */
    method WaitForDependencies(name: Name) returns (ok: bool)
      requires Valid() && name in cfg
      modifies `log, `healthy, `completed
      ensures Valid() && Waited()
      ensures ok ==> forall d :: d in cfg[name] && cfg[name][d].required ==> Met(log, d, cfg[name][d].condition)
      ensures ok ==> forall d :: d in cfg[name] && d in services && Up(services[d]) ==> Asked(checks, log, d, cfg[name][d].condition)
      ensures !ok && (forall d :: d in cfg[name] ==> d in services && Up(services[d])) ==> Blame(cfg, checks, log)
    {
      hide Safe, Met, Asked, Running, Refused, Blame, Elems, NoDup, Sorted, Ascending, Launches;
      var deps := cfg[name];
      var names := DependsOn(deps.Keys);
      AscendingNoDup(names);
      ElemsEnds(names);
      for i := 0 to |names|
        invariant Valid() && Waited()
        invariant Elems(names[..i]) <= deps.Keys
        invariant forall d :: d in Elems(names[..i]) && deps[d].required ==> Met(log, d, deps[d].condition)
        invariant forall d :: d in Elems(names[..i]) && d in services && Up(services[d]) ==> Asked(checks, log, d, deps[d].condition)
      {
        var dep := names[i];
        ElemsStep(names, i);
        ghost var before := log;
        ok := CheckDependency(dep, deps[dep]);
        if !ok {
          if dep in services && Up(services[dep]) {
            RefusedBlame(name, dep, deps[dep]);
          }
          return;
        }
        forall d | d in Elems(names[..i]) && deps[d].required ensures Met(log, d, deps[d].condition) {
          MetGrows(before, log, d, deps[d].condition);
        }
        forall d | d in Elems(names[..i]) && d in services && Up(services[d]) ensures Asked(checks, log, d, deps[d].condition) {
          AskedGrows(before, log, d, deps[d].condition);
        }
      }
      ok := true;
    }

    /** After a required-healthy service starts, it must pass a probe at once. */
    method ProbeStarted(name: Name) returns (ok: bool)
      requires Valid() && name in services && Up(services[name]) && RequiredAs(cfg, name, Healthy)
      modifies `log, `healthy
      ensures Valid() && Waited()
      ensures CheckOf(checks, name) != Usable ==> !ok && log == old(log) && healthy == old(healthy)
      ensures CheckOf(checks, name) == Usable ==>
        log == old(log) + [Probe(name, ok)] && healthy == old(healthy) + (if ok then {name} else {})
      ensures ok ==> Probe(name, true) in log
      ensures !ok ==> Blame(cfg, checks, log)
    {
      if CheckOf(checks, name) != Usable {
        var n :| n in cfg && name in cfg[n] && cfg[n][name] == Spec(Healthy, true);
        assert DefectAt(cfg, checks, n, name);
        return false;
      }
      ok := WaitForHealthy(name);
      LaunchesAppend(old(log), Probe(name, ok));
      if !ok {
        BlameEvent(cfg, checks, log, Probe(name, false));
        return;
      }
      hide Safe;
      healthy := healthy + {name};
    }

    /** The services listed so far are all up. */
    ghost predicate AllUp(names: seq<Name>)
      reads this
    {
      forall n :: n in names ==> n in services && Up(services[n])
    }

    /** One service: wait for its dependencies, start it, and probe it if some dependent needs it healthy. */
    method StartOne(order: seq<Name>, i: nat) returns (ok: bool)
      requires Valid() && i < |order| && order[i] in cfg && AllUp(order[..i]) && Launches(log) == order[..i]
      requires Probed(log, order[..i])
      modifies this
      ensures Valid() && Launches(log) <= order
      ensures ok ==> AllUp(order[..i + 1]) && Launches(log) == order[..i + 1] && Probed(log, order[..i + 1])
      ensures !ok && Topological(Graph(cfg), order) ==> Blame(cfg, checks, log)
    {
      hide Safe, Met, Asked, Running, Blame, Launches, RequiredAs, Topological, Probed;
      var name := order[i];
      assert order[..i + 1] == order[..i] + [name];
      assert order[..i] <= order && order[..i + 1] <= order;
      ok := WaitForDependencies(name);
      if !ok {
        if Topological(Graph(cfg), order) {
          DependenciesUp(order, i);
        }
        return;
      }
      LaunchesAppend(log, Launch(name, true));
      LaunchesAppend(log, Launch(name, false));
      ok := StartService(name);
      if !ok {
        BlameEvent(cfg, checks, log, Launch(name, false));
        return;
      }
      if name in RequiredHealthy(cfg) {
        ok := ProbeStarted(name);
      }
      if ok {
        ProbedNext(old(log), log, order[..i], name);
      }
    }

    /** Every listed service that some other requires healthy has passed a probe. */
    ghost predicate Probed(log: seq<Event>, names: seq<Name>) {
      forall n :: n in names && RequiredAs(cfg, n, Healthy) ==> Probe(n, true) in log
    }

    lemma ProbedNext(log: seq<Event>, log': seq<Event>, names: seq<Name>, name: Name)
      requires Probed(log, names) && log <= log' && (RequiredAs(cfg, name, Healthy) ==> Probe(name, true) in log')
      ensures Probed(log', names + [name])
    {
    }

    lemma DependenciesUp(order: seq<Name>, i: nat)
      requires Topological(Graph(cfg), order) && i < |order| && AllUp(order[..i])
      ensures order[i] in cfg && forall d :: d in cfg[order[i]] ==> d in services && Up(services[d])
    {
      TopologicalAt(Graph(cfg), order, i);
      forall d | d in cfg[order[i]] ensures d in services && Up(services[d]) {
        assert d in Elems(order[..i]);
      }
    }

    /**
     * Whatever the outside world answers: no service starts before the conditions of its required
     * dependencies are met; services start in the given order and stop at the first failure; and,
     * for an order the sort returned, start-up fails only if some call failed that a required
     * dependency rests on, or the configuration asks for something unsupported.
     */
    method StartAll(order: seq<Name>) returns (ok: bool)
      requires Valid() && log == [] && services == map[] && Elems(order) <= cfg.Keys
      modifies this
      ensures Safe(cfg, checks, log)
      ensures Launches(log) <= order
      ensures ok ==> Launches(log) == order && AllUp(order) && Probed(log, order)
      ensures !ok && Topological(Graph(cfg), order) ==> Blame(cfg, checks, log)
    {
      hide Blame, Topological, Launches;
      assert Launches(log) == [] by { LaunchesNone(); }
      for i := 0 to |order|
        invariant Valid() && AllUp(order[..i]) && Launches(log) == order[..i] && Probed(log, order[..i])
      {
        assert order[i] in Elems(order);
        ok := StartOne(order, i);
        if !ok {
          return;
        }
      }
      assert order[..|order|] == order;
      ok := true;
    }
  }

  lemma LaunchesNone()
    ensures Launches([]) == []
  {
  }
}
