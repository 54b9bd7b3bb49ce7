/** Running the actions of a trigger, level by level: each sees what its dependencies put out. */
module Trigger {
  import opened Levels
  import Matrix
  import opened Slices

  type Combo = Matrix.Combo

  type Outputs = map<string, string>

  /** What one dependency hands over to an action. */
  datatype Handover = Handover(dep: string, outputs: Outputs)

  type Env = seq<Handover>

  datatype Status = Passed | Failed | TimedOut | Error

  datatype Report = Skipped(name: string) | Ran(name: string, combo: Combo, env: Env, status: Status, outputs: Outputs)

  /** The command of an action, with its retries: any function of what it is given. */
  type Runner = (string, Combo, Env) -> (Status, Outputs)

  /** An action with the verdict on its path condition and its matrix combinations. */
  datatype Entry = Entry(action: Action, wanted: bool, combos: seq<Combo>)

  type Definitions = map<string, Entry>

  // ---------------------------------------------------------------- what one action does

  /** The outputs of the listed dependencies that are there, in the order of the list. */
  function EnvOf(deps: seq<string>, completed: map<string, Outputs>): Env {
    if deps == [] then []
    else
      var dep := deps[|deps| - 1];
      EnvOf(deps[..|deps| - 1], completed) + if dep in completed then [Handover(dep, completed[dep])] else []
  }

  function Runs(name: string, combos: seq<Combo>, env: Env, run: Runner): seq<Report> {
    if combos == [] then []
    else
      var combo := combos[|combos| - 1];
      var (status, outputs) := run(name, combo, env);
      Runs(name, combos[..|combos| - 1], env, run) + [Ran(name, combo, env, status, outputs)]
  }

  function Reports(e: Entry, env: Env, run: Runner): seq<Report> {
    if e.wanted then Runs(e.action.name, e.combos, env, run) else [Skipped(e.action.name)]
  }

  /** The reports on one action. */
  ghost function Of(rs: seq<Report>, name: string): seq<Report> {
    if rs == [] then []
    else Of(rs[..|rs| - 1], name) + if rs[|rs| - 1].name == name then [rs[|rs| - 1]] else []
  }

  /** The outputs collected from all reports so far, by action. */
  function Collected(rs: seq<Report>): map<string, Outputs> {
    if rs == [] then map[] else Collect(Collected(rs[..|rs| - 1]), rs[|rs| - 1])
  }

  function Collect(completed: map<string, Outputs>, r: Report): map<string, Outputs> {
    if r.Skipped? || r.outputs == map[] then completed
    else completed[r.name := (if r.name in completed then completed[r.name] else map[]) + r.outputs]
  }

  /** The action has been dealt with once, and with the final outputs of its dependencies. */
  ghost predicate Settled(e: Entry, rs: seq<Report>, run: Runner) {
    Of(rs, e.action.name) == Reports(e, EnvOf(e.action.dependsOn, Collected(rs)), run)
  }

  // ---------------------------------------------------------------- reports by action

  lemma {:induction false} OfConcat(a: seq<Report>, b: seq<Report>, name: string)
    ensures Of(a + b, name) == Of(a, name) + Of(b, name)
    decreases |b|
  {
    if b == [] {
      assert a + b == a;
    } else {
      var front, last := b[..|b| - 1], b[|b| - 1];
      assert (a + b)[..|a + b| - 1] == a + front;
      OfConcat(a, front, name);
    }
  }

  lemma {:induction false} OfRuns(name: string, combos: seq<Combo>, env: Env, run: Runner, other: string)
    ensures Of(Runs(name, combos, env, run), other) == if other == name then Runs(name, combos, env, run) else []
    decreases |combos|
  {
    if combos != [] {
      var front := combos[..|combos| - 1];
      OfRuns(name, front, env, run, other);
      var rs := Runs(name, combos, env, run);
      assert rs[..|rs| - 1] == Runs(name, front, env, run);
    }
  }

  ghost predicate SameAt(c: map<string, Outputs>, d: map<string, Outputs>, name: string) {
    (name in c <==> name in d) && (name in c ==> c[name] == d[name])
  }

  /** What is collected for an action depends on the reports on that action alone. */
  lemma CollectedByAction(a: seq<Report>, b: seq<Report>, name: string)
    requires Of(a, name) == Of(b, name)
    ensures SameAt(Collected(a), Collected(b), name)
  {
    CollectedOf(a, name);
    CollectedOf(b, name);
  }

  lemma CollectAt(c: map<string, Outputs>, d: map<string, Outputs>, r: Report, name: string)
    requires SameAt(c, d, name)
    ensures SameAt(Collect(c, r), Collect(d, r), name)
    ensures r.name != name ==> SameAt(Collect(c, r), d, name) && SameAt(c, Collect(d, r), name)
  {
  }

  lemma {:induction false} CollectedOf(rs: seq<Report>, name: string)
    ensures SameAt(Collected(rs), Collected(Of(rs, name)), name)
    decreases |rs|
  {
    if rs == [] {
      assert Of(rs, name) == [];
    } else {
      hide *;
      var front, last := rs[..|rs| - 1], rs[|rs| - 1];
      assert rs == front + [last];
      CollectedOf(front, name);
      CollectAt(Collected(front), Collected(Of(front, name)), last, name);
      OneMore(front, last, name);
      CollectedLast(front, last);
      CollectedLast(Of(front, name), last);
      SameTransitive(Collected(rs), Collected(front), Collected(Of(front, name)), name);
    }
  }

  lemma SameTransitive(a: map<string, Outputs>, b: map<string, Outputs>, c: map<string, Outputs>, name: string)
    requires SameAt(b, c, name)
    ensures SameAt(a, b, name) ==> SameAt(a, c, name)
  {
  }

  lemma CollectedLast(front: seq<Report>, last: Report)
    ensures Collected(front + [last]) == Collect(Collected(front), last)
  {
    assert (front + [last])[..|front|] == front;
  }

  lemma OneMore(front: seq<Report>, last: Report, name: string)
    ensures Of(front + [last], name) == if last.name == name then Of(front, name) + [last] else Of(front, name)
  {
    assert (front + [last])[..|front|] == front;
  }

  lemma {:induction false} SameEnv(deps: seq<string>, c: map<string, Outputs>, d: map<string, Outputs>)
    requires forall n <- deps :: SameAt(c, d, n)
    ensures EnvOf(deps, c) == EnvOf(deps, d)
    decreases |deps|
  {
    if deps != [] {
      assert SameAt(c, d, deps[|deps| - 1]);
      SameEnv(deps[..|deps| - 1], c, d);
    }
  }

  // ---------------------------------------------------------------- what is handed over

  predicate Carries(r: Report, dep: string, key: string) {
    r.Ran? && r.name == dep && key in r.outputs
  }

  /** Some report of the dependency has outputs. */
  ghost predicate PutsOut(rs: seq<Report>, dep: string) {
    exists r <- rs :: r.Ran? && r.name == dep && r.outputs != map[]
  }

  ghost predicate LastCarrier(rs: seq<Report>, dep: string, key: string, i: int) {
    0 <= i < |rs| && Carries(rs[i], dep, key) && forall j :: i < j < |rs| ==> !Carries(rs[j], dep, key)
  }

  /** Each key that some report of the dependency carries, with the value of the last one that does. */
  ghost predicate FinalOutputs(o: Outputs, dep: string, rs: seq<Report>) {
    && (forall key :: key in o <==> exists r <- rs :: Carries(r, dep, key))
    && (forall key, i :: LastCarrier(rs, dep, key, i) ==> key in o && o[key] == rs[i].outputs[key])
  }

  /** The dependencies that have put something out, in order and with repetitions. */
  ghost function Supplying(deps: seq<string>, rs: seq<Report>): seq<string> {
    if deps == [] then []
    else
      Supplying(deps[..|deps| - 1], rs) + if PutsOut(rs, deps[|deps| - 1]) then [deps[|deps| - 1]] else []
  }

  /** What is handed over is what those reports have put out in the end. */
  ghost predicate Supplied(env: Env, deps: seq<string>, rs: seq<Report>) {
    && |env| == |Supplying(deps, rs)|
    && forall k :: 0 <= k < |env| ==>
         env[k].dep == Supplying(deps, rs)[k] && FinalOutputs(env[k].outputs, env[k].dep, rs)
  }

  lemma OutputsGrow(front: seq<Report>, last: Report, dep: string, o: Outputs)
    requires FinalOutputs(o, dep, front) && last.Ran? && last.name == dep
    ensures FinalOutputs(o + last.outputs, dep, front + [last])
  {
    var rs := front + [last];
    forall key
      ensures key in o + last.outputs <==> exists r <- rs :: Carries(r, dep, key)
    {
      assert last in rs && forall r <- front :: r in rs;
    }
    forall key, i | LastCarrier(rs, dep, key, i)
      ensures key in o + last.outputs && (o + last.outputs)[key] == rs[i].outputs[key]
    {
      assert rs[|front|] == last;
      if key !in last.outputs {
        assert i < |front| && forall j :: i < j < |front| ==> rs[j] == front[j];
        assert LastCarrier(front, dep, key, i);
      }
    }
  }

  lemma OutputsStay(front: seq<Report>, last: Report, dep: string, o: Outputs)
    requires FinalOutputs(o, dep, front) && (last.Skipped? || last.name != dep || last.outputs == map[])
    ensures FinalOutputs(o, dep, front + [last])
  {
    var rs := front + [last];
    assert forall key :: !Carries(last, dep, key);
    forall key
      ensures key in o <==> exists r <- rs :: Carries(r, dep, key)
    {
      assert forall r <- front :: r in rs;
    }
    forall key, i | LastCarrier(rs, dep, key, i)
      ensures key in o && o[key] == rs[i].outputs[key]
    {
      assert i < |front| && forall j :: i < j < |front| ==> rs[j] == front[j];
      assert LastCarrier(front, dep, key, i);
    }
  }

  lemma NoOutputsYet(rs: seq<Report>, dep: string)
    requires !PutsOut(rs, dep)
    ensures FinalOutputs(map[], dep, rs)
  {
  }

  ghost predicate PutsOutOne(r: Report, dep: string) {
    r.Ran? && r.name == dep && r.outputs != map[]
  }

  lemma PutsOutMore(front: seq<Report>, last: Report, dep: string)
    ensures PutsOut(front + [last], dep) <==> PutsOut(front, dep) || PutsOutOne(last, dep)
  {
    var rs := front + [last];
    assert last in rs && forall r :: r in rs <==> r in front || r == last;
  }

  /** What has been collected for an action is what its reports have put out. */
  lemma {:induction false} CollectedMeans(rs: seq<Report>, dep: string)
    ensures dep in Collected(rs) <==> PutsOut(rs, dep)
    ensures FinalOutputs(if dep in Collected(rs) then Collected(rs)[dep] else map[], dep, rs)
    decreases |rs|
  {
    if rs != [] {
      hide FinalOutputs, PutsOut, Collected;
      var front, last := rs[..|rs| - 1], rs[|rs| - 1];
      assert rs == front + [last];
      CollectedMeans(front, dep);
      CollectedLast(front, last);
      PutsOutMore(front, last, dep);
      var o := if dep in Collected(front) then Collected(front)[dep] else map[];
      if PutsOutOne(last, dep) { OutputsGrow(front, last, dep, o); } else { OutputsStay(front, last, dep, o); }
    }
  }

  lemma {:induction false} EnvIsSupplied(deps: seq<string>, rs: seq<Report>)
    ensures Supplied(EnvOf(deps, Collected(rs)), deps, rs)
    decreases |deps|
  {
    if deps != [] {
      var front, dep := deps[..|deps| - 1], deps[|deps| - 1];
      EnvIsSupplied(front, rs);
      CollectedMeans(rs, dep);
      hide FinalOutputs, PutsOut, Collected;
    }
  }

  /** The reports on the executions of one action, one by one. */
  lemma {:induction false} RunsMean(name: string, combos: seq<Combo>, env: Env, run: Runner)
    ensures var rs := Runs(name, combos, env, run);
      && |rs| == |combos|
      && forall i :: 0 <= i < |combos| ==>
           && rs[i].Ran? && rs[i].name == name && rs[i].combo == combos[i] && rs[i].env == env
           && (rs[i].status, rs[i].outputs) == run(name, combos[i], env)
    decreases |combos|
  {
    if combos != [] {
      RunsMean(name, combos[..|combos| - 1], env, run);
    }
  }

  /** One report for each matrix combination, in order, with what its execution gave for the
      environment it names; or a single one that says it was skipped. */
  ghost predicate ReportedOnce(e: Entry, rs: seq<Report>, run: Runner) {
    var own := Of(rs, e.action.name);
    if !e.wanted then own == [Skipped(e.action.name)]
    else
      && |own| == |e.combos|
      && forall i :: 0 <= i < |own| ==>
           && own[i].Ran? && own[i].combo == e.combos[i] && own[0].Ran? && own[i].env == own[0].env
           && (own[i].status, own[i].outputs) == run(e.action.name, e.combos[i], own[i].env)
  }

  lemma {:induction false} OfHolds(rs: seq<Report>, name: string, r: Report)
    ensures r in Of(rs, name) <==> r in rs && r.name == name
    decreases |rs|
  {
    if rs != [] {
      OfHolds(rs[..|rs| - 1], name, r);
      assert rs == rs[..|rs| - 1] + [rs[|rs| - 1]];
    }
  }

  lemma HandledIsReportedOnce(e: Entry, rs: seq<Report>, run: Runner)
    requires Handled(e, rs, run)
    ensures ReportedOnce(e, rs, run)
  {
    var env :| Of(rs, e.action.name) == Reports(e, env, run);
    RunsMean(e.action.name, e.combos, env, run);
    hide Runs, Of;
  }

  /** Every execution of the action was handed the final outputs of its dependencies. */
  ghost predicate FullySupplied(e: Entry, rs: seq<Report>) {
    forall r <- rs :: r.Ran? && r.name == e.action.name ==> Supplied(r.env, e.action.dependsOn, rs)
  }

  lemma SettledIsSupplied(e: Entry, rs: seq<Report>, run: Runner)
    requires Settled(e, rs, run)
    ensures FullySupplied(e, rs)
  {
    var env := EnvOf(e.action.dependsOn, Collected(rs));
    EnvIsSupplied(e.action.dependsOn, rs);
    RunsMean(e.action.name, e.combos, env, run);
    hide Runs, Of, EnvOf, Collected, Supplied;
    forall r | r in rs && r.Ran? && r.name == e.action.name
      ensures r.env == env
    {
      OfHolds(rs, e.action.name, r);
    }
  }

  // ---------------------------------------------------------------- one level

  /** An execution that has been set up but not run. */
  datatype Future = Future(name: string, combo: Combo, env: Env)

  function FuturesFor(name: string, combos: seq<Combo>, env: Env): seq<Future> {
    seq(|combos|, i requires 0 <= i < |combos| => Future(name, combos[i], env))
  }

  function Execute(f: Future, run: Runner): Report {
    var (status, outputs) := run(f.name, f.combo, f.env);
    Ran(f.name, f.combo, f.env, status, outputs)
  }

  function ExecuteAll(fs: seq<Future>, run: Runner): seq<Report> {
    if fs == [] then [] else ExecuteAll(fs[..|fs| - 1], run) + [Execute(fs[|fs| - 1], run)]
  }

  lemma {:induction false} ExecuteConcat(a: seq<Future>, b: seq<Future>, run: Runner)
    ensures ExecuteAll(a + b, run) == ExecuteAll(a, run) + ExecuteAll(b, run)
    decreases |b|
  {
    if b == [] {
      assert a + b == a;
    } else {
      assert (a + b)[..|a + b| - 1] == a + b[..|b| - 1];
      ExecuteConcat(a, b[..|b| - 1], run);
    }
  }

  lemma {:induction false} ExecuteIsRuns(name: string, combos: seq<Combo>, env: Env, run: Runner)
    ensures ExecuteAll(FuturesFor(name, combos, env), run) == Runs(name, combos, env, run)
    decreases |combos|
  {
    if combos != [] {
      var fs := FuturesFor(name, combos, env);
      assert fs[..|fs| - 1] == FuturesFor(name, combos[..|combos| - 1], env);
      ExecuteIsRuns(name, combos[..|combos| - 1], env, run);
    }
  }

  /** What an action of the level reports, made from what had been collected before the level. */
  ghost function Share(level: seq<string>, defs: Definitions, completed: map<string, Outputs>, n: string,
                       run: Runner): seq<Report> {
    if n in level && n in defs then Reports(defs[n], EnvOf(defs[n].action.dependsOn, completed), run) else []
  }

  ghost predicate LevelAdds(level: seq<string>, defs: Definitions, completed: map<string, Outputs>, added: seq<Report>,
                            run: Runner) {
    forall n :: Of(added, n) == Share(level, defs, completed, n, run)
  }

  lemma NothingAdded(defs: Definitions, completed: map<string, Outputs>, run: Runner)
    ensures LevelAdds([], defs, completed, [], run)
  {
  }

  lemma ShareOfOneMore(level: seq<string>, n: string, defs: Definitions, completed: map<string, Outputs>, m: string,
                       run: Runner)
    requires n !in level && n in defs
    ensures Share(level + [n], defs, completed, m, run)
         == if m == n then Reports(defs[n], EnvOf(defs[n].action.dependsOn, completed), run)
           else Share(level, defs, completed, m, run)
    ensures Share(level, defs, completed, n, run) == []
  {
    hide Reports, EnvOf;
  }

  lemma LevelAddsOne(level: seq<string>, n: string, defs: Definitions, completed: map<string, Outputs>,
                     added: seq<Report>, more: seq<Report>, run: Runner)
    requires LevelAdds(level, defs, completed, added, run) && n !in level && n in defs && defs[n].action.name == n
    requires more == Reports(defs[n], EnvOf(defs[n].action.dependsOn, completed), run)
    ensures LevelAdds(level + [n], defs, completed, added + more, run)
  {
    var env := EnvOf(defs[n].action.dependsOn, completed);
    forall m
      ensures Of(added + more, m) == Share(level + [n], defs, completed, m, run)
    {
      hide Reports, EnvOf, Of, Share;
      OfConcat(added, more, m);
      OfReports(defs[n], env, run, m);
      ShareOfOneMore(level, n, defs, completed, m, run);
    }
  }

  lemma OfReports(e: Entry, env: Env, run: Runner, name: string)
    ensures Of(Reports(e, env, run), name) == if name == e.action.name then Reports(e, env, run) else []
  {
    if e.wanted {
      OfRuns(e.action.name, e.combos, env, run, name);
    } else {
      OneMore([], Skipped(e.action.name), name);
      assert [] + [Skipped(e.action.name)] == [Skipped(e.action.name)];
    }
  }

  /** An action that is skipped is reported at once, ahead of the runs of its level. */
  lemma LevelAddsSkipped(level: seq<string>, n: string, defs: Definitions, completed: map<string, Outputs>,
                         skipped: seq<Report>, ran: seq<Report>, run: Runner)
    requires LevelAdds(level, defs, completed, skipped + ran, run) && n !in level
    requires n in defs && defs[n].action.name == n && !defs[n].wanted
    ensures LevelAdds(level + [n], defs, completed, skipped + [Skipped(n)] + ran, run)
  {
    LevelAddsOne(level, n, defs, completed, skipped + ran, [Skipped(n)], run);
    ShareOfOneMore(level, n, defs, completed, n, run);
    assert Of(skipped + ran, n) == [];
    hide Of, Share, EnvOf;
    OfConcat(skipped, ran, n);
    forall m
      ensures Of(skipped + [Skipped(n)] + ran, m) == Share(level + [n], defs, completed, m, run)
    {
      SkippedAhead(skipped, ran, Skipped(n), m);
      assert Of(skipped + ran + [Skipped(n)], m) == Share(level + [n], defs, completed, m, run);
    }
  }

  /** Reports on different actions may change places. */
  lemma SkippedAhead(a: seq<Report>, b: seq<Report>, r: Report, name: string)
    requires Of(b, r.name) == []
    ensures Of(a + [r] + b, name) == Of(a + b + [r], name)
  {
    hide Of;
    OfConcat(a + [r], b, name);
    OneMore(a, r, name);
    OneMore(a + b, r, name);
    OfConcat(a, b, name);
    if name == r.name {
      assert Of(a, name) + [r] + [] == Of(a, name) + [] + [r];
    }
  }

  lemma ExecuteNothing(run: Runner)
    ensures ExecuteAll([], run) == []
  {
  }

  lemma {:induction false} SkippedCollectsNothing(rs: seq<Report>, skipped: seq<Report>)
    requires forall r <- skipped :: r.Skipped?
    ensures Collected(rs + skipped) == Collected(rs)
    decreases |skipped|
  {
    if skipped == [] {
      assert rs + skipped == rs;
    } else {
      var front, last := skipped[..|skipped| - 1], skipped[|skipped| - 1];
      SkippedCollectsNothing(rs, front);
      assert rs + skipped == (rs + front) + [last];
      CollectedLast(rs + front, last);
    }
  }

  ghost predicate ByName(defs: Definitions) {
    forall n <- defs :: defs[n].action.name == n
  }

  /** One level: its executions are set up first, then run together, then their outputs are stored. */
  method RunLevel(level: seq<string>, defs: Definitions, results0: seq<Report>, completed0: map<string, Outputs>,
                  run: Runner)
    returns (results: seq<Report>, completed: map<string, Outputs>, ghost added: seq<Report>)
    requires completed0 == Collected(results0) && ByName(defs) && Distinct(level)
    requires forall n <- level :: n in defs
    ensures results == results0 + added && completed == Collected(results)
    ensures LevelAdds(level, defs, completed0, added, run)
  {
    hide LevelAdds, Collected, Of, EnvOf, Runs, ExecuteAll, Execute, Collect;
    results := results0;
    ghost var skipped: seq<Report> := [];
    var futures: seq<Future> := [];
    NothingAdded(defs, completed0, run);
    ExecuteNothing(run);
    assert level[..0] == [] && skipped + ExecuteAll(futures, run) == [];
    for k := 0 to |level|
      invariant results == results0 + skipped && forall r <- skipped :: r.Skipped?
      invariant LevelAdds(level[..k], defs, completed0, skipped + ExecuteAll(futures, run), run)
    {
      var name := level[k];
      var e := defs[name];
      assert level[..k + 1] == level[..k] + [name] && name !in level[..k];
      if !e.wanted {
        LevelAddsSkipped(level[..k], name, defs, completed0, skipped, ExecuteAll(futures, run), run);
        results := results + [Skipped(name)];
        skipped := skipped + [Skipped(name)];
      } else {
        var env := EnvOf(e.action.dependsOn, completed0);
        var more := FuturesFor(name, e.combos, env);
        ExecuteConcat(futures, more, run);
        ExecuteIsRuns(name, e.combos, env, run);
        var ran := ExecuteAll(futures, run);
        LevelAddsOne(level[..k], name, defs, completed0, skipped + ran, ExecuteAll(more, run), run);
        Assoc(skipped, ExecuteAll(futures, run), ExecuteAll(more, run));
        futures := futures + more;
      }
    }
    assert level[..|level|] == level;
    var reports := ExecuteAll(futures, run);
    added := skipped + reports;
    completed := completed0;
    SkippedCollectsNothing(results0, skipped);
    for k := 0 to |reports|
      invariant results == results0 + skipped + reports[..k]
      invariant completed == Collected(results)
    {
      CollectedLast(results, reports[k]);
      completed := Collect(completed, reports[k]);
      assert reports[..k + 1] == reports[..k] + [reports[k]];
      results := results + [reports[k]];
    }
    assert reports[..|reports|] == reports;
    Assoc(results0, skipped, reports);
  }

  // ---------------------------------------------------------------- the whole trigger

  function ActionsOf(entries: seq<Entry>): seq<Action> {
    seq(|entries|, i requires 0 <= i < |entries| => entries[i].action)
  }

  /** The definitions by name, for entries with distinct names. */
  ghost predicate DefinitionsOf(defs: Definitions, entries: seq<Entry>) {
    && ByName(defs)
    && (forall e <- entries :: e.action.name in defs && defs[e.action.name] == e)
    && (forall n <- defs :: defs[n] in entries)
  }

  function DefinitionsFor(entries: seq<Entry>): Definitions {
    if entries == [] then map[]
    else
      var last := entries[|entries| - 1];
      DefinitionsFor(entries[..|entries| - 1])[last.action.name := last]
  }

  lemma {:induction false} DefinitionsFit(entries: seq<Entry>)
    requires UniqueNames(ActionsOf(entries))
    ensures DefinitionsOf(DefinitionsFor(entries), entries)
    decreases |entries|
  {
    if entries != [] {
      var k := |entries| - 1;
      FrontNames(entries);
      DefinitionsFit(entries[..k]);
      hide DefinitionsOf, UniqueNames;
      NameIsNew(entries, k);
      OneMoreDefinition(DefinitionsFor(entries[..k]), entries[..k], entries[k]);
      assert entries == entries[..k] + [entries[k]];
    }
  }

  lemma FrontNames(entries: seq<Entry>)
    requires UniqueNames(ActionsOf(entries)) && entries != []
    ensures UniqueNames(ActionsOf(entries[..|entries| - 1]))
  {
    var front := entries[..|entries| - 1];
    assert forall i :: 0 <= i < |front| ==> ActionsOf(front)[i] == ActionsOf(entries)[i];
  }

  lemma NameIsNew(entries: seq<Entry>, k: nat)
    requires UniqueNames(ActionsOf(entries)) && k < |entries|
    ensures forall e <- entries[..k] :: e.action.name != entries[k].action.name
  {
    forall e | e in entries[..k]
      ensures e.action.name != entries[k].action.name
    {
      var i :| 0 <= i < k && entries[i] == e;
      assert ActionsOf(entries)[i].name != ActionsOf(entries)[k].name;
    }
  }

  lemma OneMoreDefinition(defs: Definitions, front: seq<Entry>, e: Entry)
    requires DefinitionsOf(defs, front) && forall f <- front :: f.action.name != e.action.name
    ensures DefinitionsOf(defs[e.action.name := e], front + [e])
  {
  }

  method IndexByName(entries: seq<Entry>) returns (defs: Definitions)
    ensures defs == DefinitionsFor(entries)
  {
    defs := map[];
    for k := 0 to |entries|
      invariant defs == DefinitionsFor(entries[..k])
    {
      assert entries[..k + 1][..k] == entries[..k];
      defs := defs[entries[k].action.name := entries[k]];
    }
    assert entries[..|entries|] == entries;
  }

  ghost function GroupGraph(entries: seq<Entry>): Graph {
    GraphOf(ActionsOf(entries), Names(ActionsOf(entries)))
  }

  /** The graph has the actions, and every dependency that is one of them. */
  ghost predicate GraphFits(g: Graph, defs: Definitions) {
    && g.Keys == defs.Keys
    && forall n <- g :: forall d <- defs[n].action.dependsOn :: d in g ==> d in g[n]
  }

  lemma GroupGraphFits(entries: seq<Entry>, defs: Definitions)
    requires UniqueNames(ActionsOf(entries)) && DefinitionsOf(defs, entries)
    ensures GraphFits(GroupGraph(entries), defs)
  {
    var actions := ActionsOf(entries);
    var g, group := GroupGraph(entries), Names(actions);
    GraphKeys(actions, group);
    KeysAreNames(entries, defs);
    forall n, d | n in g && d in defs[n].action.dependsOn && d in g
      ensures d in g[n]
    {
      var i :| 0 <= i < |entries| && entries[i] == defs[n];
      assert actions[i] == defs[n].action;
      GraphMeans(actions, group, i);
      InsideMeans(actions[i].dependsOn, group, d);
      assert multiset(actions[i].dependsOn)[d] > 0;
      assert d in multiset(Inside(actions[i].dependsOn, group));
    }
  }

  lemma KeysAreNames(entries: seq<Entry>, defs: Definitions)
    requires DefinitionsOf(defs, entries)
    ensures defs.Keys == Names(ActionsOf(entries))
  {
    forall n | n in defs
      ensures n in Names(ActionsOf(entries))
    {
      var i :| 0 <= i < |entries| && entries[i] == defs[n];
      assert ActionsOf(entries)[i].name == n;
    }
    forall n | n in Names(ActionsOf(entries))
      ensures n in defs
    {
      var i :| 0 <= i < |entries| && ActionsOf(entries)[i].name == n;
      assert entries[i] in entries;
    }
  }

  /** Up to some level every action is settled, and nothing is known of the others. */
  ghost predicate SettledUpTo(levels: seq<seq<string>>, k: nat, defs: Definitions, rs: seq<Report>, run: Runner)
    requires k <= |levels|
  {
    && (forall n <- defs :: n in Union(levels[..k]) ==> Settled(defs[n], rs, run))
    && (forall n :: n !in Union(levels[..k]) ==> Of(rs, n) == [])
  }

  lemma DependenciesAreEarlier(g: Graph, levels: seq<seq<string>>, k: nat, n: string, d: string)
    requires Layered(g, levels) && k < |levels| && n in g && d in g[n]
    requires n in levels[k] || n in Union(levels[..k])
    ensures d in Union(levels[..k])
  {
    UnionPrefix(levels, k, n);
    UnionPrefix(levels, k, d);
    var q :| 0 <= q <= k && n in levels[q];
    var r := DependencyIsEarlier(g, levels, q, n, d);
  }

  /** Nothing of a level is a dependency of that level or an earlier one. */
  lemma LevelIsNoInput(g: Graph, defs: Definitions, levels: seq<seq<string>>, k: nat, n: string, d: string)
    requires Layered(g, levels) && k < |levels| && GraphFits(g, defs) && n in defs
    requires n in levels[k] || n in Union(levels[..k])
    requires d in defs[n].action.dependsOn
    ensures d !in levels[k]
  {
    assert LayerIn(g, levels, k);
    if d in levels[k] {
      DependenciesAreEarlier(g, levels, k, n, d);
      assert false;
    }
  }

  /** So the reports it adds do not change what those actions are given. */
  lemma InputsStay(g: Graph, defs: Definitions, levels: seq<seq<string>>, k: nat, n: string, rs: seq<Report>,
                   added: seq<Report>, run: Runner)
    requires Layered(g, levels) && k < |levels| && GraphFits(g, defs) && n in defs
    requires n in levels[k] || n in Union(levels[..k])
    requires LevelAdds(levels[k], defs, Collected(rs), added, run)
    ensures EnvOf(defs[n].action.dependsOn, Collected(rs + added)) == EnvOf(defs[n].action.dependsOn, Collected(rs))
  {
    hide Collected, EnvOf, Of, Layered, GraphFits;
    forall d | d in defs[n].action.dependsOn
      ensures SameAt(Collected(rs + added), Collected(rs), d)
    {
      LevelIsNoInput(g, defs, levels, k, n, d);
      assert Of(added, d) == Share(levels[k], defs, Collected(rs), d, run) == [];
      OfConcat(rs, added, d);
      CollectedByAction(rs + added, rs, d);
    }
    SameEnv(defs[n].action.dependsOn, Collected(rs + added), Collected(rs));
  }

  lemma LevelSettles(g: Graph, defs: Definitions, levels: seq<seq<string>>, k: nat, rs: seq<Report>,
                     added: seq<Report>, run: Runner)
    requires Layered(g, levels) && k < |levels| && GraphFits(g, defs) && ByName(defs)
    requires SettledUpTo(levels, k, defs, rs, run) && LevelAdds(levels[k], defs, Collected(rs), added, run)
    ensures SettledUpTo(levels, k + 1, defs, rs + added, run)
  {
    assert LayerIn(g, levels, k);
    UnionGrows(levels, k);
    hide Collected, EnvOf, Of, Layered, GraphFits, Reports, Union;
    forall n
      ensures n in defs && n in Union(levels[..k + 1]) ==> Settled(defs[n], rs + added, run)
      ensures n !in Union(levels[..k + 1]) ==> Of(rs + added, n) == []
    {
      OfConcat(rs, added, n);
      assert Of(added, n) == Share(levels[k], defs, Collected(rs), n, run);
      if n in defs && n in Union(levels[..k + 1]) {
        InputsStay(g, defs, levels, k, n, rs, added, run);
        assert n in levels[k] ==> n !in Union(levels[..k]);
      }
    }
  }

  lemma UnionGrows(levels: seq<seq<string>>, k: nat)
    requires k < |levels|
    ensures Union(levels[..k + 1]) == Union(levels[..k]) + Members(levels[k])
  {
    assert levels[..k + 1][..k] == levels[..k];
  }

  /** Each action up to some level has been dealt with once, with some inputs. */
  ghost predicate HandledUpTo(levels: seq<seq<string>>, k: nat, defs: Definitions, rs: seq<Report>, run: Runner)
    requires k <= |levels|
  {
    forall n :: HandledAt(levels, k, defs, rs, n, run)
  }

  ghost predicate HandledAt(levels: seq<seq<string>>, k: nat, defs: Definitions, rs: seq<Report>, n: string,
                            run: Runner)
    requires k <= |levels|
  {
    if n in Union(levels[..k]) && n in defs then Handled(defs[n], rs, run) else Of(rs, n) == []
  }

  ghost predicate Handled(e: Entry, rs: seq<Report>, run: Runner) {
    exists env :: Of(rs, e.action.name) == Reports(e, env, run)
  }

  /** Every name stands in one place. */
  ghost predicate FreshAt(levels: seq<seq<string>>, k: nat, defs: Definitions)
    requires k < |levels|
  {
    Distinct(levels[k]) && forall n <- levels[k] :: n in defs && n !in Union(levels[..k])
  }

  lemma LevelHandles(defs: Definitions, levels: seq<seq<string>>, k: nat, rs: seq<Report>, added: seq<Report>,
                     run: Runner)
    requires k < |levels| && FreshAt(levels, k, defs) && ByName(defs)
    requires HandledUpTo(levels, k, defs, rs, run) && LevelAdds(levels[k], defs, Collected(rs), added, run)
    ensures HandledUpTo(levels, k + 1, defs, rs + added, run)
  {
    hide *;
    var next, after := k + 1, rs + added;
    forall n
      ensures HandledAt(levels, next, defs, after, n, run)
    {
      NameHandled(defs, levels, k, rs, added, n, run);
    }
    HandledEverywhere(levels, next, defs, after, run);
  }

  lemma HandledEverywhere(levels: seq<seq<string>>, k: nat, defs: Definitions, rs: seq<Report>, run: Runner)
    requires k <= |levels| && forall n :: HandledAt(levels, k, defs, rs, n, run)
    ensures HandledUpTo(levels, k, defs, rs, run)
  {
  }

  lemma NameHandled(defs: Definitions, levels: seq<seq<string>>, k: nat, rs: seq<Report>, added: seq<Report>,
                    n: string, run: Runner)
    requires k < |levels| && FreshAt(levels, k, defs) && ByName(defs)
    requires HandledUpTo(levels, k, defs, rs, run) && LevelAdds(levels[k], defs, Collected(rs), added, run)
    ensures HandledAt(levels, k + 1, defs, rs + added, n, run)
  {
    UnionGrows(levels, k);
    OfConcat(rs, added, n);
    assert Of(added, n) == Share(levels[k], defs, Collected(rs), n, run);
    assert HandledAt(levels, k, defs, rs, n, run);
    hide Collected, EnvOf, Of, Reports, Union, HandledUpTo;
  }

  /** Without usable levels each action is a level of its own, in configuration order. */
  function Singles(entries: seq<Entry>): seq<seq<string>> {
    seq(|entries|, i requires 0 <= i < |entries| => [entries[i].action.name])
  }

  lemma {:induction false} SinglesUnion(entries: seq<Entry>, k: nat)
    requires k <= |entries|
    ensures forall n :: n in Union(Singles(entries)[..k]) <==> exists i :: 0 <= i < k && ActionsOf(entries)[i].name == n
    decreases k
  {
    if k > 0 {
      SinglesUnion(entries, k - 1);
      UnionGrows(Singles(entries), k - 1);
      var name := entries[k - 1].action.name;
      assert ActionsOf(entries)[k - 1].name == name && Singles(entries)[k - 1] == [name];
      hide Union, Singles, ActionsOf;
    }
  }

  lemma SinglesAreFresh(entries: seq<Entry>, defs: Definitions, k: nat)
    requires UniqueNames(ActionsOf(entries)) && DefinitionsOf(defs, entries) && k < |entries|
    ensures FreshAt(Singles(entries), k, defs)
  {
    SinglesUnion(entries, k);
    assert ActionsOf(entries)[k].name == entries[k].action.name && entries[k] in entries;
  }

  // ---------------------------------------------------------------- a cycle

  ghost predicate NameAmong(name: string, entries: seq<Entry>, i: nat) {
    exists j :: 0 <= j < i && j < |entries| && entries[j].action.name == name
  }

  /** The first `n` reports are those on the entries before the `i`-th. */
  ghost predicate ReportsBefore(entries: seq<Entry>, i: nat, rs: seq<Report>, n: nat) {
    n <= |rs| && forall q :: 0 <= q < |rs| ==> (q < n <==> NameAmong(rs[q].name, entries, i))
  }

  /** In configuration order, each action with what those before it have put out. */
  ghost predicate InConfigurationOrder(entries: seq<Entry>, k: nat, rs: seq<Report>)
    requires k <= |entries|
  {
    && (forall r <- rs :: NameAmong(r.name, entries, k))
    && forall i :: 0 <= i < k ==> SuppliedByEarlier(entries, i, rs)
  }

  ghost predicate SuppliedByEarlier(entries: seq<Entry>, i: nat, rs: seq<Report>)
    requires i < |entries|
  {
    exists n: nat :: ReportsBefore(entries, i, rs, n)
      && forall r <- rs :: r.Ran? && r.name == entries[i].action.name ==>
           Supplied(r.env, entries[i].action.dependsOn, rs[..n])
  }

  lemma NothingInOrder(entries: seq<Entry>)
    ensures InConfigurationOrder(entries, 0, [])
  {
  }

  lemma AddedNames(level: seq<string>, defs: Definitions, completed: map<string, Outputs>, added: seq<Report>,
                   run: Runner, r: Report)
    requires LevelAdds(level, defs, completed, added, run) && r in added
    ensures r.name in level && r.name in defs
    ensures r in Reports(defs[r.name], EnvOf(defs[r.name].action.dependsOn, completed), run)
  {
    OfHolds(added, r.name, r);
    assert Of(added, r.name) == Share(level, defs, completed, r.name, run);
  }

  lemma NewNameIsNotEarlier(entries: seq<Entry>, k: nat, i: nat)
    requires UniqueNames(ActionsOf(entries)) && i <= k < |entries|
    ensures !NameAmong(entries[k].action.name, entries, i)
  {
    var names := ActionsOf(entries);
    assert names[k] == entries[k].action && forall j :: 0 <= j < k ==> names[j] == entries[j].action;
    assert forall j :: 0 <= j < k ==> names[j].name != names[k].name;
  }

  lemma EarlierStaySupplied(entries: seq<Entry>, k: nat, i: nat, rs: seq<Report>, added: seq<Report>)
    requires UniqueNames(ActionsOf(entries)) && i < k < |entries|
    requires SuppliedByEarlier(entries, i, rs) && forall r <- added :: r.name == entries[k].action.name
    ensures SuppliedByEarlier(entries, i, rs + added)
  {
    var n: nat :| ReportsBefore(entries, i, rs, n)
      && forall r <- rs :: r.Ran? && r.name == entries[i].action.name ==>
           Supplied(r.env, entries[i].action.dependsOn, rs[..n]);
    var all := rs + added;
    NewNameIsNotEarlier(entries, k, i);
    assert entries[i].action.name != entries[k].action.name by {
      assert ActionsOf(entries)[i].name != ActionsOf(entries)[k].name;
    }
    hide NameAmong, Supplied;
    assert all[..n] == rs[..n];
    forall q | 0 <= q < |all|
      ensures q < n <==> NameAmong(all[q].name, entries, i)
    {
      if q >= |rs| { assert all[q] in added; } else { assert all[q] == rs[q]; }
    }
    assert ReportsBefore(entries, i, all, n);
  }

  lemma NewestIsSupplied(entries: seq<Entry>, defs: Definitions, k: nat, rs: seq<Report>, added: seq<Report>,
                         run: Runner)
    requires UniqueNames(ActionsOf(entries)) && DefinitionsOf(defs, entries) && k < |entries|
    requires InConfigurationOrder(entries, k, rs)
    requires LevelAdds([entries[k].action.name], defs, Collected(rs), added, run)
    ensures SuppliedByEarlier(entries, k, rs + added)
    ensures forall r <- added :: r.name == entries[k].action.name
  {
    var e, all := entries[k], rs + added;
    assert e in entries && defs[e.action.name] == e;
    NewNameIsNotEarlier(entries, k, k);
    EnvIsSupplied(e.action.dependsOn, rs);
    RunsMean(e.action.name, e.combos, EnvOf(e.action.dependsOn, Collected(rs)), run);
    hide LevelAdds, Supplied, Collected, EnvOf, NameAmong, Runs;
    forall r | r in added
      ensures r.name == e.action.name && (r.Ran? ==> Supplied(r.env, e.action.dependsOn, rs))
    {
      AddedNames([e.action.name], defs, Collected(rs), added, run, r);
    }
    assert all[..|rs|] == rs;
    forall q | 0 <= q < |all|
      ensures q < |rs| <==> NameAmong(all[q].name, entries, k)
    {
      if q >= |rs| { assert all[q] in added; } else { assert all[q] in rs; }
    }
    assert ReportsBefore(entries, k, all, |rs|);
    assert forall r <- rs :: r.name != e.action.name;
    forall r | r in all && r.Ran? && r.name == e.action.name
      ensures Supplied(r.env, e.action.dependsOn, all[..|rs|])
    {
    }
  }

  lemma SingleKeepsOrder(entries: seq<Entry>, defs: Definitions, k: nat, rs: seq<Report>, added: seq<Report>,
                         run: Runner)
    requires UniqueNames(ActionsOf(entries)) && DefinitionsOf(defs, entries) && k < |entries|
    requires InConfigurationOrder(entries, k, rs)
    requires LevelAdds([entries[k].action.name], defs, Collected(rs), added, run)
    ensures InConfigurationOrder(entries, k + 1, rs + added)
  {
    NewestIsSupplied(entries, defs, k, rs, added, run);
    assert forall r <- rs + added :: NameAmong(r.name, entries, k + 1);
    hide LevelAdds, SuppliedByEarlier, UniqueNames, NameAmong;
    forall i | 0 <= i < k + 1
      ensures SuppliedByEarlier(entries, i, rs + added)
    {
      if i < k { EarlierStaySupplied(entries, k, i, rs, added); }
    }
  }

  lemma SingleLevel(entries: seq<Entry>, k: nat)
    requires k < |entries|
    ensures |Singles(entries)| == |entries| && Singles(entries)[k] == [entries[k].action.name]
  {
  }

  lemma SinglesSize(entries: seq<Entry>)
    ensures |Singles(entries)| == |entries|
  {
  }

  /** `run_trigger`, up to the actions for failures. Without a cycle every action is dealt with
      once, and with the final outputs of all its dependencies. */
  method RunTrigger(entries: seq<Entry>, run: Runner) returns (results: seq<Report>)
    requires UniqueNames(ActionsOf(entries))
    ensures forall e <- entries :: ReportedOnce(e, results, run)
    ensures forall r <- results :: r.name in Names(ActionsOf(entries))
    ensures Acyclic(GroupGraph(entries)) ==>
      forall e <- entries :: Settled(e, results, run) && FullySupplied(e, results)
    ensures !Acyclic(GroupGraph(entries)) ==> InConfigurationOrder(entries, |entries|, results)
  {
    hide *;
    results := [];
    var defs := IndexByName(entries);
    DefinitionsFit(entries);
    ghost var g := GroupGraph(entries);
    var names := Names(ActionsOf(entries));
    NamesOfAll(entries);
    var sorted := TopologicalLevels(ActionsOf(entries), names);
    var levels := if sorted.Ok? then sorted.value else Singles(entries);
    LevelsAreFresh(entries, defs, levels, sorted.Ok?);
    if sorted.Ok? { LevelsAreLayered(g, levels); }
    GroupGraphFits(entries, defs);
    var completed := map[];
    NothingHandled(levels, defs, run);
    NothingInOrder(entries);
    SinglesSize(entries);
    for k := 0 to |levels|
      invariant completed == Collected(results)
      invariant HandledUpTo(levels, k, defs, results, run)
      invariant sorted.Ok? ==> SettledUpTo(levels, k, defs, results, run)
      invariant sorted.Err? ==> k <= |entries| && InConfigurationOrder(entries, k, results)
    {
      FreshLevel(levels, k, defs);
      DefinitionsAreByName(defs, entries);
      ghost var before := results;
      ghost var added;
      results, completed, added := RunLevel(levels[k], defs, results, completed, run);
      LevelHandles(defs, levels, k, before, added, run);
      if sorted.Ok? {
        LevelSettles(g, defs, levels, k, before, added, run);
      } else {
        SingleLevel(entries, k);
        SingleKeepsOrder(entries, defs, k, before, added, run);
      }
    }
    EverythingHandled(entries, defs, levels, results, sorted.Ok?, run);
    EverythingReported(entries, results, sorted.Ok?, run);
  }

  lemma EverythingReported(entries: seq<Entry>, rs: seq<Report>, sorted: bool, run: Runner)
    requires forall e <- entries :: Handled(e, rs, run)
    requires forall n :: n !in Names(ActionsOf(entries)) ==> Of(rs, n) == []
    requires sorted ==> forall e <- entries :: Settled(e, rs, run)
    ensures forall e <- entries :: ReportedOnce(e, rs, run)
    ensures forall r <- rs :: r.name in Names(ActionsOf(entries))
    ensures sorted ==> forall e <- entries :: FullySupplied(e, rs)
  {
    hide Handled, Settled, ReportedOnce, FullySupplied, Of, Names, ActionsOf;
    forall e | e in entries
      ensures ReportedOnce(e, rs, run) && (sorted ==> FullySupplied(e, rs))
    {
      HandledIsReportedOnce(e, rs, run);
      if sorted { SettledIsSupplied(e, rs, run); }
    }
    forall r | r in rs
      ensures r.name in Names(ActionsOf(entries))
    {
      OfHolds(rs, r.name, r);
    }
  }

  /** Levels or singles: each name of the group stands in one place. */
  ghost predicate Usable(levels: seq<seq<string>>, defs: Definitions) {
    && (forall k :: 0 <= k < |levels| ==> FreshAt(levels, k, defs))
    && forall n :: n in defs <==> n in Union(levels)
  }

  lemma NamesOfAll(entries: seq<Entry>)
    ensures Names(ActionsOf(entries)) * Names(ActionsOf(entries)) == Names(ActionsOf(entries))
    ensures GroupGraph(entries) == GraphOf(ActionsOf(entries), Names(ActionsOf(entries)))
  {
  }

  lemma LevelsAreFresh(entries: seq<Entry>, defs: Definitions, levels: seq<seq<string>>, sorted: bool)
    requires UniqueNames(ActionsOf(entries)) && DefinitionsOf(defs, entries)
    requires if sorted then LevelsOf(GroupGraph(entries), levels) else levels == Singles(entries)
    ensures Usable(levels, defs)
  {
    if sorted {
      GroupGraphFits(entries, defs);
      forall k | 0 <= k < |levels|
        ensures FreshAt(levels, k, defs)
      {
        assert LayerIn(GroupGraph(entries), levels, k);
      }
    } else {
      forall k | 0 <= k < |levels|
        ensures FreshAt(levels, k, defs)
      {
        SinglesAreFresh(entries, defs, k);
      }
      assert levels[..|entries|] == levels;
      SinglesUnion(entries, |entries|);
      KeysAreNames(entries, defs);
      SinglesNames(entries);
    }
  }

  lemma SinglesNames(entries: seq<Entry>)
    ensures forall n :: n in Names(ActionsOf(entries)) <==>
      exists i :: 0 <= i < |entries| && ActionsOf(entries)[i].name == n
  {
  }

  lemma NothingHandled(levels: seq<seq<string>>, defs: Definitions, run: Runner)
    ensures Collected([]) == map[] && HandledUpTo(levels, 0, defs, [], run) && SettledUpTo(levels, 0, defs, [], run)
  {
  }

  lemma LevelsAreLayered(g: Graph, levels: seq<seq<string>>)
    requires LevelsOf(g, levels)
    ensures Layered(g, levels)
  {
  }

  lemma FreshLevel(levels: seq<seq<string>>, k: nat, defs: Definitions)
    requires Usable(levels, defs) && k < |levels|
    ensures FreshAt(levels, k, defs) && Distinct(levels[k]) && forall n <- levels[k] :: n in defs
  {
  }

  lemma DefinitionsAreByName(defs: Definitions, entries: seq<Entry>)
    requires DefinitionsOf(defs, entries)
    ensures ByName(defs)
  {
  }

  lemma EverythingHandled(entries: seq<Entry>, defs: Definitions, levels: seq<seq<string>>, rs: seq<Report>,
                          sorted: bool, run: Runner)
    requires Usable(levels, defs) && HandledUpTo(levels, |levels|, defs, rs, run)
    requires sorted ==> SettledUpTo(levels, |levels|, defs, rs, run)
    requires DefinitionsOf(defs, entries)
    ensures forall e <- entries :: Handled(e, rs, run)
    ensures forall n :: n !in Names(ActionsOf(entries)) ==> Of(rs, n) == []
    ensures sorted ==> forall e <- entries :: Settled(e, rs, run)
  {
    KeysAreNames(entries, defs);
    hide Handled, Of, Settled, FreshAt, Union, Names, ActionsOf;
    assert levels[..|levels|] == levels;
    forall n
      ensures if n in defs then Handled(defs[n], rs, run) else Of(rs, n) == []
    {
      assert HandledAt(levels, |levels|, defs, rs, n, run);
    }
  }

  // ---------------------------------------------------------------- the order does not matter

  /** Whatever the order inside the levels: what each action was given, and what it reported, is
      determined by the group alone. */
  lemma OrderDoesNotMatter(g: Graph, levels: seq<seq<string>>, defs: Definitions, a: seq<Report>, b: seq<Report>,
                           run: Runner)
    requires LevelsOf(g, levels) && GraphFits(g, defs) && ByName(defs)
    requires forall n <- defs :: Settled(defs[n], a, run) && Settled(defs[n], b, run)
    requires forall n :: n !in defs ==> Of(a, n) == Of(b, n) == []
    ensures forall n :: Of(a, n) == Of(b, n)
  {
    SameUpTo(g, levels, |levels|, defs, a, b, run);
    assert levels[..|levels|] == levels;
  }

  ghost predicate AgreeOn(names: set<string>, a: seq<Report>, b: seq<Report>) {
    forall n <- names :: Of(a, n) == Of(b, n)
  }

  lemma {:induction false} SameUpTo(g: Graph, levels: seq<seq<string>>, k: nat, defs: Definitions, a: seq<Report>,
                                    b: seq<Report>, run: Runner)
    requires Layered(g, levels) && k <= |levels| && GraphFits(g, defs) && ByName(defs)
    requires forall n <- defs :: Settled(defs[n], a, run) && Settled(defs[n], b, run)
    requires forall n :: n !in defs ==> Of(a, n) == Of(b, n) == []
    ensures AgreeOn(Union(levels[..k]), a, b)
    decreases k
  {
    if k > 0 {
      SameUpTo(g, levels, k - 1, defs, a, b, run);
      UnionGrows(levels, k - 1);
      assert forall n :: n !in defs || n in Union(levels[..k - 1]) ==> Of(a, n) == Of(b, n);
      hide *;
      forall n | n in Members(levels[k - 1])
        ensures Of(a, n) == Of(b, n)
      {
        MemberMeans(levels[k - 1], n);
        SameAction(g, levels, k - 1, n, defs, a, b, run);
      }
      AgreeOnBoth(Union(levels[..k - 1]), Members(levels[k - 1]), a, b);
    }
  }

  lemma MemberMeans(level: seq<string>, n: string)
    requires n in Members(level)
    ensures n in level
  {
  }

  lemma AgreeOnBoth(some: set<string>, more: set<string>, a: seq<Report>, b: seq<Report>)
    requires AgreeOn(some, a, b) && forall n <- more :: Of(a, n) == Of(b, n)
    ensures AgreeOn(some + more, a, b)
  {
  }

  lemma SameAction(g: Graph, levels: seq<seq<string>>, k: nat, n: string, defs: Definitions, a: seq<Report>,
                   b: seq<Report>, run: Runner)
    requires Layered(g, levels) && k < |levels| && n in levels[k] && GraphFits(g, defs) && ByName(defs)
    requires n in defs ==> Settled(defs[n], a, run) && Settled(defs[n], b, run)
    requires forall m :: m !in defs || m in Union(levels[..k]) ==> Of(a, m) == Of(b, m)
    ensures Of(a, n) == Of(b, n)
  {
    if n in defs {
      hide Union, Of, Collected, EnvOf, Reports, Layered;
      forall d | d in defs[n].action.dependsOn
        ensures SameAt(Collected(a), Collected(b), d)
      {
        if d in g { DependenciesAreEarlier(g, levels, k, n, d); }
        CollectedByAction(a, b, d);
      }
      SameEnv(defs[n].action.dependsOn, Collected(a), Collected(b));
    }
  }
}
