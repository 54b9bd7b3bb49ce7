/** Dependency levels of a group of actions: Kahn's algorithm with multiplicities. */
module Levels {
  import opened Wrappers
  import opened Slices

  datatype Action = Action(name: string, dependsOn: seq<string>)

  datatype Error = DependencyCycle

  /** For each action its dependencies inside the group, repetitions included. */
  type Graph = map<string, seq<string>>

  function Names(actions: seq<Action>): set<string> {
    set a <- actions :: a.name
  }

  function Inside(deps: seq<string>, group: set<string>): seq<string> {
    if deps == [] then []
    else Inside(deps[..|deps| - 1], group) + if deps[|deps| - 1] in group then [deps[|deps| - 1]] else []
  }

  /** Action names come from the keys of a configuration map. */
  ghost predicate UniqueNames(actions: seq<Action>) {
    forall i, j :: 0 <= i < j < |actions| ==> actions[i].name != actions[j].name
  }

  ghost function GraphOf(actions: seq<Action>, group: set<string>): Graph {
    if actions == [] then map[]
    else
      var last := actions[|actions| - 1];
      GraphOf(actions[..|actions| - 1], group)[last.name := Inside(last.dependsOn, group)]
  }

  /** The graph holds, for each action, its dependencies that are in the group. */
  lemma {:induction false} GraphMeans(actions: seq<Action>, group: set<string>, i: nat)
    requires UniqueNames(actions) && i < |actions|
    ensures actions[i].name in GraphOf(actions, group)
    ensures GraphOf(actions, group)[actions[i].name] == Inside(actions[i].dependsOn, group)
    decreases |actions|
  {
    if i < |actions| - 1 {
      assert actions[..|actions| - 1][i] == actions[i];
      GraphMeans(actions[..|actions| - 1], group, i);
    }
  }

  lemma {:induction false} InsideMeans(deps: seq<string>, group: set<string>, d: string)
    ensures multiset(Inside(deps, group))[d] == if d in group then multiset(deps)[d] else 0
    decreases |deps|
  {
    if deps != [] {
      InsideMeans(deps[..|deps| - 1], group, d);
      assert deps == deps[..|deps| - 1] + [deps[|deps| - 1]];
    }
  }

  // ---------------------------------------------------------------- chains and cycles

  ghost predicate Link(g: Graph, c: seq<string>, i: int) {
    0 <= i < |c| - 1 && c[i + 1] in g && c[i] in g[c[i + 1]]
  }

  /** Each element is a dependency of the next. */
  ghost predicate Chain(g: Graph, c: seq<string>) {
    && c != []
    && (forall i :: 0 <= i < |c| ==> c[i] in g)
    && (forall i :: 0 <= i < |c| - 1 ==> Link(g, c, i))
  }

  ghost predicate Cycle(g: Graph, c: seq<string>) {
    |c| > 1 && Chain(g, c) && c[0] == c[|c| - 1]
  }

  ghost predicate Acyclic(g: Graph) {
    forall c :: !Cycle(g, c)
  }

  ghost predicate LongestChain(g: Graph, n: string, k: nat) {
    && (exists c :: Chain(g, c) && c[|c| - 1] == n && |c| == k + 1)
    && (forall c :: Chain(g, c) && c[|c| - 1] == n ==> |c| <= k + 1)
  }

  ghost predicate Closed(g: Graph) {
    forall n <- g :: forall d <- g[n] :: d in g
  }

  // ---------------------------------------------------------------- what the levels are

  ghost function Union(levels: seq<seq<string>>): set<string> {
    if levels == [] then {} else Union(levels[..|levels| - 1]) + Members(levels[|levels| - 1])
  }

  /** Level `k` holds, once each, actions that have not come before, whose dependencies all have,
      and that depend on something in level `k - 1`. */
  ghost predicate LayerAt(g: Graph, earlier: set<string>, previous: seq<string>, level: seq<string>, first: bool) {
    && Distinct(level)
    && (forall n <- level :: n in g && n !in earlier && forall d <- g[n] :: d in earlier)
    && (!first ==> forall n <- level :: exists d <- g[n] :: d in previous)
  }

  ghost predicate LayerIn(g: Graph, levels: seq<seq<string>>, k: int) {
    0 <= k < |levels| && LayerAt(g, Union(levels[..k]), if k > 0 then levels[k - 1] else [], levels[k], k == 0)
  }

  ghost predicate Layered(g: Graph, levels: seq<seq<string>>) {
    forall k :: 0 <= k < |levels| ==> LayerIn(g, levels, k)
  }

  ghost predicate LevelsOf(g: Graph, levels: seq<seq<string>>) {
    Layered(g, levels) && Union(levels) == g.Keys
  }

  lemma {:induction false} UnionPrefix(levels: seq<seq<string>>, k: nat, n: string)
    requires k <= |levels|
    ensures n in Union(levels[..k]) <==> exists q :: 0 <= q < k && n in levels[q]
    decreases k
  {
    if k > 0 {
      assert levels[..k][..k - 1] == levels[..k - 1];
      UnionPrefix(levels, k - 1, n);
    }
  }

  lemma ChainExtends(g: Graph, c: seq<string>, n: string)
    requires Chain(g, c) && n in g && c[|c| - 1] in g[n]
    ensures Chain(g, c + [n])
  {
    var longer := c + [n];
    forall i | 0 <= i < |longer| - 1
      ensures Link(g, longer, i)
    {
      assert i < |c| - 1 ==> Link(g, c, i);
    }
  }

  lemma ChainSlice(g: Graph, c: seq<string>, i: nat, j: nat)
    requires Chain(g, c) && i < j <= |c|
    ensures Chain(g, c[i..j])
  {
    var part := c[i..j];
    forall k | 0 <= k < |part| - 1
      ensures Link(g, part, k)
    {
      assert Link(g, c, i + k) && part[k] == c[i + k] && part[k + 1] == c[i + k + 1];
    }
  }

  lemma ChainEnds(g: Graph, c: seq<string>)
    requires Chain(g, c) && |c| > 1
    ensures c[|c| - 1] in g && c[|c| - 2] in g[c[|c| - 1]] && Chain(g, c[..|c| - 1])
  {
    assert Link(g, c, |c| - 2);
    ChainSlice(g, c, 0, |c| - 1);
    assert c[0..|c| - 1] == c[..|c| - 1];
  }

  lemma OneElementChain(g: Graph, n: string)
    requires n in g
    ensures Chain(g, [n])
  {
  }

  lemma DependencyIsEarlier(g: Graph, levels: seq<seq<string>>, k: nat, n: string, d: string) returns (q: nat)
    requires Layered(g, levels) && k < |levels| && n in levels[k] && n in g && d in g[n]
    ensures q < k && d in levels[q]
  {
    assert LayerIn(g, levels, k);
    UnionPrefix(levels, k, d);
    q :| 0 <= q < k && d in levels[q];
  }

  /** A chain reaches at most one level further per element. */
  lemma {:induction false} ChainFitsLevel(g: Graph, levels: seq<seq<string>>, c: seq<string>, k: nat)
    requires Layered(g, levels) && k < |levels| && Chain(g, c) && c[|c| - 1] in levels[k]
    ensures |c| <= k + 1
    decreases |c|
  {
    hide Layered, Chain;
    if |c| > 1 {
      ChainEnds(g, c);
      var q := DependencyIsEarlier(g, levels, k, c[|c| - 1], c[|c| - 2]);
      ChainFitsLevel(g, levels, c[..|c| - 1], q);
    }
  }

  lemma {:induction false} ChainReachesLevel(g: Graph, levels: seq<seq<string>>, k: nat, n: string)
    returns (c: seq<string>)
    requires Layered(g, levels) && k < |levels| && n in levels[k]
    ensures Chain(g, c) && c[|c| - 1] == n && |c| == k + 1
    decreases k
  {
    assert LayerIn(g, levels, k);
    if k == 0 {
      c := [n];
    } else {
      var d :| d in g[n] && d in levels[k - 1];
      var front := ChainReachesLevel(g, levels, k - 1, d);
      ChainExtends(g, front, n);
      c := front + [n];
    }
  }

  /** The level of an action is the length of its longest dependency chain. */
  lemma LevelIsLongestChain(g: Graph, levels: seq<seq<string>>, k: nat, n: string)
    requires Layered(g, levels) && k < |levels| && n in levels[k]
    ensures LongestChain(g, n, k)
  {
    var c := ChainReachesLevel(g, levels, k, n);
    forall c | Chain(g, c) && c[|c| - 1] == n
      ensures |c| <= k + 1
    {
      ChainFitsLevel(g, levels, c, k);
    }
  }

  /** Each action stands in exactly one place. */
  lemma EachActionOnce(g: Graph, levels: seq<seq<string>>, n: string) returns (k: nat, i: nat)
    requires LevelsOf(g, levels) && n in g
    ensures k < |levels| && i < |levels[k]| && levels[k][i] == n
    ensures forall l, j :: 0 <= l < |levels| && 0 <= j < |levels[l]| && levels[l][j] == n ==> l == k && j == i
  {
    assert levels[..|levels|] == levels;
    UnionPrefix(levels, |levels|, n);
    k :| 0 <= k < |levels| && n in levels[k];
    i :| 0 <= i < |levels[k]| && levels[k][i] == n;
    forall l, j | 0 <= l < |levels| && 0 <= j < |levels[l]| && levels[l][j] == n
      ensures l == k && j == i
    {
      assert LayerIn(g, levels, l) && LayerIn(g, levels, k);
      UnionPrefix(levels, l, n);
      UnionPrefix(levels, k, n);
    }
  }

  /** Going round a cycle gives ever longer chains. */
  lemma {:induction false} CycleUnrolls(g: Graph, c: seq<string>, times: nat) returns (long: seq<string>)
    requires Cycle(g, c)
    ensures Chain(g, long) && long[|long| - 1] == c[0] && |long| > times
    decreases times
  {
    if times == 0 {
      long := [c[0]];
    } else {
      var shorter := CycleUnrolls(g, c, times - 1);
      long := shorter + c[1..];
      forall i | 0 <= i < |long| - 1
        ensures Link(g, long, i)
      {
        if i < |shorter| - 1 {
          assert Link(g, shorter, i);
        } else {
          assert Link(g, c, i - |shorter| + 1);
        }
      }
    }
  }

  /** If all actions have a level there is no cycle. */
  lemma LevelsMeanAcyclic(g: Graph, levels: seq<seq<string>>)
    requires LevelsOf(g, levels)
    ensures Acyclic(g)
  {
    forall c | Cycle(g, c)
      ensures false
    {
      assert c[0] in g && levels[..|levels|] == levels;
      UnionPrefix(levels, |levels|, c[0]);
      var k :| 0 <= k < |levels| && c[0] in levels[k];
      var long := CycleUnrolls(g, c, k + 1);
      ChainFitsLevel(g, levels, long, k);
    }
  }

  // ---------------------------------------------------------------- finding a cycle

  /** Some actions, each with a dependency among them. */
  ghost predicate Stuck(g: Graph, rest: set<string>) {
    rest <= g.Keys && forall n <- rest :: exists d <- g[n] :: d in rest
  }

  lemma {:induction false} StuckChain(g: Graph, rest: set<string>, n: string, len: nat) returns (c: seq<string>)
    requires Stuck(g, rest) && n in rest
    ensures Chain(g, c) && |c| == len + 1 && c[len] == n && Members(c) <= rest
    decreases len
  {
    assert n in g;
    if len == 0 {
      c := [n];
      OneElementChain(g, n);
    } else {
      var d :| d in g[n] && d in rest;
      var front := StuckChain(g, rest, d, len - 1);
      ChainExtends(g, front, n);
      hide Chain, Stuck;
      c := front + [n];
    }
  }

  lemma {:induction false} DistinctFits(s: seq<string>, rest: set<string>)
    requires Distinct(s) && Members(s) <= rest
    ensures |s| <= |rest|
    decreases |s|
  {
    if s != [] {
      var last := s[|s| - 1];
      DistinctFits(s[..|s| - 1], rest - {last});
    }
  }

  lemma Repetition(s: seq<string>, rest: set<string>) returns (i: nat, j: nat)
    requires Members(s) <= rest && |s| > |rest|
    ensures i < j < |s| && s[i] == s[j]
  {
    if Distinct(s) {
      DistinctFits(s, rest);
    }
    i, j :| 0 <= i < j < |s| && s[i] == s[j];
  }

  /** Among more elements than the set has, two are equal, and between them lies a cycle. */
  lemma StuckHasCycle(g: Graph, rest: set<string>)
    requires Stuck(g, rest) && rest != {}
    ensures !Acyclic(g)
  {
    hide Chain, Stuck, Members;
    var n :| n in rest;
    var c := StuckChain(g, rest, n, |rest|);
    var i, j := Repetition(c, rest);
    ChainSlice(g, c, i, j + 1);
    assert Cycle(g, c[i..j + 1]);
  }

  // ---------------------------------------------------------------- counting dependencies

  function Lookup(dependents: map<string, seq<string>>, d: string): seq<string> {
    if d in dependents then dependents[d] else []
  }

  ghost function Multiplicity(g: Graph, n: string, d: string): nat {
    if n in g then multiset(g[n])[d] else 0
  }

  /** Degrees count dependencies, and dependents list each action as often as it depends. */
  ghost predicate Counts(inDegree: map<string, nat>, dependents: map<string, seq<string>>, g: Graph) {
    && inDegree.Keys == g.Keys
    && (forall n <- g :: inDegree[n] == |g[n]|)
    && (forall d, n :: multiset(Lookup(dependents, d))[n] == Multiplicity(g, n, d))
  }

  lemma AddDependency(inDegree: map<string, nat>, dependents: map<string, seq<string>>, g: Graph, name: string,
                      dep: string)
    requires Counts(inDegree, dependents, g) && name in g
    ensures Counts(inDegree[name := inDegree[name] + 1], dependents[dep := Lookup(dependents, dep) + [name]],
                   g[name := g[name] + [dep]])
  {
    var dependents' := dependents[dep := Lookup(dependents, dep) + [name]];
    var g' := g[name := g[name] + [dep]];
    forall d, n
      ensures multiset(Lookup(dependents', d))[n] == Multiplicity(g', n, d)
    {
      assert multiset(Lookup(dependents, d))[n] == Multiplicity(g, n, d);
      assert multiset(Lookup(dependents, dep) + [name]) == multiset(Lookup(dependents, dep)) + multiset{name};
      assert multiset(g[name] + [dep]) == multiset(g[name]) + multiset{dep};
    }
  }

  lemma AddAction(inDegree: map<string, nat>, dependents: map<string, seq<string>>, g: Graph, name: string)
    requires Counts(inDegree, dependents, g) && name !in g
    ensures Counts(inDegree[name := 0], dependents, g[name := []])
  {
    forall d, n
      ensures multiset(Lookup(dependents, d))[n] == Multiplicity(g[name := []], n, d)
    {
      assert multiset(Lookup(dependents, d))[n] == Multiplicity(g, n, d);
    }
  }

  lemma {:induction false} GraphKeys(actions: seq<Action>, group: set<string>)
    ensures GraphOf(actions, group).Keys == Names(actions)
    ensures UniqueNames(actions) ==> |GraphOf(actions, group)| == |actions|
    decreases |actions|
  {
    if actions != [] {
      var last := actions[|actions| - 1];
      GraphKeys(actions[..|actions| - 1], group);
      assert actions == actions[..|actions| - 1] + [last];
      assert UniqueNames(actions) ==> last.name !in Names(actions[..|actions| - 1]);
    }
  }

  lemma {:induction false} InsideStays(deps: seq<string>, group: set<string>)
    ensures forall d <- Inside(deps, group) :: d in group
    decreases |deps|
  {
    if deps != [] {
      InsideStays(deps[..|deps| - 1], group);
    }
  }

  lemma {:induction false} GraphIsClosed(actions: seq<Action>, group: set<string>)
    ensures forall n <- GraphOf(actions, group) :: forall d <- GraphOf(actions, group)[n] :: d in group
    decreases |actions|
  {
    if actions != [] {
      GraphIsClosed(actions[..|actions| - 1], group);
      InsideStays(actions[|actions| - 1].dependsOn, group);
    }
  }

  /** The first loop of `topological_levels`. */
  method CountDependencies(actions: seq<Action>, group: set<string>)
    returns (inDegree: map<string, nat>, dependents: map<string, seq<string>>)
    requires UniqueNames(actions)
    ensures Counts(inDegree, dependents, GraphOf(actions, group))
  {
    hide Counts;
    inDegree, dependents := map[], map[];
    NothingCounts();
    for i := 0 to |actions|
      invariant Counts(inDegree, dependents, GraphOf(actions[..i], group))
    {
      var name, deps := actions[i].name, actions[i].dependsOn;
      ghost var g := GraphOf(actions[..i], group);
      GraphKeys(actions[..i], group);
      assert name !in g;
      AddAction(inDegree, dependents, g, name);
      inDegree := inDegree[name := 0];
      for k := 0 to |deps|
        invariant Counts(inDegree, dependents, g[name := Inside(deps[..k], group)])
      {
        assert deps[..k + 1][..k] == deps[..k];
        if deps[k] in group {
          CountedKeys(inDegree, dependents, g[name := Inside(deps[..k], group)]);
          AddDependency(inDegree, dependents, g[name := Inside(deps[..k], group)], name, deps[k]);
          assert g[name := Inside(deps[..k], group)][name := Inside(deps[..k], group) + [deps[k]]]
              == g[name := Inside(deps[..k + 1], group)];
          inDegree := inDegree[name := inDegree[name] + 1];
          dependents := dependents[deps[k] := Lookup(dependents, deps[k]) + [name]];
        } else {
          assert Inside(deps[..k + 1], group) == Inside(deps[..k], group);
        }
      }
      assert deps[..|deps|] == deps && actions[..i + 1][..i] == actions[..i];
    }
    assert actions[..|actions|] == actions;
  }

  lemma NothingCounts()
    ensures Counts(map[], map[], map[])
  {
  }

  lemma CountedKeys(inDegree: map<string, nat>, dependents: map<string, seq<string>>, g: Graph)
    requires Counts(inDegree, dependents, g)
    ensures inDegree.Keys == g.Keys && forall n <- g :: inDegree[n] == |g[n]|
  {
  }

  // ---------------------------------------------------------------- releasing a level

  /** How many entries are not done yet. */
  ghost function Outside(deps: seq<string>, done: set<string>): nat {
    if deps == [] then 0
    else Outside(deps[..|deps| - 1], done) + if deps[|deps| - 1] in done then 0 else 1
  }

  lemma {:induction false} OutsideMinusOne(deps: seq<string>, done: set<string>, a: string)
    requires a !in done
    ensures Outside(deps, done + {a}) == Outside(deps, done) - multiset(deps)[a]
    decreases |deps|
  {
    if deps != [] {
      var front, last := deps[..|deps| - 1], deps[|deps| - 1];
      OutsideMinusOne(front, done, a);
      assert deps == front + [last];
    }
  }

  lemma {:induction false} OutsideZero(deps: seq<string>, done: set<string>)
    ensures Outside(deps, done) == 0 <==> forall d <- deps :: d in done
    decreases |deps|
  {
    if deps != [] {
      var front, last := deps[..|deps| - 1], deps[|deps| - 1];
      OutsideZero(front, done);
      assert deps == front + [last];
    }
  }

  lemma {:induction false} OutsideOfNone(deps: seq<string>)
    ensures Outside(deps, {}) == |deps|
    decreases |deps|
  {
    if deps != [] {
      OutsideOfNone(deps[..|deps| - 1]);
    }
  }

  ghost predicate Degrees(inDegree: map<string, nat>, g: Graph, done: set<string>) {
    inDegree.Keys == g.Keys && forall n <- g :: inDegree[n] == Outside(g[n], done)
  }

  ghost predicate DependentsOf(dependents: map<string, seq<string>>, g: Graph) {
    forall d, n :: multiset(Lookup(dependents, d))[n] == Multiplicity(g, n, d)
  }

  ghost predicate DependsWithin(g: Graph, some: set<string>, done: set<string>) {
    forall n <- some :: n in g && forall d <- g[n] :: d in done
  }

  /** The actions waiting for the next level: not taken yet, but with nothing left to wait for,
      and released by something in the current level. */
  ghost predicate Queued(queue: seq<string>, inDegree: map<string, nat>, g: Graph, taken: set<string>,
                         level: seq<string>) {
    && inDegree.Keys == g.Keys
    && Distinct(queue)
    && (forall n :: n in queue <==> n in g && n !in taken && inDegree[n] == 0)
    && (forall n <- queue :: exists d <- g[n] :: d in level)
  }

  /** Part of the way through the dependents of `a`. */
  ghost predicate PartlyReleased(inDegree: map<string, nat>, g: Graph, done: set<string>, seen: seq<string>) {
    inDegree.Keys == g.Keys && forall n <- g :: inDegree[n] == Outside(g[n], done) - multiset(seen)[n]
  }

  lemma {:induction false} OutsideAtLeast(deps: seq<string>, done: set<string>, a: string)
    requires a !in done
    ensures Outside(deps, done) >= multiset(deps)[a]
  {
    OutsideMinusOne(deps, done, a);
  }

  /** The next dependent still counts `a`, so its degree is positive before the decrement. */
  lemma DegreeIsPositive(inDegree: map<string, nat>, g: Graph, done: set<string>, dependents: map<string, seq<string>>,
                         a: string, k: nat)
    requires DependentsOf(dependents, g) && a !in done && k < |Lookup(dependents, a)|
    requires PartlyReleased(inDegree, g, done, Lookup(dependents, a)[..k])
    ensures var n := Lookup(dependents, a)[k];
      n in g && a in g[n] && n in inDegree && inDegree[n] > 0
  {
    var all := Lookup(dependents, a);
    var n := all[k];
    assert multiset(all)[n] > 0 && multiset(all)[n] == Multiplicity(g, n, a);
    assert all == all[..k] + [n] + all[k + 1..];
    assert multiset(all)[n] >= multiset(all[..k])[n] + 1;
    OutsideAtLeast(g[n], done, a);
  }

  lemma ReleaseOne(inDegree: map<string, nat>, g: Graph, done: set<string>, seen: seq<string>, n: string)
    requires PartlyReleased(inDegree, g, done, seen) && n in g && inDegree[n] > 0
    ensures PartlyReleased(inDegree[n := inDegree[n] - 1], g, done, seen + [n])
  {
    assert multiset(seen + [n]) == multiset(seen) + multiset{n};
  }

  lemma AllReleased(inDegree: map<string, nat>, g: Graph, done: set<string>, dependents: map<string, seq<string>>,
                    a: string)
    requires DependentsOf(dependents, g) && a !in done
    requires PartlyReleased(inDegree, g, done, Lookup(dependents, a))
    ensures Degrees(inDegree, g, done + {a})
  {
    forall n <- g
      ensures inDegree[n] == Outside(g[n], done + {a})
    {
      OutsideMinusOne(g[n], done, a);
      assert multiset(Lookup(dependents, a))[n] == Multiplicity(g, n, a);
    }
  }

  lemma QueueOne(queue: seq<string>, inDegree: map<string, nat>, g: Graph, taken: set<string>, level: seq<string>,
                 n: string, a: string)
    requires Queued(queue, inDegree, g, taken, level) && n in g && n !in taken && inDegree[n] > 0
    requires a in level && a in g[n]
    ensures inDegree[n] == 1 ==> Queued(queue + [n], inDegree[n := 0], g, taken, level)
    ensures inDegree[n] > 1 ==> Queued(queue, inDegree[n := inDegree[n] - 1], g, taken, level)
  {
  }

  /** The dependents of one action of the level lose one dependency each time they are listed. */
  method ReleaseDependents(a: string, inDegree0: map<string, nat>, dependents: map<string, seq<string>>,
                           queue0: seq<string>,
                           ghost g: Graph, ghost done: set<string>, ghost taken: set<string>,
                           ghost level: seq<string>, ghost before: set<string>)
    returns (inDegree: map<string, nat>, queue: seq<string>)
    requires DependentsOf(dependents, g) && Degrees(inDegree0, g, done)
    requires Queued(queue0, inDegree0, g, taken, level)
    requires a in level && a !in done && a !in before && DependsWithin(g, taken, before)
    ensures Degrees(inDegree, g, done + {a})
    ensures Queued(queue, inDegree, g, taken, level)
  {
    hide Queued, Degrees, DependentsOf, PartlyReleased;
    inDegree, queue := inDegree0, queue0;
    var deps := Lookup(dependents, a);
    NoneReleased(inDegree, g, done);
    for k := 0 to |deps|
      invariant PartlyReleased(inDegree, g, done, deps[..k])
      invariant Queued(queue, inDegree, g, taken, level)
    {
      var dep := deps[k];
      DegreeIsPositive(inDegree, g, done, dependents, a, k);
      ReleaseOne(inDegree, g, done, deps[..k], dep);
      assert deps[..k + 1] == deps[..k] + [dep];
      QueueOne(queue, inDegree, g, taken, level, dep, a);
      var deg := inDegree[dep] - 1;
      inDegree := inDegree[dep := deg];
      if deg == 0 {
        queue := queue + [dep];
      }
    }
    assert deps[..|deps|] == deps;
    AllReleased(inDegree, g, done, dependents, a);
  }

  lemma NoneReleased(inDegree: map<string, nat>, g: Graph, done: set<string>)
    requires Degrees(inDegree, g, done)
    ensures PartlyReleased(inDegree, g, done, [])
  {
  }

  // ---------------------------------------------------------------- the levels

  /** Where the outer loop stands: the levels so far, the degrees, and the queue of the next level. */
  ghost predicate Progress(g: Graph, levels: seq<seq<string>>, done: set<string>, inDegree: map<string, nat>,
                           queue: seq<string>) {
    && Layered(g, levels) && Union(levels) == done && done <= g.Keys
    && DependsWithin(g, done, done)
    && Degrees(inDegree, g, done)
    && Distinct(queue)
    && (forall n :: n in queue <==> n in g && n !in done && inDegree[n] == 0)
    && (levels != [] ==> forall n <- queue :: exists d <- g[n] :: d in levels[|levels| - 1])
  }

  lemma StartProgress(g: Graph, inDegree: map<string, nat>, dependents: map<string, seq<string>>, queue: seq<string>)
    requires Counts(inDegree, dependents, g)
    requires Distinct(queue) && forall n :: n in queue <==> n in g && inDegree[n] == 0
    ensures DependentsOf(dependents, g) && Progress(g, [], {}, inDegree, queue)
  {
    forall n <- g
      ensures inDegree[n] == Outside(g[n], {})
    {
      OutsideOfNone(g[n]);
    }
  }

  lemma StartLevel(g: Graph, levels: seq<seq<string>>, done: set<string>, inDegree: map<string, nat>,
                   level: seq<string>)
    requires Progress(g, levels, done, inDegree, level)
    ensures Degrees(inDegree, g, done)
    ensures Queued([], inDegree, g, done + Members(level), level)
    ensures DependsWithin(g, done + Members(level), done)
    ensures Members(level) !! done && Members(level) <= g.Keys && Distinct(level)
  {
    forall n <- Members(level)
      ensures n in g && forall d <- g[n] :: d in done
    {
      OutsideZero(g[n], done);
    }
  }

  lemma FinishLevel(g: Graph, levels: seq<seq<string>>, done: set<string>, inDegree0: map<string, nat>,
                    level: seq<string>,
                    inDegree: map<string, nat>, queue: seq<string>)
    requires Progress(g, levels, done, inDegree0, level)
    requires DependsWithin(g, done + Members(level), done)
    requires Degrees(inDegree, g, done + Members(level))
    requires Queued(queue, inDegree, g, done + Members(level), level)
    requires Members(level) <= g.Keys
    ensures Progress(g, levels + [level], done + Members(level), inDegree, queue)
  {
    hide Outside, Union, Layered, Degrees;
    UnionLast(levels, level);
    assert (levels + [level])[|levels|] == level;
    LayeredGrows(g, levels, level);
  }

  lemma LayeredGrows(g: Graph, levels: seq<seq<string>>, level: seq<string>)
    requires Layered(g, levels)
    requires LayerAt(g, Union(levels), if levels != [] then levels[|levels| - 1] else [], level, levels == [])
    ensures Layered(g, levels + [level])
  {
    hide LayerAt, Union, LayerIn;
    forall k | 0 <= k < |levels| + 1
      ensures LayerIn(g, levels + [level], k)
    {
      if k < |levels| {
        OldLayer(g, levels, level, k);
      } else {
        NewLayer(g, levels, level);
      }
    }
  }

  lemma OldLayer(g: Graph, levels: seq<seq<string>>, level: seq<string>, k: nat)
    requires LayerIn(g, levels, k)
    ensures LayerIn(g, levels + [level], k)
  {
    hide LayerAt, Union;
    assert (levels + [level])[..k] == levels[..k];
  }

  lemma NewLayer(g: Graph, levels: seq<seq<string>>, level: seq<string>)
    requires LayerAt(g, Union(levels), if levels != [] then levels[|levels| - 1] else [], level, levels == [])
    ensures LayerIn(g, levels + [level], |levels|)
  {
    hide LayerAt, Union;
    assert (levels + [level])[..|levels|] == levels;
  }

  lemma UnionLast(levels: seq<seq<string>>, level: seq<string>)
    ensures Union(levels + [level]) == Union(levels) + Members(level)
  {
    assert (levels + [level])[..|levels|] == levels;
  }

  lemma {:induction false} DistinctCount(s: seq<string>)
    requires Distinct(s)
    ensures |Members(s)| == |s|
    decreases |s|
  {
    if s != [] {
      var front, last := s[..|s| - 1], s[|s| - 1];
      DistinctCount(front);
      assert Members(s) == Members(front) + {last};
    }
  }

  /** Nothing is queued any more but something is left: what is left is stuck on itself. */
  lemma LeftoverIsStuck(g: Graph, levels: seq<seq<string>>, done: set<string>, inDegree: map<string, nat>)
    requires Closed(g) && Progress(g, levels, done, inDegree, [])
    ensures Stuck(g, g.Keys - done)
  {
    forall n <- g.Keys - done
      ensures exists d <- g[n] :: d in g.Keys - done
    {
      OutsideZero(g[n], done);
    }
  }

  /** The middle loop: every action of the level releases its dependents. */
  method ReleaseLevel(level: seq<string>, inDegree0: map<string, nat>, dependents: map<string, seq<string>>,
                      ghost g: Graph, ghost done: set<string>)
    returns (inDegree: map<string, nat>, queue: seq<string>)
    requires DependentsOf(dependents, g) && Degrees(inDegree0, g, done)
    requires Queued([], inDegree0, g, done + Members(level), level)
    requires DependsWithin(g, done + Members(level), done) && Members(level) !! done && Distinct(level)
    ensures Degrees(inDegree, g, done + Members(level))
    ensures Queued(queue, inDegree, g, done + Members(level), level)
  {
    hide Queued, Degrees, DependentsOf, DependsWithin, Distinct;
    inDegree, queue := inDegree0, [];
    assert done + Members(level[..0]) == done;
    for i := 0 to |level|
      invariant Degrees(inDegree, g, done + Members(level[..i]))
      invariant Queued(queue, inDegree, g, done + Members(level), level)
    {
      MembersStep(level, i);
      assert done + Members(level[..i + 1]) == done + Members(level[..i]) + {level[i]};
      assert level[i] in Members(level);
      inDegree, queue := ReleaseDependents(level[i], inDegree, dependents, queue, g, done + Members(level[..i]),
                                           done + Members(level), level, done);
    }
    assert level[..|level|] == level;
  }

  /** No further action can be released. */
  ghost predicate Exhausted(g: Graph, levels: seq<seq<string>>) {
    exists inDegree :: Progress(g, levels, Union(levels), inDegree, [])
  }

  lemma ProgressEnds(g: Graph, levels: seq<seq<string>>, done: set<string>, inDegree: map<string, nat>)
    requires Progress(g, levels, done, inDegree, [])
    ensures done == Union(levels) && done <= g.Keys && Exhausted(g, levels)
  {
  }

  /** The outer loop: takes the queue as the next level until it stays empty. */
  method RunLevels(inDegree0: map<string, nat>, dependents: map<string, seq<string>>, queue0: seq<string>,
                   ghost g: Graph)
    returns (levels: seq<seq<string>>, processed: nat)
    requires DependentsOf(dependents, g) && Progress(g, [], {}, inDegree0, queue0)
    ensures Exhausted(g, levels) && processed == |Union(levels)|
  {
    hide Progress, Queued, Degrees, DependentsOf, DependsWithin, Distinct, Members;
    levels, processed := [], 0;
    ghost var done: set<string> := {};
    var inDegree, queue := inDegree0, queue0;
    while queue != []
      invariant Progress(g, levels, done, inDegree, queue)
      invariant processed == |done| && done <= g.Keys
      decreases |g.Keys - done|
    {
      var level := queue;
      ghost var before := inDegree;
      StartLevel(g, levels, done, inDegree, level);
      inDegree, queue := ReleaseLevel(level, inDegree, dependents, g, done);
      FinishLevel(g, levels, done, before, level, inDegree, queue);
      DistinctCount(level);
      MemberOf(level);
      Smaller(g.Keys, done, Members(level));
      processed := processed + |level|;
      levels := levels + [level];
      done := done + Members(level);
    }
    ProgressEnds(g, levels, done, inDegree);
  }

  /** `topological_levels`. The queue of actions without dependencies comes out of a hash map in
      no particular order. */
  method TopologicalLevels(actions: seq<Action>, validNames: set<string>) returns (r: Result<seq<seq<string>>, Error>)
    requires UniqueNames(actions)
    ensures var g := GraphOf(actions, validNames * Names(actions));
      && (r.Ok? <==> Acyclic(g))
      && (r.Ok? ==> LevelsOf(g, r.value))
  {
    hide Progress, Counts, DependentsOf, LevelsOf, Acyclic, Distinct, GraphOf, Names, UniqueNames, Stuck, Closed;
    var group := validNames * Names(actions);
    ghost var g := GraphOf(actions, group);
    GraphKeys(actions, group);
    var inDegree, dependents := CountDependencies(actions, group);
    CountedKeys(inDegree, dependents, g);
    var queue := ZeroDegrees(inDegree);
    StartProgress(g, inDegree, dependents, queue);
    var levels, processed := RunLevels(inDegree, dependents, queue, g);
    ghost var done := Union(levels);
    ghost var last :| Progress(g, levels, done, last, []);
    ProgressEnds(g, levels, done, last);
    GraphSize(g);
    if processed < |actions| {
      GroupIsClosed(actions, validNames);
      LeftoverIsStuck(g, levels, done, last);
      SomethingLeft(done, g.Keys);
      StuckHasCycle(g, g.Keys - done);
      return Err(DependencyCycle);
    }
    SameSize(done, g.Keys);
    AllDone(g, levels, last);
    LevelsMeanAcyclic(g, levels);
    r := Ok(levels);
  }

  lemma GraphSize(g: Graph)
    ensures |g| == |g.Keys|
  {
  }

  lemma MemberOf(s: seq<string>)
    ensures s != [] ==> s[0] in Members(s)
  {
  }

  lemma AllDone(g: Graph, levels: seq<seq<string>>, inDegree: map<string, nat>)
    requires Progress(g, levels, g.Keys, inDegree, [])
    ensures LevelsOf(g, levels)
  {
  }

  lemma GroupIsClosed(actions: seq<Action>, validNames: set<string>)
    ensures Closed(GraphOf(actions, validNames * Names(actions)))
  {
    GraphIsClosed(actions, validNames * Names(actions));
    GraphKeys(actions, validNames * Names(actions));
  }

  lemma MembersStep(level: seq<string>, i: nat)
    requires i < |level| && Distinct(level)
    ensures Members(level[..i + 1]) == Members(level[..i]) + {level[i]} && level[i] !in Members(level[..i])
  {
  }

  lemma Smaller(all: set<string>, done: set<string>, more: set<string>)
    requires done <= all && more <= all && more !! done && more != {}
    ensures |all - (done + more)| < |all - done| && |done + more| == |done| + |more|
  {
    assert all - (done + more) == (all - done) - more;
    assert |(all - done) - more| == |all - done| - |more| by {
      assert all - done == ((all - done) - more) + more;
    }
  }

  lemma SomethingLeft(done: set<string>, all: set<string>)
    requires done <= all && |done| < |all|
    ensures all - done != {}
  {
    assert all == done + (all - done);
    assert |all| == |done| + |all - done|;
  }

  lemma SameSize(a: set<string>, b: set<string>)
    requires a <= b && |a| >= |b|
    ensures a == b
  {
    assert b == a + (b - a);
    assert |b| == |a| + |b - a|;
  }

  method ZeroDegrees(inDegree: map<string, nat>) returns (queue: seq<string>)
    ensures Distinct(queue)
    ensures forall n :: n in queue <==> n in inDegree && inDegree[n] == 0
  {
    queue := [];
    var rest := set n <- inDegree.Keys | inDegree[n] == 0;
    ghost var all := rest;
    while rest != {}
      invariant Distinct(queue) && Members(queue) !! rest && Members(queue) + rest == all
    {
      var n :| n in rest;
      assert n !in Members(queue);
      queue := queue + [n];
      rest := rest - {n};
    }
    assert forall n :: n in queue <==> n in Members(queue);
  }
}
