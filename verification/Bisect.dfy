/** Bisect: a binary search for the commit that introduced a regression. */
module Bisect {

  import opened Wrappers
  import opened Slices
  import opened Reachability
  import opened Gc
  import opened Arithmetic

  // ---------------------------------------------------------------- the commits in between

  function IsCommit(objects: Objects, id: Id): bool {
    id in objects && objects[id].Readable? && objects[id].content.Commit?
  }

  function Without(ids: seq<Id>, id: Id): (rest: seq<Id>)
    ensures Members(rest) == Members(ids) - {id}
  {
    if ids == [] then []
    else
      assert ids == [ids[0]] + ids[1..];
      (if ids[0] == id then [] else [ids[0]]) + Without(ids[1..], id)
  }

  /** The parents of a commit, except that the walk goes neither to nor beyond the good commit. */
  function ParentsShort(objects: Objects, good: Id, id: Id): seq<Id> {
    if id != good && IsCommit(objects, id) then Without(objects[id].content.parents, good) else []
  }

  function ParentGraph(objects: Objects, good: Id): (g: Graph)
    ensures forall id :: Next(g, id) == ParentsShort(objects, good, id)
  {
    map id | id in objects :: ParentsShort(objects, good, id)
  }

  /** The walk from `bad` comes to this id. */
  ghost predicate OnTheWay(objects: Objects, good: Id, bad: Id, id: Id) {
    Reachable(ParentGraph(objects, good), {bad}, id)
  }

  ghost predicate IsCandidate(objects: Objects, good: Id, bad: Id, id: Id) {
    id != good && id != bad && IsCommit(objects, id) && OnTheWay(objects, good, bad, id)
  }

  // The same, told from the commits themselves.

  /** With every commit but the good one its parents, except the good one. */
  ghost predicate ClosedUnderParents(objects: Objects, good: Id, ids: set<Id>) {
    forall id <- ids :: id != good && id in objects && objects[id].Readable? ==>
      match objects[id].content
      case Commit(_, parents) => forall p <- parents :: p != good ==> p in ids
      case _ => true
  }

  /** The least such set that holds the bad commit. */
  ghost predicate IsWay(objects: Objects, good: Id, bad: Id, way: set<Id>) {
    && bad in way && ClosedUnderParents(objects, good, way)
    && forall ids: set<Id> :: bad in ids && ClosedUnderParents(objects, good, ids) ==> way <= ids
  }

  /** The candidates are the readable commits in it, without the two ends. */
  ghost predicate AreCandidates(objects: Objects, good: Id, bad: Id, candidates: seq<Id>) {
    exists way: set<Id> :: IsWay(objects, good, bad, way) && forall id :: id in candidates <==>
      && id in way && id != good && id != bad
      && id in objects && objects[id].Readable? && objects[id].content.Commit?
  }

  lemma FoundIsWay(objects: Objects, good: Id, bad: Id, way: set<Id>)
    requires forall id :: id in way <==> OnTheWay(objects, good, bad, id)
    ensures IsWay(objects, good, bad, way)
  {
    var g := ParentGraph(objects, good);
    RootIsReachable(g, {bad}, bad);
    forall id, p | id in way && p in Next(g, id)
      ensures p in way
    {
      LinkIsReachable(g, {bad}, id, p);
    }
    hide ParentGraph, Reachable;
    forall ids: set<Id> | bad in ids && ClosedUnderParents(objects, good, ids)
      ensures way <= ids
    {
      assert Closed(g, {bad}, ids);
      forall id | id in way
        ensures id in ids
      {
        ReachableIsLeast(g, {bad}, ids, id);
      }
    }
    WayIsClosed(objects, good, way);
  }

  lemma FoundAreCandidates(objects: Objects, good: Id, bad: Id, way: set<Id>, candidates: seq<Id>)
    requires forall id :: id in way <==> OnTheWay(objects, good, bad, id)
    requires forall id :: id in candidates <==> IsCandidate(objects, good, bad, id)
    ensures AreCandidates(objects, good, bad, candidates)
  {
    FoundIsWay(objects, good, bad, way);
    hide IsWay, OnTheWay;
  }

  lemma WayIsClosed(objects: Objects, good: Id, ids: set<Id>)
    requires forall id, p :: id in ids && p in ParentsShort(objects, good, id) ==> p in ids
    ensures ClosedUnderParents(objects, good, ids)
  {
    forall id, p | id in ids && id != good && IsCommit(objects, id) && p in objects[id].content.parents && p != good
      ensures p in ids
    {
      assert p in Members(objects[id].content.parents) - {good};
      assert p in ParentsShort(objects, good, id);
    }
  }

  /** A linear history from `good` to `bad`, oldest first. */
  ghost predicate IsLine(objects: Objects, line: seq<Id>, good: Id, bad: Id) {
    && |line| >= 2 && line[0] == good && line[|line| - 1] == bad && Distinct(line)
    && forall i :: 0 < i < |line| ==> Follows(objects, line[i - 1], line[i])
  }

  ghost predicate Follows(objects: Objects, parent: Id, id: Id) {
    IsCommit(objects, id) && objects[id].content.parents == [parent]
  }

  /** How far a walk along a linear history has come after so many visits. */
  ghost predicate WalkedTo(line: seq<Id>, visits: nat, seen: set<Id>, queue: seq<Id>, result: seq<Id>) {
    var last := |line| - 1;
    && visits <= last
    && queue == (if visits < last then [line[last - visits]] else [])
    && SeenSince(line, last - visits, seen)
    && |result| == (if visits == 0 then 0 else visits - 1)
    && NewestFirst(line, result)
  }

  ghost predicate SeenSince(line: seq<Id>, from: nat, seen: set<Id>)
    requires from <= |line|
  {
    forall id <- seen :: id in line[from..]
  }

  /** The newest commits before the bad one, in reverse. */
  ghost predicate NewestFirst(line: seq<Id>, result: seq<Id>) {
    |result| < |line| && forall i :: 0 <= i < |result| ==> result[i] == line[|line| - 2 - i]
  }

  lemma SeenOneMore(line: seq<Id>, k: nat, seen: set<Id>)
    requires 0 < k <= |line| && SeenSince(line, k, seen)
    ensures SeenSince(line, k - 1, seen) && SeenSince(line, k - 1, seen + {line[k - 1]})
  {
    assert line[k - 1..] == [line[k - 1]] + line[k..];
  }

  /** A visit on a linear history queues the one parent, unless that is the good commit. */
  lemma LineVisit(objects: Objects, line: seq<Id>, good: Id, bad: Id, k: nat, seen: set<Id>, seen': set<Id>,
                  queue': seq<Id>)
    requires IsLine(objects, line, good, bad) && 0 < k < |line| && IsCommit(objects, line[k])
      && SeenSince(line, k, seen)
    requires Enqueued(objects[line[k]].content.parents, {good}, seen, [], seen', queue')
    ensures queue' == (if k > 1 then [line[k - 1]] else []) && SeenSince(line, k - 1, seen')
  {
    assert Follows(objects, line[k - 1], line[k]);
    NotLater(line, k);
    assert k > 1 ==> line[k - 1] != good;
    hide IsLine, Distinct, Enqueued, Follows;
    OneParentQueued(line[k - 1], {good}, seen, seen', queue');
    SeenOneMore(line, k, seen);
  }

  lemma LineStep(objects: Objects, line: seq<Id>, good: Id, bad: Id, visits: nat, seen: set<Id>, queue: seq<Id>,
                 result: seq<Id>, seen': set<Id>, queue': seq<Id>)
    requires IsLine(objects, line, good, bad) && WalkedTo(line, visits, seen, queue, result) && queue != []
    requires IsCommit(objects, queue[0])
    requires Enqueued(objects[queue[0]].content.parents, {good}, seen, queue[1..], seen', queue')
    ensures WalkedTo(line, visits + 1, seen', queue', if queue[0] != bad then result + [queue[0]] else result)
  {
    var k := |line| - 1 - visits;
    assert queue[1..] == [];
    assert queue[0] != bad <==> visits > 0;
    hide IsLine, SeenSince, Enqueued, IsCommit;
    LineVisit(objects, line, good, bad, k, seen, seen', queue');
    if visits > 0 {
      NewestGrows(line, result);
    }
    hide NewestFirst;
  }

  lemma NewestGrows(line: seq<Id>, result: seq<Id>)
    requires NewestFirst(line, result) && |result| + 1 < |line|
    ensures NewestFirst(line, result + [line[|line| - 2 - |result|]])
  {
  }

  lemma NotLater(line: seq<Id>, k: nat)
    requires Distinct(line) && 0 < k < |line|
    ensures line[k - 1] !in line[k..]
  {
  }

  lemma OneParentQueued(parent: Id, skip: set<Id>, seen: set<Id>, seen': set<Id>, queue: seq<Id>)
    requires Enqueued([parent], skip, seen, [], seen', queue)
    ensures if parent in skip || parent in seen then seen' == seen && queue == []
            else seen' == seen + {parent} && queue == [parent]
  {
    if parent in skip || parent in seen {
      assert seen' == seen;
    } else {
      assert seen' == seen + {parent} && parent in queue && |queue| == 1;
    }
  }

  lemma LineHeadIsCommit(objects: Objects, line: seq<Id>, good: Id, bad: Id, visits: nat, seen: set<Id>,
                         queue: seq<Id>, result: seq<Id>)
    requires IsLine(objects, line, good, bad) && WalkedTo(line, visits, seen, queue, result) && queue != []
    ensures queue[0] != good && IsCommit(objects, queue[0])
  {
    var k := |line| - 1 - visits;
    assert Follows(objects, line[k - 1], line[k]);
  }

  ghost predicate Walked(objects: Objects, good: Id, bad: Id, visits: nat, seen: set<Id>, queue: seq<Id>,
                         result: seq<Id>) {
    forall line :: IsLine(objects, line, good, bad) ==> WalkedTo(line, visits, seen, queue, result)
  }

  lemma WalkStarts(objects: Objects, good: Id, bad: Id)
    ensures Walked(objects, good, bad, 0, {bad}, [bad], [])
  {
  }

  lemma WalkStep(objects: Objects, good: Id, bad: Id, visits: nat, seen: set<Id>, queue: seq<Id>, result: seq<Id>,
                 seen': set<Id>, queue': seq<Id>)
    requires Walked(objects, good, bad, visits, seen, queue, result) && queue != [] && IsCommit(objects, queue[0])
    requires Enqueued(objects[queue[0]].content.parents, {good}, seen, queue[1..], seen', queue')
    ensures Walked(objects, good, bad, visits + 1, seen', queue',
                   if queue[0] != bad then result + [queue[0]] else result)
  {
    forall line | IsLine(objects, line, good, bad)
      ensures WalkedTo(line, visits + 1, seen', queue', if queue[0] != bad then result + [queue[0]] else result)
    {
      hide IsLine, WalkedTo, Enqueued;
      LineStep(objects, line, good, bad, visits, seen, queue, result, seen', queue');
    }
  }

  /** On a linear history the walk meets nothing but commits, and not the good one. */
  lemma WalkIsNotLinear(objects: Objects, good: Id, bad: Id, visits: nat, seen: set<Id>, queue: seq<Id>,
                        result: seq<Id>)
    requires Walked(objects, good, bad, visits, seen, queue, result) && queue != []
    requires queue[0] == good || !IsCommit(objects, queue[0])
    ensures forall line :: !IsLine(objects, line, good, bad)
    ensures forall v, vs, q, rs :: Walked(objects, good, bad, v, vs, q, rs)
  {
    forall line | IsLine(objects, line, good, bad)
      ensures false
    {
      LineHeadIsCommit(objects, line, good, bad, visits, seen, queue, result);
    }
  }

  /** A walk along a linear history has collected what lies in between, newest first. */
  lemma LineEnds(line: seq<Id>, visits: nat, seen: set<Id>, result: seq<Id>)
    requires |line| >= 2 && WalkedTo(line, visits, seen, [], result)
    ensures Reversed(result) == line[1..|line| - 1]
  {
  }

  // ---------------------------------------------------------------- what the walk collects

  /** Nothing waits twice. */
  ghost predicate NoRepeats(queue: seq<Id>) {
    |Members(queue)| == |queue|
  }

  ghost predicate Collected(objects: Objects, good: Id, bad: Id, seen: set<Id>, queue: seq<Id>, result: seq<Id>) {
    && Distinct(result)
    && (forall id <- result :: id in seen && id !in queue && IsCommit(objects, id) && id != good && id != bad)
    && (forall id <- seen :: id in queue || id in result || id == bad || id == good || !IsCommit(objects, id))
  }

  lemma SkipIsWithout(ids: seq<Id>, skip: Id, seen: set<Id>, waiting: seq<Id>, seen': set<Id>, queue: seq<Id>)
    requires Enqueued(ids, {skip}, seen, waiting, seen', queue)
    ensures Enqueued(Without(ids, skip), {}, seen, waiting, seen', queue)
  {
    assert Members(Without(ids, skip)) == Members(ids) - {skip};
  }

  lemma QueueStaysDistinct(ids: seq<Id>, skip: set<Id>, seen: set<Id>, waiting: seq<Id>, seen': set<Id>, queue: seq<Id>)
    requires Enqueued(ids, skip, seen, waiting, seen', queue)
    requires NoRepeats(waiting) && forall id <- waiting :: id in seen
    ensures NoRepeats(queue)
  {
    assert Members(queue) == Members(waiting) + (seen' - seen);
    assert seen' == seen + (seen' - seen);
  }

  lemma HeadLeaves(queue: seq<Id>)
    requires NoRepeats(queue) && queue != []
    ensures NoRepeats(queue[1..]) && queue[0] !in queue[1..]
  {
    var rest := queue[1..];
    FewMembers(rest);
    assert queue == [queue[0]] + rest;
    assert Members(queue) == {queue[0]} + Members(rest);
    assert queue[0] in rest ==> Members(queue) == Members(rest);
  }

  lemma {:induction false} FewMembers(ids: seq<Id>)
    ensures |Members(ids)| <= |ids|
    decreases |ids|
  {
    if ids != [] {
      FewMembers(ids[1..]);
      assert ids == [ids[0]] + ids[1..];
      assert Members(ids) == {ids[0]} + Members(ids[1..]);
    }
  }

  lemma VisitKeepsCollected(objects: Objects, good: Id, bad: Id, seen: set<Id>, queue: seq<Id>, result: seq<Id>,
                            ids: seq<Id>, skip: set<Id>, seen': set<Id>, queue': seq<Id>)
    requires Collected(objects, good, bad, seen, queue, result) && queue != [] && queue[0] !in queue[1..]
    requires (forall id <- queue :: id in seen) && Enqueued(ids, skip, seen, queue[1..], seen', queue')
    ensures Collected(objects, good, bad, seen', queue',
      if queue[0] != good && queue[0] != bad && IsCommit(objects, queue[0]) then result + [queue[0]] else result)
  {
    assert queue == [queue[0]] + queue[1..];
    hide IsCommit;
  }

  lemma NothingToEnqueue(seen: set<Id>, waiting: seq<Id>)
    ensures Enqueued([], {}, seen, waiting, seen, waiting)
  {
  }

  /** `collect_commits_between`: each commit in between once; on a linear history, in its order. */
  method CollectCommitsBetween(good: Id, bad: Id, objects: Objects) returns (r: Result<seq<Id>, Error>)
    ensures r.Ok? ==> Distinct(r.value) && forall id :: id in r.value <==> IsCandidate(objects, good, bad, id)
    ensures r.Ok? ==> AreCandidates(objects, good, bad, r.value)
    ensures r.Err? ==> var id := r.error.id;
      id != good && OnTheWay(objects, good, bad, id) && id in objects && objects[id].Damaged?
    ensures forall line :: IsLine(objects, line, good, bad) ==> r == Ok(line[1..|line| - 1])
  {
    hide SearchInv, Enqueued, Universe, Reachable, Members, ParentGraph, NoRepeats, Collected, Walked, IsLine,
      AreCandidates;
    ghost var g := ParentGraph(objects, good);
    ghost var visits := 0;
    var result: seq<Id> := [];
    var visited, queue := Enqueue([bad], {}, {}, []);
    SearchStarts(g, [bad], {}, visited, queue);
    OneParentQueued(bad, {}, {}, visited, queue);
    WalkStarts(objects, good, bad);
    CollectionStarts(objects, good, bad);
    while queue != []
      invariant SearchInv(g, {bad}, visited, queue)
      invariant NoRepeats(queue) && Collected(objects, good, bad, visited, queue, result)
      invariant Walked(objects, good, bad, visits, visited, queue, result)
      decreases |Universe(g, {bad}) - visited| + |queue|
    {
      var id := queue[0];
      SearchedIsReachable(g, {bad}, visited, queue);
      HeadLeaves(queue);
      ghost var seen, was, sofar := visited, queue, result;
      if id != good && id in objects && objects[id].Damaged? {
        DamagedIsNoCommit(objects, id);
        WalkIsNotLinear(objects, good, bad, visits, visited, queue, result);
        return Err(Corrupt(id));
      }
      if id == good || !IsCommit(objects, id) {
        WalkIsNotLinear(objects, good, bad, visits, visited, queue, result);
        queue := queue[1..];
        NothingToEnqueue(visited, queue);
        VisitKeepsCollected(objects, good, bad, seen, was, sofar, [], {}, visited, queue);
      } else {
        if id != bad {
          result := result + [id];
        }
        visited, queue := Enqueue(objects[id].content.parents, {good}, visited, queue[1..]);
        WalkStep(objects, good, bad, visits, seen, was, sofar, visited, queue);
        VisitKeepsCollected(objects, good, bad, seen, was, sofar, objects[id].content.parents, {good}, visited, queue);
        QueueStaysDistinct(objects[id].content.parents, {good}, seen, was[1..], visited, queue);
        SkipIsWithout(objects[id].content.parents, good, seen, was[1..], visited, queue);
      }
      visits := visits + 1;
      VisitKeepsSearchInv(g, {bad}, seen, was, visited, queue);
      VisitLeavesLess(g, {bad}, seen, was, visited, queue);
    }
    SearchEnds(g, {bad}, visited);
    CollectionEnds(objects, good, bad, visits, visited, result);
    FoundAreCandidates(objects, good, bad, visited, Reversed(result));
    return Ok(Reversed(result));
  }

  lemma CollectionEnds(objects: Objects, good: Id, bad: Id, visits: nat, seen: set<Id>, result: seq<Id>)
    requires Collected(objects, good, bad, seen, [], result) && Walked(objects, good, bad, visits, seen, [], result)
    requires forall id :: id in seen <==> OnTheWay(objects, good, bad, id)
    ensures Distinct(Reversed(result)) && forall id :: id in Reversed(result) <==> IsCandidate(objects, good, bad, id)
    ensures forall line :: IsLine(objects, line, good, bad) ==> Reversed(result) == line[1..|line| - 1]
  {
    hide OnTheWay;
    forall id
      ensures id in Reversed(result) <==> id in result
    {
      ReversedMembers(result, id);
    }
    forall line | IsLine(objects, line, good, bad)
      ensures Reversed(result) == line[1..|line| - 1]
    {
      hide WalkedTo;
      LineEnds(line, visits, seen, result);
    }
    hide Collected, IsLine, Walked, IsCommit;
  }

  lemma ReversedMembers(ids: seq<Id>, id: Id)
    ensures id in Reversed(ids) <==> id in ids
  {
    if id in ids {
      var i :| 0 <= i < |ids| && ids[i] == id;
      assert Reversed(ids)[|ids| - 1 - i] == id;
    }
  }

  lemma DamagedIsNoCommit(objects: Objects, id: Id)
    requires id in objects && objects[id].Damaged?
    ensures !IsCommit(objects, id)
  {
  }

  lemma CollectionStarts(objects: Objects, good: Id, bad: Id)
    ensures NoRepeats([bad]) && Collected(objects, good, bad, {bad}, [bad], [])
  {
    assert Members([bad]) == {bad};
  }

  // ---------------------------------------------------------------- the session

  datatype Step = Test(id: Id) | Found(id: Id) | NoCandidates

  datatype Session = Session(good: seq<Id>, bad: seq<Id>, candidates: seq<Id>, current: nat)

  /** Where an id first occurs, or the length if it does not. */
  function Position(ids: seq<Id>, id: Id): (pos: nat)
    ensures pos <= |ids| && (pos < |ids| <==> id in ids)
    ensures pos < |ids| ==> ids[pos] == id && id !in ids[..pos]
  {
    if ids == [] then 0
    else if ids[0] == id then 0
    else
      assert forall k: nat :: k < |ids| - 1 ==> ids[..k + 1] == [ids[0]] + ids[1..][..k];
      1 + Position(ids[1..], id)
  }

  function Start(good: Id, bad: Id, candidates: seq<Id>): Session {
    Session([good], [bad], candidates, |candidates| / 2)
  }

  /** A session on `line`, from its two ends. */
  function StartOn(line: seq<Id>): Session
    requires |line| >= 2
  {
    Start(line[0], line[|line| - 1], line[1..|line| - 1])
  }

  /** The session after a verdict, before the next commit is picked. */
  function Narrowed(s: Session, id: Id, isBad: bool): Session {
    var pos := Position(s.candidates, id);
    if isBad then s.(bad := s.bad + [id], candidates := s.candidates[..pos])
    else s.(good := s.good + [id], candidates := if pos < |s.candidates| then s.candidates[pos + 1..] else s.candidates)
  }

  function Picked(s: Session): (Session, Step) {
    if s.candidates == [] then (s, if s.bad == [] then NoCandidates else Found(s.bad[|s.bad| - 1]))
    else if |s.candidates| == 1 then (s, Found(s.candidates[0]))
    else (s.(current := |s.candidates| / 2), Test(s.candidates[|s.candidates| / 2]))
  }

  function Marked(s: Session, id: Id, isBad: bool): (Session, Step) {
    Picked(Narrowed(s, id, isBad))
  }

  /** `remaining_steps`: the length is capped at the largest 32-bit number. */
  function RemainingSteps(candidates: nat): nat {
    if candidates <= 1 then 0 else CeilLog2(if candidates > 0xFFFF_FFFF then 0xFFFF_FFFF else candidates)
  }

  class BisectState {
    var good: seq<Id>
    var bad: seq<Id>
    var candidates: seq<Id>
    var currentIdx: nat

    function View(): Session
      reads this
    {
      Session(good, bad, candidates, currentIdx)
    }

    constructor (good: Id, bad: Id, candidates: seq<Id>)
      ensures View() == Start(good, bad, candidates)
    {
      this.good, this.bad, this.candidates := [good], [bad], candidates;
      currentIdx := |candidates| / 2;
    }

    method MarkGood(id: Id) returns (step: Step)
      modifies this
      ensures (View(), step) == Marked(old(View()), id, false)
    {
      good := good + [id];
      var pos := Position(candidates, id);
      if pos < |candidates| {
        candidates := candidates[pos + 1..];
      }
      step := PickNext();
    }

    method MarkBad(id: Id) returns (step: Step)
      modifies this
      ensures (View(), step) == Marked(old(View()), id, true)
    {
      bad := bad + [id];
      var pos := Position(candidates, id);
      if pos < |candidates| {
        candidates := candidates[..pos];
      } else {
        assert candidates[..pos] == candidates;
      }
      step := PickNext();
    }

    method PickNext() returns (step: Step)
      modifies this
      ensures (View(), step) == Picked(old(View()))
    {
      if candidates == [] {
        return if bad == [] then NoCandidates else Found(bad[|bad| - 1]);
      }
      if |candidates| == 1 {
        return Found(candidates[0]);
      }
      currentIdx := |candidates| / 2;
      return Test(candidates[currentIdx]);
    }
  }

  /** `start`: an unreadable commit on the way is an error. */
  method StartBisect(good: Id, bad: Id, objects: Objects) returns (r: Result<BisectState, Error>)
    ensures r.Ok? ==> fresh(r.value) && r.value.View() == Start(good, bad, r.value.candidates)
    ensures r.Ok? ==> Distinct(r.value.candidates)
    ensures r.Ok? ==> forall id :: id in r.value.candidates <==> IsCandidate(objects, good, bad, id)
    ensures r.Ok? ==> AreCandidates(objects, good, bad, r.value.candidates)
    ensures r.Err? ==> var id := r.error.id;
      id != good && OnTheWay(objects, good, bad, id) && id in objects && objects[id].Damaged?
    ensures forall line :: IsLine(objects, line, good, bad) ==> r.Ok? && r.value.candidates == line[1..|line| - 1]
  {
    var collected := CollectCommitsBetween(good, bad, objects);
    if collected.Err? {
      return Err(collected.error);
    }
    var state := new BisectState(good, bad, collected.value);
    return Ok(state);
  }

  // ---------------------------------------------------------------- truthful sessions

  type Verdict = Id -> bool

  /** The regression, once there, stays: `line[first]` is the first bad commit. */
  ghost predicate FirstBad(line: seq<Id>, verdict: Verdict, first: nat) {
    && 0 < first < |line|
    && (forall i :: 0 <= i < first ==> !verdict(line[i]))
    && (forall i :: first <= i < |line| ==> verdict(line[i]))
  }

  /** The candidates are what lies between a good commit and the bad one marked last. */
  ghost predicate Between(line: seq<Id>, s: Session, lo: nat, hi: nat) {
    && lo < hi < |line|
    && s.candidates == line[lo + 1..hi]
    && s.bad != [] && s.bad[|s.bad| - 1] == line[hi]
  }

  ghost predicate Sound(line: seq<Id>, verdict: Verdict, s: Session) {
    exists lo: nat, hi: nat :: Between(line, s, lo, hi) && lo < hi < |line| && !verdict(line[lo]) && verdict(line[hi])
  }

  lemma StartIsSound(line: seq<Id>, verdict: Verdict, first: nat)
    requires |line| >= 2 && FirstBad(line, verdict, first)
    ensures Sound(line, verdict, StartOn(line))
  {
    assert Between(line, StartOn(line), 0, |line| - 1);
  }

  lemma PositionOf(ids: seq<Id>, at: nat)
    requires Distinct(ids) && at < |ids|
    ensures Position(ids, ids[at]) == at
  {
  }

  lemma DistinctPart(ids: seq<Id>, i: nat, j: nat)
    requires Distinct(ids) && i <= j <= |ids|
    ensures Distinct(ids[i..j])
  {
  }

  lemma SplitAt(line: seq<Id>, lo: nat, hi: nat, at: nat)
    requires lo < hi < |line| && at < hi - lo - 1
    ensures line[lo + 1..hi][at] == line[lo + 1 + at]
    ensures line[lo + 1..hi][..at] == line[lo + 1..lo + 1 + at]
    ensures line[lo + 1..hi][at + 1..] == line[lo + 1 + at + 1..hi]
  {
  }

  /** Marking the candidate at a position cuts the list there. */
  lemma NarrowedAt(s: Session, at: nat, isBad: bool)
    requires Distinct(s.candidates) && at < |s.candidates|
    ensures Narrowed(s, s.candidates[at], isBad) ==
      if isBad then s.(bad := s.bad + [s.candidates[at]], candidates := s.candidates[..at])
      else s.(good := s.good + [s.candidates[at]], candidates := s.candidates[at + 1..])
  {
    hide Distinct, Position;
    PositionOf(s.candidates, at);
  }

  lemma NarrowedBetween(line: seq<Id>, s: Session, lo: nat, hi: nat, at: nat, isBad: bool)
    requires Distinct(line) && Between(line, s, lo, hi) && at < |s.candidates|
    ensures line[lo + 1 + at] == s.candidates[at]
    ensures var s' := Narrowed(s, s.candidates[at], isBad);
      if isBad then Between(line, s', lo, lo + 1 + at) else Between(line, s', lo + 1 + at, hi)
  {
    DistinctPart(line, lo + 1, hi);
    SplitAt(line, lo, hi, at);
    hide Distinct, Narrowed;
    NarrowedAt(s, at, isBad);
    var s', last := Narrowed(s, s.candidates[at], isBad), s.bad + [s.candidates[at]];
    assert last[|last| - 1] == s.candidates[at];
    if isBad {
      assert s'.bad == last && s'.candidates == line[lo + 1..lo + 1 + at];
    } else {
      assert s'.bad == s.bad && s'.candidates == line[lo + 1 + at + 1..hi];
    }
  }

  /** Marking any candidate truthfully keeps the session sound. */
  lemma MarkKeepsSound(line: seq<Id>, verdict: Verdict, s: Session, id: Id)
    requires Distinct(line) && Sound(line, verdict, s) && id in s.candidates
    ensures Sound(line, verdict, Narrowed(s, id, verdict(id))) && Sound(line, verdict, Marked(s, id, verdict(id)).0)
  {
    hide Distinct, Between, Narrowed;
    var lo: nat, hi: nat :| Between(line, s, lo, hi) && lo < hi < |line| && !verdict(line[lo]) && verdict(line[hi]);
    var at :| 0 <= at < |s.candidates| && s.candidates[at] == id;
    NarrowedBetween(line, s, lo, hi, at, verdict(id));
    var k := lo + 1 + at;
    PickedBetween(line, Narrowed(s, id, verdict(id)), if verdict(id) then lo else k, if verdict(id) then k else hi);
  }

  lemma PickedBetween(line: seq<Id>, s: Session, lo: nat, hi: nat)
    requires Between(line, s, lo, hi)
    ensures Between(line, Picked(s).0, lo, hi) && lo < hi < |line|
  {
  }

  /** The first bad commit is always still in play. */
  lemma FirstBadInPlay(line: seq<Id>, verdict: Verdict, first: nat, s: Session)
    requires FirstBad(line, verdict, first) && Sound(line, verdict, s)
    ensures line[first] in s.candidates || line[first] == s.bad[|s.bad| - 1]
  {
    var lo: nat, hi: nat :| Between(line, s, lo, hi) && lo < hi < |line| && !verdict(line[lo]) && verdict(line[hi]);
    assert lo < first <= hi;
    if first < hi {
      assert line[lo + 1..hi][first - lo - 1] == line[first];
    }
  }

  /** What is reported is the first bad commit if it is bad, and otherwise the one before it. */
  lemma FoundMeaning(line: seq<Id>, verdict: Verdict, first: nat, s: Session)
    requires FirstBad(line, verdict, first) && Sound(line, verdict, s) && Picked(s).1.Found?
    ensures Picked(s).1.id == if verdict(Picked(s).1.id) then line[first] else line[first - 1]
  {
    var lo: nat, hi: nat :| Between(line, s, lo, hi) && lo < hi < |line| && !verdict(line[lo]) && verdict(line[hi]);
    assert lo < first <= hi;
    if |s.candidates| == 1 {
      assert s.candidates[0] == line[lo + 1] && hi == lo + 2;
    } else {
      assert hi == lo + 1;
    }
  }

  // ---------------------------------------------------------------- how many tests

  function FloorLog2(n: nat): (k: nat)
    requires n > 0
    ensures Pow2(k) <= n < 2 * Pow2(k)
  {
    if n == 1 then 0 else 1 + FloorLog2(n / 2)
  }

  lemma {:induction false} FloorLog2Grows(m: nat, n: nat)
    requires 0 < m <= n
    ensures FloorLog2(m) <= FloorLog2(n)
    decreases n
  {
    if m > 1 {
      FloorLog2Grows(m / 2, n / 2);
    }
  }

  lemma NarrowedShrinks(s: Session, id: Id, isBad: bool)
    requires id in s.candidates
    ensures s.bad != [] ==> Narrowed(s, id, isBad).bad != []
    ensures |Narrowed(s, id, isBad).candidates| < |s.candidates|
  {
  }

  /** A truthful session: the current commit is marked until one is reported. The result is the
      reported commit and the number of tests. */
  ghost function Outcome(s: Session, verdict: Verdict): (r: (Id, nat))
    requires s.bad != [] && s.candidates != [] && s.current == |s.candidates| / 2
    decreases |s.candidates|
  {
    var id := s.candidates[s.current];
    NarrowedShrinks(s, id, verdict(id));
    var (s', step) := Marked(s, id, verdict(id));
    if step.Test? then
      var (c, tests) := Outcome(s', verdict);
      (c, tests + 1)
    else (step.id, 1)
  }

  /** The midpoint leaves at most half. */
  lemma NarrowedHalves(s: Session, isBad: bool)
    requires Distinct(s.candidates) && s.candidates != [] && s.current == |s.candidates| / 2
    ensures var rest := Narrowed(s, s.candidates[s.current], isBad).candidates;
      && Distinct(rest)
      && |rest| == if isBad then |s.candidates| / 2 else |s.candidates| - |s.candidates| / 2 - 1
  {
    PositionOf(s.candidates, s.current);
    hide Position;
    if isBad {
      DistinctPart(s.candidates, 0, s.current);
    } else {
      DistinctPart(s.candidates, s.current + 1, |s.candidates|);
    }
  }

  /** From two candidates on, the logarithm of their number bounds the tests. */
  lemma {:induction false} TestsAreLogarithmic(s: Session, verdict: Verdict)
    requires s.bad != [] && Distinct(s.candidates) && s.candidates != [] && s.current == |s.candidates| / 2
    ensures Outcome(s, verdict).1 <= if |s.candidates| == 1 then 1 else FloorLog2(|s.candidates|)
    decreases |s.candidates|
  {
    hide Distinct, Narrowed;
    var id := s.candidates[s.current];
    var s' := Narrowed(s, id, verdict(id));
    NarrowedHalves(s, verdict(id));
    NarrowedShrinks(s, id, verdict(id));
    if |s'.candidates| > 1 {
      TestsAreLogarithmic(Picked(s').0, verdict);
      FloorLog2Grows(|s'.candidates|, |s.candidates| / 2);
    }
  }

  /** If every answer is "bad" the bound is reached. */
  lemma {:induction false} LogarithmIsReached(s: Session)
    requires s.bad != [] && Distinct(s.candidates) && |s.candidates| >= 2 && s.current == |s.candidates| / 2
    ensures Outcome(s, _ => true).1 == FloorLog2(|s.candidates|)
    decreases |s.candidates|
  {
    hide Distinct, Narrowed;
    var s' := Narrowed(s, s.candidates[s.current], true);
    NarrowedHalves(s, true);
    NarrowedShrinks(s, s.candidates[s.current], true);
    if |s'.candidates| > 1 {
      LogarithmIsReached(Picked(s').0);
    }
  }

  /** `remaining_steps` covers the tests of every session below 2 to the 33 candidates, and of
      none from there on. */
  lemma RemainingStepsSuffice(candidates: nat)
    requires candidates >= 2
    ensures FloorLog2(candidates) <= RemainingSteps(candidates) <==> candidates < 0x2_0000_0000
  {
    Pow2Of32();
    var floor, steps := FloorLog2(candidates), RemainingSteps(candidates);
    if floor > steps { Pow2Grows(steps + 1, floor); } else { Pow2Grows(floor, steps); }
    if candidates > 0xFFFF_FFFF {
      if steps < 32 { Pow2Grows(steps, 31); } else if steps > 32 { Pow2Grows(32, steps - 1); }
    }
  }

  /** It is the logarithm to base two, rounded up; the number of candidates is capped at 2 to the 32
      less one. */
  lemma RemainingStepsIsLog2(n: nat)
    ensures n <= 1 ==> RemainingSteps(n) == 0
    ensures 2 <= n < 0x1_0000_0000 ==>
      RemainingSteps(n) > 0 && Pow2(RemainingSteps(n) - 1) < n <= Pow2(RemainingSteps(n))
    ensures n >= 0x1_0000_0000 ==> RemainingSteps(n) == 32
  {
    Pow2Of32();
    if n >= 0x1_0000_0000 {
      CeilLog2IsOnly(0xFFFF_FFFF, 32);
    }
  }

  /** What a truthful session reports: the first bad commit, or its direct predecessor, and the
      verdict on the reported commit tells which. */
  lemma {:induction false} SoundOutcome(line: seq<Id>, verdict: Verdict, first: nat, s: Session)
    requires Distinct(line) && FirstBad(line, verdict, first) && Sound(line, verdict, s)
    requires s.bad != [] && s.candidates != [] && s.current == |s.candidates| / 2
    ensures Outcome(s, verdict).0 == if verdict(Outcome(s, verdict).0) then line[first] else line[first - 1]
    decreases |s.candidates|
  {
    hide Distinct, Sound, Narrowed, FirstBad;
    var id := s.candidates[s.current];
    var s' := Narrowed(s, id, verdict(id));
    MarkKeepsSound(line, verdict, s, id);
    NarrowedShrinks(s, id, verdict(id));
    if |s'.candidates| > 1 {
      SoundOutcome(line, verdict, first, Picked(s').0);
    } else {
      SoundHasBad(line, verdict, s');
      FoundMeaning(line, verdict, first, s');
    }
  }

  lemma SoundHasBad(line: seq<Id>, verdict: Verdict, s: Session)
    requires Sound(line, verdict, s)
    ensures s.bad != []
  {
  }

  /** Bisecting a linear history in which the regression stays once it is there. */
  lemma BisectFinds(line: seq<Id>, verdict: Verdict, first: nat)
    requires Distinct(line) && |line| > 2 && FirstBad(line, verdict, first)
    ensures var s := StartOn(line);
      && Outcome(s, verdict).0 == (if verdict(Outcome(s, verdict).0) then line[first] else line[first - 1])
      && Outcome(s, verdict).1 <= if |line| == 3 then 1 else FloorLog2(|line| - 2)
  {
    DistinctPart(line, 1, |line| - 1);
    StartIsSound(line, verdict, first);
    SoundOutcome(line, verdict, first, StartOn(line));
    TestsAreLogarithmic(StartOn(line), verdict);
  }

  // ---------------------------------------------------------------- when the answer is exact

  /** Told from two numbers before the session: with `n` candidates left of which at least one has
      been ruled out, and the first bad commit the `first`-th of them, or the bad one after them
      if `first` is `n + 1`, is the first bad commit what is going to be reported? */
  predicate WillBeExact(n: nat, first: nat)
    decreases n
  {
    if n <= 1 then n == 0 || first == 1 else Halved(n, first)
  }

  predicate Halved(n: nat, first: nat)
    requires n > 0
    decreases n, 0
  {
    var half := n / 2;
    if first <= half + 1 then WillBeExact(half, first) else WillBeExact(n - half - 1, first - half - 1)
  }

  lemma FoundAtRest(line: seq<Id>, verdict: Verdict, first: nat, s: Session, lo: nat, hi: nat)
    requires Distinct(line) && FirstBad(line, verdict, first) && Between(line, s, lo, hi) && lo < first <= hi
    requires |s.candidates| <= 1
    ensures Picked(s).1.Found? && (Picked(s).1.id == line[first] <==> WillBeExact(|s.candidates|, first - lo))
  {
    if |s.candidates| == 1 {
      assert line[lo + 1..hi][0] == line[lo + 1] && hi == lo + 2;
    }
  }

  /** The recursion on numbers decides what the session reports. */
  lemma {:induction false} ExactByNumbers(line: seq<Id>, verdict: Verdict, first: nat, s: Session, lo: nat, hi: nat)
    requires Distinct(line) && FirstBad(line, verdict, first) && Between(line, s, lo, hi) && lo < first <= hi
    requires s.bad != [] && s.candidates != [] && s.current == |s.candidates| / 2
    ensures Outcome(s, verdict).0 == line[first] <==> Halved(|s.candidates|, first - lo)
    decreases |s.candidates|
  {
    hide *;
    var id := s.candidates[s.current];
    var s' := Narrowed(s, id, verdict(id));
    var lo', hi' := HalfStep(line, verdict, first, s, lo, hi);
    HalvesMeans(line, first, s, lo, hi, s', lo', hi');
    OutcomeStep(s, verdict);
    if |s'.candidates| > 1 {
      PickedBetween(line, s', lo', hi');
      PickedMeans(s');
      ExactByNumbers(line, verdict, first, Picked(s').0, lo', hi');
      HalvedMeans(|s'.candidates|, first - lo');
    } else {
      FoundAtRest(line, verdict, first, s', lo', hi');
    }
  }

  /** How the marks after a test of the midpoint stand to those before, on the numbers alone. */
  ghost predicate Halves(line: seq<Id>, first: nat, s: Session, lo: nat, hi: nat, s': Session, lo': nat, hi': nat) {
    && Between(line, s', lo', hi') && lo' < first <= hi' && |s'.candidates| < |s.candidates| && s'.bad != []
    && |s.candidates| > 0 && lo < first
    && Halved(|s.candidates|, first - lo) == WillBeExact(|s'.candidates|, first - lo')
  }

  /** One test of the midpoint, on the candidates and on the numbers. */
  lemma HalfStep(line: seq<Id>, verdict: Verdict, first: nat, s: Session, lo: nat, hi: nat)
    returns (lo': nat, hi': nat)
    requires Distinct(line) && FirstBad(line, verdict, first) && Between(line, s, lo, hi) && lo < first <= hi
    requires s.candidates != [] && s.current == |s.candidates| / 2
    ensures var id := s.candidates[s.current];
      Halves(line, first, s, lo, hi, Narrowed(s, id, verdict(id)), lo', hi')
  {
    hide *;
    var at, id := s.current, s.candidates[s.current];
    var isBad := verdict(id);
    CandidatesBetween(line, s, lo, hi);
    NarrowedBetween(line, s, lo, hi, at, isBad);
    VerdictAt(line, verdict, first, lo + 1 + at);
    CutHalves(line, first, s, lo, hi, at, Narrowed(s, id, isBad), isBad);
    lo', hi' := if isBad then lo else lo + 1 + at, if isBad then lo + 1 + at else hi;
  }

  lemma CutHalves(line: seq<Id>, first: nat, s: Session, lo: nat, hi: nat, at: nat, s': Session, isBad: bool)
    requires Between(line, s, lo, hi) && lo < first <= hi && at < |s.candidates| && at == |s.candidates| / 2
    requires isBad <==> first <= lo + 1 + at
    requires if isBad then Between(line, s', lo, lo + 1 + at) else Between(line, s', lo + 1 + at, hi)
    ensures if isBad then Halves(line, first, s, lo, hi, s', lo, lo + 1 + at)
            else Halves(line, first, s, lo, hi, s', lo + 1 + at, hi)
  {
    CandidatesBetween(line, s, lo, hi);
    HalvedBetween(lo, hi, at, first);
    assert s'.bad != [];
    var k := lo + 1 + at;
    if isBad { CandidatesBetween(line, s', lo, k); } else { CandidatesBetween(line, s', k, hi); }
    hide Between, Halved, WillBeExact;
  }

  lemma HalvesMeans(line: seq<Id>, first: nat, s: Session, lo: nat, hi: nat, s': Session, lo': nat, hi': nat)
    requires Halves(line, first, s, lo, hi, s', lo', hi')
    ensures Between(line, s', lo', hi') && lo' < first <= hi' && |s'.candidates| < |s.candidates| && s'.bad != []
    ensures |s.candidates| > 0 && lo < first
    ensures Halved(|s.candidates|, first - lo) == WillBeExact(|s'.candidates|, first - lo')
  {
  }

  lemma VerdictAt(line: seq<Id>, verdict: Verdict, first: nat, k: nat)
    requires FirstBad(line, verdict, first) && k < |line|
    ensures verdict(line[k]) <==> first <= k
  {
  }

  lemma HalvedBetween(lo: nat, hi: nat, at: nat, first: nat)
    requires lo < first <= hi && at < hi - lo - 1 && at == (hi - lo - 1) / 2
    ensures Halved(hi - lo - 1, first - lo) ==
      if first <= lo + 1 + at then WillBeExact(at, first - lo)
      else WillBeExact(hi - (lo + 1 + at) - 1, first - (lo + 1 + at))
  {
    hide WillBeExact;
  }

  lemma OutcomeStep(s: Session, verdict: Verdict)
    requires s.bad != [] && s.candidates != [] && s.current == |s.candidates| / 2
    ensures var id := s.candidates[s.current];
      var (s', step) := Picked(Narrowed(s, id, verdict(id)));
      Outcome(s, verdict).0 ==
        if |Narrowed(s, id, verdict(id)).candidates| > 1 then Outcome(s', verdict).0 else step.id
  {
    NarrowedShrinks(s, s.candidates[s.current], verdict(s.candidates[s.current]));
    hide Narrowed;
  }

  lemma PickedMeans(s: Session)
    requires |s.candidates| > 1
    ensures Picked(s).0 == s.(current := |s.candidates| / 2)
  {
  }

  lemma HalvedMeans(n: nat, first: nat)
    requires n > 1
    ensures WillBeExact(n, first) == Halved(n, first)
  {
  }

  lemma CandidatesBetween(line: seq<Id>, s: Session, lo: nat, hi: nat)
    requires Between(line, s, lo, hi)
    ensures |s.candidates| == hi - lo - 1 && s.bad != [] && lo < hi < |line|
  {
  }

  /** For some position of the regression the answer is wrong, unless there is at most one candidate. */
  lemma {:induction false} SomePositionFails(n: nat) returns (first: nat)
    requires n >= 1
    ensures 1 <= first <= n + 1 && !WillBeExact(n, first)
    decreases n
  {
    if n == 1 {
      first := 2;
    } else {
      first := SomePositionFails(n / 2);
    }
  }

  lemma StartIsBetween(line: seq<Id>)
    requires |line| > 2
    ensures var s := StartOn(line);
      && Between(line, s, 0, |line| - 1) && |s.candidates| == |line| - 2
      && s.bad != [] && s.candidates != [] && s.current == |s.candidates| / 2
  {
  }

  lemma FirstBadInRange(line: seq<Id>, verdict: Verdict, first: nat)
    requires FirstBad(line, verdict, first)
    ensures 0 < first < |line|
  {
  }

  /** The session reports the first bad commit if and only if the recursion on the number of
      candidates and the position of the regression says so. */
  lemma BisectIsExact(line: seq<Id>, verdict: Verdict, first: nat)
    requires Distinct(line) && |line| > 2 && FirstBad(line, verdict, first)
    ensures Outcome(StartOn(line), verdict).0 == line[first] <==> Halved(|line| - 2, first)
  {
    hide *;
    StartIsBetween(line);
    FirstBadInRange(line, verdict, first);
    ExactByNumbers(line, verdict, first, StartOn(line), 0, |line| - 1);
  }

  ghost predicate AlwaysExact(n: nat)
    requires n > 0
  {
    forall first :: 1 <= first <= n + 1 ==> Halved(n, first)
  }

  /** Whatever the regression: the answer is the first bad commit for every position exactly when
      there is a single candidate. */
  lemma ExactOnlyForOne(n: nat)
    requires n > 0
    ensures AlwaysExact(n) <==> n == 1
  {
    if n > 1 {
      var first := SomePositionFails(n / 2);
      assert !Halved(n, first);
    }
  }
}
