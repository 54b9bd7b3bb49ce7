/** Breadth-first search over objects that name other objects, as the mark phase of garbage
    collection and the commit walk of bisect share it. */
module Reachability {
  import opened Slices

  type Id = nat

  /** Where each id leads; ids outside the map lead nowhere. */
  type Graph = map<Id, seq<Id>>

  function Next(g: Graph, id: Id): seq<Id> {
    if id in g then g[id] else []
  }

  ghost predicate IsPath(g: Graph, path: seq<Id>) {
    path != [] && forall i :: 0 <= i < |path| - 1 ==> path[i + 1] in Next(g, path[i])
  }

  ghost predicate PathTo(g: Graph, roots: set<Id>, path: seq<Id>, id: Id) {
    IsPath(g, path) && path[0] in roots && path[|path| - 1] == id
  }

  /** Some chain of links leads from a root to the id. */
  ghost predicate Reachable(g: Graph, roots: set<Id>, id: Id) {
    exists path :: PathTo(g, roots, path, id)
  }

  ghost predicate Closed(g: Graph, roots: set<Id>, ids: set<Id>) {
    roots <= ids && forall id, next :: id in ids && next in Next(g, id) ==> next in ids
  }

  lemma RootIsReachable(g: Graph, roots: set<Id>, id: Id)
    requires id in roots
    ensures Reachable(g, roots, id)
  {
    assert PathTo(g, roots, [id], id);
  }

  lemma LinkIsReachable(g: Graph, roots: set<Id>, id: Id, next: Id)
    requires Reachable(g, roots, id) && next in Next(g, id)
    ensures Reachable(g, roots, next)
  {
    var path :| PathTo(g, roots, path, id);
    hide Next;
    var longer := path + [next];
    assert forall i :: 0 <= i < |longer| - 1 ==> longer[i] == path[i];
    assert PathTo(g, roots, longer, next);
  }

  lemma {:induction false} ClosedHoldsPath(g: Graph, roots: set<Id>, ids: set<Id>, path: seq<Id>)
    requires Closed(g, roots, ids) && IsPath(g, path) && path[0] in roots
    ensures path[|path| - 1] in ids
    decreases |path|
  {
    if |path| > 1 {
      ClosedHoldsPath(g, roots, ids, path[..|path| - 1]);
      assert path[|path| - 2 + 1] in Next(g, path[|path| - 2]);
    }
  }

  /** Reachable ids lie in every closed set. */
  lemma ReachableIsLeast(g: Graph, roots: set<Id>, ids: set<Id>, id: Id)
    requires Closed(g, roots, ids) && Reachable(g, roots, id)
    ensures id in ids
  {
    var path :| PathTo(g, roots, path, id);
    ClosedHoldsPath(g, roots, ids, path);
  }

  // ---------------------------------------------------------------- the search

  /** Every id a search can meet. */
  ghost function Universe(g: Graph, roots: set<Id>): (u: set<Id>)
    ensures roots <= u
    ensures forall id, next :: next in Next(g, id) ==> next in u
  {
    roots + set id, next | id in g && next in Next(g, id) :: next
  }

  ghost predicate Expanded(g: Graph, seen: set<Id>, id: Id) {
    forall next :: next in Next(g, id) ==> next in seen
  }

  ghost predicate SearchInv(g: Graph, roots: set<Id>, seen: set<Id>, queue: seq<Id>) {
    && roots <= seen <= Universe(g, roots)
    && (forall id <- seen :: Reachable(g, roots, id))
    && (forall id <- queue :: id in seen)
    && (forall id <- seen :: id in queue || Expanded(g, seen, id))
  }

  /** The ids in `ids` that are new and not to be skipped have been remembered and queued. */
  ghost predicate Enqueued(ids: seq<Id>, skip: set<Id>, seen: set<Id>, waiting: seq<Id>, seen': set<Id>,
                           queue: seq<Id>) {
    && seen' == seen + (Members(ids) - skip)
    && |queue| + |seen| == |waiting| + |seen'|
    && (forall id :: id in queue <==> id in waiting || (id in ids && id !in skip && id !in seen))
  }

  lemma OneEnqueued(ids: seq<Id>, id: Id, skip: set<Id>, seen: set<Id>, waiting: seq<Id>, seen': set<Id>,
                    queue: seq<Id>)
    requires Enqueued(ids, skip, seen, waiting, seen', queue)
    ensures if id in skip || id in seen' then Enqueued(ids + [id], skip, seen, waiting, seen', queue)
      else Enqueued(ids + [id], skip, seen, waiting, seen' + {id}, queue + [id])
  {
    assert Members(ids + [id]) == Members(ids) + {id};
  }

  /** Remembers and queues, in order, the ids that are new and not to be skipped. */
  method Enqueue(ids: seq<Id>, skip: set<Id>, seen: set<Id>, waiting: seq<Id>) returns (seen': set<Id>, queue: seq<Id>)
    ensures Enqueued(ids, skip, seen, waiting, seen', queue)
  {
    seen', queue := seen, waiting;
    for i := 0 to |ids|
      invariant Enqueued(ids[..i], skip, seen, waiting, seen', queue)
    {
      hide Enqueued;
      OneEnqueued(ids[..i], ids[i], skip, seen, waiting, seen', queue);
      assert ids[..i + 1] == ids[..i] + [ids[i]];
      if ids[i] !in skip && ids[i] !in seen' {
        seen', queue := seen' + {ids[i]}, queue + [ids[i]];
      }
    }
    assert ids[..|ids|] == ids;
  }

  lemma SearchStarts(g: Graph, ids: seq<Id>, skip: set<Id>, seen: set<Id>, queue: seq<Id>)
    requires Enqueued(ids, skip, {}, [], seen, queue)
    ensures seen == Members(ids) - skip && SearchInv(g, seen, seen, queue)
    ensures forall id <- seen :: id in queue
  {
    var roots := seen;
    forall id | id in roots
      ensures Reachable(g, roots, id)
    {
      RootIsReachable(g, roots, id);
    }
    hide Next, Reachable;
  }

  lemma SearchedIsReachable(g: Graph, roots: set<Id>, seen: set<Id>, queue: seq<Id>)
    requires SearchInv(g, roots, seen, queue)
    ensures seen <= Universe(g, roots)
    ensures forall id <- queue :: id in seen && Reachable(g, roots, id)
    ensures forall id <- seen :: Reachable(g, roots, id)
  {
  }

  lemma EnqueuedIsSeen(g: Graph, roots: set<Id>, seen: set<Id>, queue: seq<Id>, seen': set<Id>, queue': seq<Id>)
    requires SearchInv(g, roots, seen, queue) && queue != []
    requires Enqueued(Next(g, queue[0]), {}, seen, queue[1..], seen', queue')
    ensures seen <= seen' <= Universe(g, roots)
    ensures forall id <- seen' :: Reachable(g, roots, id)
    ensures forall id <- queue' :: id in seen'
  {
    forall id | id in Next(g, queue[0])
      ensures Reachable(g, roots, id) && id in Universe(g, roots)
    {
      LinkIsReachable(g, roots, queue[0], id);
    }
    hide Next, Reachable, Universe;
  }

  /** The queue after visiting its head: the new links join the rest. */
  lemma VisitKeepsSearchInv(g: Graph, roots: set<Id>, seen: set<Id>, queue: seq<Id>, seen': set<Id>, queue': seq<Id>)
    requires SearchInv(g, roots, seen, queue) && queue != []
    requires Enqueued(Next(g, queue[0]), {}, seen, queue[1..], seen', queue')
    ensures SearchInv(g, roots, seen', queue')
  {
    EnqueuedIsSeen(g, roots, seen, queue, seen', queue');
    SeenOrQueued(Next(g, queue[0]), seen, queue, seen', queue');
    forall id | id in seen' && id !in queue'
      ensures Expanded(g, seen', id)
    {
      if id != queue[0] {
        assert Expanded(g, seen, id);
      }
    }
    hide Next, Reachable, Universe, Enqueued, Expanded;
  }

  /** Nothing is queued twice, so a visit leaves less to do. */
  lemma VisitLeavesLess(g: Graph, roots: set<Id>, seen: set<Id>, queue: seq<Id>, seen': set<Id>, queue': seq<Id>)
    requires SearchInv(g, roots, seen, queue) && queue != []
    requires Enqueued(Next(g, queue[0]), {}, seen, queue[1..], seen', queue')
    ensures |Universe(g, roots) - seen'| + |queue'| < |Universe(g, roots) - seen| + |queue|
  {
    hide SearchInv, Universe, Next;
    EnqueuedIsSeen(g, roots, seen, queue, seen', queue');
    VisitShrinks(Universe(g, roots), seen, seen', |queue|, |queue'|);
  }

  lemma SeenOrQueued(ids: seq<Id>, seen: set<Id>, queue: seq<Id>, seen': set<Id>, queue': seq<Id>)
    requires queue != [] && Enqueued(ids, {}, seen, queue[1..], seen', queue')
    ensures forall id <- seen' :: id in queue' || id == queue[0] || (id in seen && id !in queue)
    ensures forall id <- ids :: id in seen'
  {
    assert queue == [queue[0]] + queue[1..];
  }

  /** Each id enters the queue at most once. */
  lemma VisitShrinks(universe: set<Id>, seen: set<Id>, seen': set<Id>, waiting: nat, waiting': nat)
    requires seen <= seen' <= universe && waiting' + |seen| == waiting - 1 + |seen'|
    ensures |universe - seen'| + waiting' < |universe - seen| + waiting
  {
    assert (universe - seen') + (seen' - seen) == universe - seen;
    assert seen + (seen' - seen) == seen';
  }

  lemma SearchEnds(g: Graph, roots: set<Id>, seen: set<Id>)
    requires SearchInv(g, roots, seen, [])
    ensures forall id :: id in seen <==> Reachable(g, roots, id)
  {
    hide Next, Universe;
    forall id | Reachable(g, roots, id)
      ensures id in seen
    {
      hide Reachable;
      ReachableIsLeast(g, roots, seen, id);
    }
  }
}
