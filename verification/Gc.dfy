/** Garbage collection: mark everything that can be reached from a reference, sweep the rest. */
module Gc {

  import opened Wrappers
  import opened Slices
  import opened Reachability

  const ZERO: Id := 0

  datatype Object =
    | Commit(tree: Id, parents: seq<Id>)
    | Tree(entries: seq<Id>)
    | Tag(target: Id)
    | Blob

  /** What is stored under an id; damaged data cannot be decoded. */
  datatype Stored = Readable(content: Object) | Damaged

  type Objects = map<Id, Stored>

  /** An object that cannot be read. */
  datatype Error = Corrupt(id: Id)

  // ---------------------------------------------------------------- references

  datatype StashEntry = StashEntry(commit: Id, index: Id, base: Id)
  datatype LogEntry = LogEntry(newValue: Id, oldValue: Option<Id>)

  datatype Refs = Refs(
    head: Option<Id>,
    branches: seq<Id>,
    tags: seq<Id>,
    stash: seq<StashEntry>,
    reflogs: seq<seq<LogEntry>>)

  ghost predicate Stashed(entries: seq<StashEntry>, id: Id) {
    exists e <- entries :: id == e.commit || id == e.index || id == e.base
  }

  ghost predicate Logged(log: seq<LogEntry>, id: Id) {
    exists e <- log :: id == e.newValue || e.oldValue == Some(id)
  }

  ghost predicate LoggedIn(logs: seq<seq<LogEntry>>, id: Id) {
    exists log <- logs :: Logged(log, id)
  }

  /** The ids that some reference names. */
  ghost predicate Named(refs: Refs, id: Id) {
    || refs.head == Some(id)
    || id in refs.branches
    || id in refs.tags
    || Stashed(refs.stash, id)
    || LoggedIn(refs.reflogs, id)
  }

  method StashRoots(entries: seq<StashEntry>) returns (roots: seq<Id>)
    ensures forall id :: id in roots <==> Stashed(entries, id)
  {
    roots := [];
    for i := 0 to |entries|
      invariant forall id :: id in roots <==> Stashed(entries[..i], id)
    {
      var e := entries[i];
      ghost var before := roots;
      roots := roots + [e.commit, e.index, e.base];
      assert entries[..i + 1] == entries[..i] + [e];
      assert forall id :: id in roots <==> id in before || id == e.commit || id == e.index || id == e.base;
    }
    assert entries[..|entries|] == entries;
  }

  method LogRoots(log: seq<LogEntry>) returns (roots: seq<Id>)
    ensures forall id :: id in roots <==> Logged(log, id)
  {
    roots := [];
    for i := 0 to |log|
      invariant forall id :: id in roots <==> Logged(log[..i], id)
    {
      var e := log[i];
      ghost var before := roots;
      roots := roots + [e.newValue] + if e.oldValue.Some? then [e.oldValue.value] else [];
      assert log[..i + 1] == log[..i] + [e];
      assert forall id :: id in roots <==> id in before || id == e.newValue || e.oldValue == Some(id);
    }
    assert log[..|log|] == log;
  }

  /** The roots of the mark phase are exactly the named ids. */
  method CollectRoots(refs: Refs) returns (roots: seq<Id>)
    ensures forall id :: id in roots <==> Named(refs, id)
  {
    var stashed := StashRoots(refs.stash);
    var logged: seq<Id> := [];
    for i := 0 to |refs.reflogs|
      invariant forall id :: id in logged <==> LoggedIn(refs.reflogs[..i], id)
    {
      var log := LogRoots(refs.reflogs[i]);
      assert refs.reflogs[..i + 1] == refs.reflogs[..i] + [refs.reflogs[i]];
      logged := logged + log;
    }
    assert refs.reflogs[..|refs.reflogs|] == refs.reflogs;
    roots := (if refs.head.Some? then [refs.head.value] else []) + refs.branches + refs.tags + stashed + logged;
  }

  // ---------------------------------------------------------------- reachability

  function LinksOf(o: Object): seq<Id> {
    match o
    case Commit(tree, parents) => [tree] + parents
    case Tree(entries) => entries
    case Tag(target) => [target]
    case Blob => []
  }

  /** Where an id leads; missing and damaged objects lead nowhere. */
  function Links(objects: Objects, id: Id): seq<Id> {
    if id in objects && objects[id].Readable? then LinksOf(objects[id].content) else []
  }

  function LinkGraph(objects: Objects): (g: Graph)
    ensures forall id :: Next(g, id) == Links(objects, id)
  {
    map id | id in objects :: Links(objects, id)
  }

  ghost function NonZero(roots: seq<Id>): set<Id> {
    Members(roots) - {ZERO}
  }

  /** Some chain of commit, tree and tag links leads from a root to the id. */
  ghost predicate IsLive(objects: Objects, roots: seq<Id>, id: Id) {
    Reachable(LinkGraph(objects), NonZero(roots), id)
  }

  // ---------------------------------------------------------------- mark

  /** What has been visited could be read. */
  ghost predicate ReadableExcept(objects: Objects, seen: set<Id>, queue: seq<Id>) {
    forall id <- seen :: id in queue || (id in objects ==> objects[id].Readable?)
  }

  lemma VisitIsReadable(objects: Objects, seen: set<Id>, queue: seq<Id>, seen': set<Id>, queue': seq<Id>)
    requires ReadableExcept(objects, seen, queue) && queue != []
    requires queue[0] in objects ==> objects[queue[0]].Readable?
    requires forall id <- seen' :: id in queue' || id == queue[0] || (id in seen && id !in queue)
    ensures ReadableExcept(objects, seen', queue')
  {
  }

  /** `mark_reachable`: exactly the live ids, unless one of them cannot be read. */
  method MarkReachable(roots: seq<Id>, objects: Objects) returns (r: Result<set<Id>, Error>)
    ensures r.Ok? ==> forall id :: id in r.value <==> IsLive(objects, roots, id)
    ensures r.Ok? ==> forall id <- r.value :: id in objects ==> objects[id].Readable?
    ensures r.Err? ==> IsLive(objects, roots, r.error.id) && r.error.id in objects && objects[r.error.id].Damaged?
  {
    hide SearchInv, Enqueued, Universe, Reachable, Links, Members, LinkGraph;
    ghost var g, start := LinkGraph(objects), NonZero(roots);
    var reachable, queue := Enqueue(roots, {ZERO}, {}, []);
    SearchStarts(g, roots, {ZERO}, reachable, queue);
    SearchedIsReachable(g, start, reachable, queue);
    while queue != []
      invariant SearchInv(g, start, reachable, queue)
      invariant ReadableExcept(objects, reachable, queue)
      decreases |Universe(g, start) - reachable| + |queue|
    {
      hide ReadableExcept;
      var id := queue[0];
      SearchedIsReachable(g, start, reachable, queue);
      if id in objects && objects[id].Damaged? {
        return Err(Corrupt(id));
      }
      ghost var seen, was := reachable, queue;
      reachable, queue := Enqueue(Links(objects, id), {}, reachable, queue[1..]);
      VisitKeepsSearchInv(g, start, seen, was, reachable, queue);
      VisitLeavesLess(g, start, seen, was, reachable, queue);
      SeenOrQueued(Links(objects, id), seen, was, reachable, queue);
      VisitIsReadable(objects, seen, was, reachable, queue);
    }
    SearchEnds(g, start, reachable);
    assert ReadableExcept(objects, reachable, []);
    return Ok(reachable);
  }

  // ---------------------------------------------------------------- sweep

  ghost predicate Damage(objects: Objects, roots: seq<Id>, id: Id) {
    IsLive(objects, roots, id) && id in objects && objects[id].Damaged?
  }

  /** The part of the store that can be reached, as it is. */
  ghost function Live(objects: Objects, roots: seq<Id>): Objects {
    map id | id in objects && IsLive(objects, roots, id) :: objects[id]
  }

  // What is kept, told from the objects themselves.

  ghost predicate HoldsNamed(refs: Refs, ids: set<Id>) {
    forall id :: Named(refs, id) && id != ZERO ==> id in ids
  }

  /** With a commit its tree and its parents, with a tree its entries, with a tag its target. */
  ghost predicate ClosedUnderObjects(objects: Objects, ids: set<Id>) {
    forall id <- ids :: id in objects && objects[id].Readable? ==>
      match objects[id].content
      case Commit(tree, parents) => tree in ids && forall p <- parents :: p in ids
      case Tree(entries) => forall e <- entries :: e in ids
      case Tag(target) => target in ids
      case Blob => true
  }

  /** The same for what is kept of a store: whatever of it was stored is still stored. */
  ghost predicate KeepsLinked(before: Objects, after: Objects) {
    forall id <- after :: id in before && before[id].Readable? &&
      match before[id].content
      case Commit(tree, parents) =>
        (tree in before ==> tree in after) && forall p <- parents :: p in before ==> p in after
      case Tree(entries) => forall e <- entries :: e in before ==> e in after
      case Tag(target) => target in before ==> target in after
      case Blob => true
  }

  lemma LiveHoldsRoots(objects: Objects, roots: seq<Id>, id: Id)
    requires id in roots && id != 0 && id in objects
    ensures id in Live(objects, roots)
  {
    RootIsReachable(LinkGraph(objects), NonZero(roots), id);
  }

  lemma LinkIsLive(objects: Objects, roots: seq<Id>, id: Id, next: Id)
    requires IsLive(objects, roots, id) && next in Links(objects, id)
    ensures IsLive(objects, roots, next)
  {
    LinkIsReachable(LinkGraph(objects), NonZero(roots), id, next);
  }

  lemma LiveKeepsLinked(objects: Objects, roots: seq<Id>)
    requires forall id :: !Damage(objects, roots, id)
    ensures KeepsLinked(objects, Live(objects, roots))
  {
    var after := Live(objects, roots);
    forall id, next | id in after && next in Links(objects, id) && next in objects
      ensures next in after
    {
      LinkIsLive(objects, roots, id, next);
    }
    forall id | id in after
      ensures objects[id].Readable?
    {
      assert !Damage(objects, roots, id);
    }
    hide IsLive, Live;
    forall id | id in after && objects[id].content.Commit?
      ensures objects[id].content.tree in Links(objects, id)
      ensures forall p <- objects[id].content.parents :: p in Links(objects, id)
    {
    }
  }

  lemma LiveIsLeast(objects: Objects, roots: seq<Id>, refs: Refs, ids: set<Id>)
    requires forall id :: id in roots <==> Named(refs, id)
    requires HoldsNamed(refs, ids) && ClosedUnderObjects(objects, ids)
    ensures Live(objects, roots).Keys <= ids
  {
    var g := LinkGraph(objects);
    forall id, next | id in ids && next in Next(g, id)
      ensures next in ids
    {
      assert next in Links(objects, id);
    }
    hide LinkGraph, Links, Named, ClosedUnderObjects;
    assert Closed(g, NonZero(roots), ids);
    forall id | id in Live(objects, roots)
      ensures id in ids
    {
      ReachableIsLeast(g, NonZero(roots), ids, id);
    }
  }

  datatype GcResult = GcResult(objectsBefore: nat, objectsAfter: nat)

  class ObjectStore {
    var objects: Objects

    constructor (objects: Objects)
      ensures this.objects == objects
    {
      this.objects := objects;
    }

    method Retain(keep: set<Id>)
      modifies this
      ensures objects == map id | id in old(objects) && id in keep :: old(objects)[id]
    {
      objects := map id | id in objects && id in keep :: objects[id];
    }
  }

  /** `garbage_collect`: the store keeps exactly its live part; nothing happens if some reachable
      object is damaged. */
  method GarbageCollect(store: ObjectStore, refs: Refs) returns (r: Result<GcResult, Error>, ghost roots: seq<Id>)
    modifies store
    ensures forall id :: id in roots <==> Named(refs, id)
    ensures r.Ok? <==> forall id :: !Damage(old(store.objects), roots, id)
    ensures r.Ok? ==> store.objects == Live(old(store.objects), roots)
    ensures r.Ok? ==> forall id :: Named(refs, id) && id != 0 && id in old(store.objects) ==> id in store.objects
    ensures r.Ok? ==> KeepsLinked(old(store.objects), store.objects)
    ensures r.Ok? ==> forall ids: set<Id> ::
      HoldsNamed(refs, ids) && ClosedUnderObjects(old(store.objects), ids) ==> store.objects.Keys <= ids
    ensures r.Ok? ==> r.value == GcResult(|old(store.objects)|, |store.objects|)
    ensures r.Err? ==> store.objects == old(store.objects) && Damage(old(store.objects), roots, r.error.id)
  {
    hide IsLive, Named, KeepsLinked, HoldsNamed, ClosedUnderObjects;
    var before := |store.objects|;
    var named := CollectRoots(refs);
    roots := named;
    var marked := MarkReachable(named, store.objects);
    if marked.Err? {
      assert Damage(store.objects, roots, marked.error.id);
      return Err(marked.error), roots;
    }
    ghost var was := store.objects;
    store.Retain(marked.value);
    r := Ok(GcResult(before, |store.objects|));
    SweptMeans(was, roots, refs);
  }

  lemma SweptMeans(objects: Objects, roots: seq<Id>, refs: Refs)
    requires forall id :: id in roots <==> Named(refs, id)
    requires forall id :: !Damage(objects, roots, id)
    ensures forall id :: Named(refs, id) && id != 0 && id in objects ==> id in Live(objects, roots)
    ensures KeepsLinked(objects, Live(objects, roots))
    ensures forall ids: set<Id> ::
      HoldsNamed(refs, ids) && ClosedUnderObjects(objects, ids) ==> Live(objects, roots).Keys <= ids
  {
    hide *;
    forall id | Named(refs, id) && id != 0 && id in objects
      ensures id in Live(objects, roots)
    {
      LiveHoldsRoots(objects, roots, id);
    }
    LiveKeepsLinked(objects, roots);
    forall ids: set<Id> | HoldsNamed(refs, ids) && ClosedUnderObjects(objects, ids)
      ensures Live(objects, roots).Keys <= ids
    {
      LiveIsLeast(objects, roots, refs, ids);
    }
  }

  // ---------------------------------------------------------------- what a sweep means

  /** A path from a root survives the sweep with everything on it. */
  lemma PathSurvives(objects: Objects, roots: seq<Id>, path: seq<Id>)
    requires IsPath(LinkGraph(objects), path) && path[0] in NonZero(roots)
    ensures IsPath(LinkGraph(Live(objects, roots)), path)
  {
    hide LinkGraph;
    forall i | 0 <= i < |path| - 1
      ensures path[i + 1] in Links(Live(objects, roots), path[i])
    {
      assert PathTo(LinkGraph(objects), NonZero(roots), path[..i + 1], path[i]);
      assert IsLive(objects, roots, path[i]);
    }
  }

  /** With fewer objects there are fewer paths. */
  lemma PathOfPart(part: Objects, objects: Objects, path: seq<Id>)
    requires IsPath(LinkGraph(part), path)
    requires forall id <- part :: id in objects && objects[id] == part[id]
    ensures IsPath(LinkGraph(objects), path)
  {
    hide LinkGraph;
    forall i | 0 <= i < |path| - 1
      ensures path[i + 1] in Links(objects, path[i])
    {
      assert path[i + 1] in Links(part, path[i]);
    }
  }

  /** Sweeping changes neither what is live nor what it reads as. */
  lemma SweepKeepsLive(objects: Objects, roots: seq<Id>, id: Id)
    ensures IsLive(Live(objects, roots), roots, id) <==> IsLive(objects, roots, id)
    ensures IsLive(objects, roots, id) ==>
      (id in Live(objects, roots) <==> id in objects) && (id in objects ==> Live(objects, roots)[id] == objects[id])
  {
    var live := Live(objects, roots);
    var before, after := LinkGraph(objects), LinkGraph(live);
    hide LinkGraph, IsPath;
    if IsLive(objects, roots, id) {
      var path :| PathTo(before, NonZero(roots), path, id);
      PathSurvives(objects, roots, path);
      assert PathTo(after, NonZero(roots), path, id);
    }
    if IsLive(live, roots, id) {
      var path :| PathTo(after, NonZero(roots), path, id);
      PathOfPart(live, objects, path);
      assert PathTo(before, NonZero(roots), path, id);
    }
  }

  /** A second run with the same references finds nothing to remove. */
  lemma SecondRunRemovesNothing(objects: Objects, roots: seq<Id>)
    ensures Live(Live(objects, roots), roots) == Live(objects, roots)
  {
    forall id
      ensures IsLive(Live(objects, roots), roots, id) <==> IsLive(objects, roots, id)
    {
      SweepKeepsLive(objects, roots, id);
    }
    hide IsLive;
  }

  /** Dropping references never keeps more. */
  lemma FewerRootsKeepLess(objects: Objects, fewer: seq<Id>, roots: seq<Id>)
    requires forall id <- fewer :: id in roots
    ensures Live(objects, fewer).Keys <= Live(objects, roots).Keys
  {
    forall id | id in Live(objects, fewer)
      ensures id in Live(objects, roots)
    {
      var path :| PathTo(LinkGraph(objects), NonZero(fewer), path, id);
      assert PathTo(LinkGraph(objects), NonZero(roots), path, id);
    }
  }
}
