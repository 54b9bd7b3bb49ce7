/** The per-repository lock table: `repo_lock` hands out shared mutexes and evicts the entries that
    nobody uses. Threads interleave at every point where the table's own lock is not held, and
    handles are copied and dropped at any time, even while a thread evicts. */
module RepoLocks {

  const MAX_REPO_LOCKS: nat := 1024

  type Repo = string
  type Mutex = nat
  type HandleId = nat

  datatype Handle = Handle(repo: Repo, mutex: Mutex)

  /** The thread inside the slow path: what it wants, and the entries it has yet to look at. */
  datatype Writer = NoWriter | Evicting(repo: Repo, todo: set<Repo>)

  datatype State = State(
    locks: map<Repo, Mutex>,
    handles: map<HandleId, Handle>,
    writer: Writer,
    poisoned: bool,
    nextMutex: Mutex,
    held: map<Mutex, HandleId>)

  const INITIAL: State := State(map[], map[], NoWriter, false, 0, map[])

  /** References to a mutex: the table's own and one for each handle. */
  ghost function StrongCount(s: State, m: Mutex): nat {
    |set h | h in s.handles && s.handles[h].mutex == m| + 1
  }

  datatype Event =
    | FastHit(repo: Repo, h: HandleId)
    | EnterSlow(repo: Repo)
    | Examine(repo: Repo)
    | Panic
    | Finish(h: HandleId)
    | Copy(h: HandleId, copy: HandleId)
    | Drop(h: HandleId)
    | Lock(h: HandleId)
    | Unlock(h: HandleId)

  ghost predicate Holding(s: State, h: HandleId) {
    h in s.handles && s.handles[h].mutex in s.held && s.held[s.handles[h].mutex] == h
  }

  ghost predicate Enabled(s: State, e: Event) {
    match e
    case FastHit(repo, h) => s.writer == NoWriter && !s.poisoned && repo in s.locks && h !in s.handles
    case EnterSlow(_) => s.writer == NoWriter
    case Examine(repo) => s.writer.Evicting? && repo in s.writer.todo
    case Panic => s.writer.Evicting?
    case Finish(h) => s.writer.Evicting? && s.writer.todo == {} && h !in s.handles
    case Copy(h, copy) => h in s.handles && copy !in s.handles
    case Drop(h) => h in s.handles && !Holding(s, h)
    case Lock(h) => h in s.handles && s.handles[h].mutex !in s.held
    case Unlock(h) => Holding(s, h)
  }

  /** The sweep's look at one entry: it goes if only the table refers to its mutex. */
  ghost function Examined(s: State, repo: Repo): State
    requires s.writer.Evicting?
  {
    var Evicting(wanted, todo) := s.writer;
    var kept := if repo in s.locks && StrongCount(s, s.locks[repo]) <= 1 then s.locks - {repo} else s.locks;
    s.(locks := kept, writer := Evicting(wanted, todo - {repo}))
  }

  /** The existing entry if there is one, or else a new mutex, and a handle to it. */
  ghost function Finished(s: State, h: HandleId): State
    requires s.writer.Evicting?
  {
    var repo := s.writer.repo;
    var handles := s.handles[h := Handle(repo, MutexFor(s, repo))];
    if repo in s.locks then s.(handles := handles, writer := NoWriter)
    else s.(locks := s.locks[repo := s.nextMutex], handles := handles, writer := NoWriter, nextMutex := s.nextMutex + 1)
  }

  ghost function MutexFor(s: State, repo: Repo): Mutex {
    if repo in s.locks then s.locks[repo] else s.nextMutex
  }

  ghost function Apply(s: State, e: Event): State
    requires Enabled(s, e)
  {
    match e
    case FastHit(repo, h) => s.(handles := s.handles[h := Handle(repo, MutexFor(s, repo))])
    case EnterSlow(repo) =>
      s.(writer := Evicting(repo, if |s.locks| >= MAX_REPO_LOCKS then s.locks.Keys else {}))
    case Examine(repo) => Examined(s, repo)
    case Panic => s.(writer := NoWriter, poisoned := true)
    case Finish(h) => Finished(s, h)
    case Copy(h, copy) => s.(handles := s.handles[copy := s.handles[h]])
    case Drop(h) => s.(handles := s.handles - {h})
    case Lock(h) => s.(held := s.held[s.handles[h].mutex := h])
    case Unlock(h) => s.(held := s.held - {s.handles[h].mutex})
  }

  // ---------------------------------------------------------------- the invariant

  ghost predicate HandlesAreCurrent(s: State) {
    forall h <- s.handles :: s.handles[h].repo in s.locks && s.locks[s.handles[h].repo] == s.handles[h].mutex
  }

  ghost predicate MutexesAreDistinct(s: State) {
    && (forall r <- s.locks :: s.locks[r] < s.nextMutex)
    && (forall r <- s.locks, q <- s.locks :: s.locks[r] == s.locks[q] ==> r == q)
  }

  ghost predicate HeldByHandles(s: State) {
    forall m <- s.held :: s.held[m] in s.handles && s.handles[s.held[m]].mutex == m
  }

  ghost predicate Inv(s: State) {
    HandlesAreCurrent(s) && MutexesAreDistinct(s) && HeldByHandles(s)
  }

  /** An entry that only the table refers to belongs to no live handle. */
  lemma CountedHandles(s: State, m: Mutex)
    ensures StrongCount(s, m) > 1 <==> exists h :: h in s.handles && s.handles[h].mutex == m
  {
    var users := set h | h in s.handles && s.handles[h].mutex == m;
    if users != {} {
      var h :| h in users;
      assert |users - {h}| >= 0;
    }
    if h :| h in s.handles && s.handles[h].mutex == m {
      assert h in users;
    }
  }

  lemma HandlesStayCurrent(s: State, e: Event)
    requires HandlesAreCurrent(s) && Enabled(s, e)
    ensures HandlesAreCurrent(Apply(s, e))
  {
    if e.Examine? && e.repo in s.locks {
      CountedHandles(s, s.locks[e.repo]);
    }
    hide StrongCount, Holding;
  }

  lemma MutexesStayDistinct(s: State, e: Event)
    requires MutexesAreDistinct(s) && Enabled(s, e)
    ensures MutexesAreDistinct(Apply(s, e))
  {
    hide StrongCount, Holding;
  }

  lemma HoldersStayHandles(s: State, e: Event)
    requires HeldByHandles(s) && Enabled(s, e)
    ensures HeldByHandles(Apply(s, e))
  {
    hide StrongCount;
  }

  lemma StepKeepsInv(s: State, e: Event)
    requires Inv(s) && Enabled(s, e)
    ensures Inv(Apply(s, e))
  {
    hide HandlesAreCurrent, MutexesAreDistinct, HeldByHandles, Enabled, Apply;
    HandlesStayCurrent(s, e);
    MutexesStayDistinct(s, e);
    HoldersStayHandles(s, e);
  }

  // ---------------------------------------------------------------- runs

  ghost predicate IsRun(s: State, es: seq<Event>, s': State)
    decreases |es|
  {
    if es == [] then s == s' else Enabled(s, es[0]) && IsRun(Apply(s, es[0]), es[1..], s')
  }

  lemma {:induction false} RunKeepsInv(s: State, es: seq<Event>, s': State)
    requires Inv(s) && IsRun(s, es, s')
    ensures Inv(s')
    decreases |es|
  {
    hide Inv, Enabled, Apply;
    if es != [] {
      StepKeepsInv(s, es[0]);
      RunKeepsInv(Apply(s, es[0]), es[1..], s');
    }
  }

  /** In every reachable state two live handles share a mutex exactly when they are for the same
      repository, and a table entry for that repository is that mutex. */
  lemma OneMutexPerRepo(es: seq<Event>, s: State, h: HandleId, k: HandleId)
    requires IsRun(INITIAL, es, s) && h in s.handles && k in s.handles
    ensures s.handles[h].mutex == s.handles[k].mutex <==> s.handles[h].repo == s.handles[k].repo
    ensures s.handles[h].repo in s.locks && s.locks[s.handles[h].repo] == s.handles[h].mutex
  {
    RunKeepsInv(INITIAL, es, s);
  }

  /** So at most one handle of a repository is inside its critical section. */
  lemma MutualExclusion(es: seq<Event>, s: State, h: HandleId, k: HandleId)
    requires IsRun(INITIAL, es, s)
    requires Holding(s, h) && Holding(s, k) && s.handles[h].repo == s.handles[k].repo
    ensures h == k
  {
    OneMutexPerRepo(es, s, h, k);
  }

  // ---------------------------------------------------------------- the table is not observable

  /** What users of the table can tell: a lock service with one lock per repository name. */
  datatype Service = Service(handles: map<HandleId, Repo>, holders: set<HandleId>)

  datatype Request =
    | Silent
    | Open(repo: Repo, h: HandleId)
    | Share(h: HandleId, copy: HandleId)
    | Close(h: HandleId)
    | Acquire(h: HandleId)
    | Release(h: HandleId)

  ghost predicate Permitted(v: Service, q: Request) {
    match q
    case Silent => true
    case Open(_, h) => h !in v.handles
    case Share(h, copy) => h in v.handles && copy !in v.handles
    case Close(h) => h in v.handles && h !in v.holders
    case Acquire(h) => h in v.handles && forall k <- v.holders :: k in v.handles ==> v.handles[k] != v.handles[h]
    case Release(h) => h in v.holders
  }

  ghost function HandlesServed(v: Service, q: Request): map<HandleId, Repo>
    requires Permitted(v, q)
  {
    match q
    case Open(repo, h) => v.handles[h := repo]
    case Share(h, copy) => v.handles[copy := v.handles[h]]
    case Close(h) => v.handles - {h}
    case _ => v.handles
  }

  ghost function HoldersServed(holders: set<HandleId>, q: Request): set<HandleId> {
    match q
    case Acquire(h) => holders + {h}
    case Release(h) => holders - {h}
    case _ => holders
  }

  ghost function Serve(v: Service, q: Request): Service
    requires Permitted(v, q)
  {
    Service(HandlesServed(v, q), HoldersServed(v.holders, q))
  }

  ghost function View(s: State): Service {
    Service(Repos(s.handles), Holders(s))
  }

  ghost function Holders(s: State): (hs: set<HandleId>)
    ensures forall h :: h in hs <==> Holding(s, h)
  {
    set h | h in s.handles && Holding(s, h)
  }

  ghost function Repos(handles: map<HandleId, Handle>): (repos: map<HandleId, Repo>)
    ensures forall h <- handles :: h in repos && repos[h] == handles[h].repo
  {
    map h | h in handles :: handles[h].repo
  }

  lemma RepoAdded(handles: map<HandleId, Handle>, h: HandleId, handle: Handle)
    ensures Repos(handles[h := handle]) == Repos(handles)[h := handle.repo]
  {
  }

  lemma RepoRemoved(handles: map<HandleId, Handle>, h: HandleId)
    ensures Repos(handles - {h}) == Repos(handles) - {h}
  {
  }

  ghost function RequestOf(s: State, e: Event): Request {
    match e
    case FastHit(repo, h) => Open(repo, h)
    case Finish(h) => if s.writer.Evicting? then Open(s.writer.repo, h) else Silent
    case Copy(h, copy) => Share(h, copy)
    case Drop(h) => Close(h)
    case Lock(h) => Acquire(h)
    case Unlock(h) => Release(h)
    case EnterSlow(_) => Silent
    case Examine(_) => Silent
    case Panic => Silent
  }

  /** Holders of a repository's lock are the holders of the mutex in the table. */
  lemma LockedMeansHeld(s: State, h: HandleId)
    requires Inv(s) && h in s.handles
    ensures s.handles[h].mutex in s.held <==> exists k :: Holding(s, k) && s.handles[k].repo == s.handles[h].repo
  {
    if s.handles[h].mutex in s.held {
      assert Holding(s, s.held[s.handles[h].mutex]);
    }
  }

  /** What a user asks of a handle is granted by the table exactly when the service permits it. */
  lemma GrantedIffPermitted(s: State, e: Event)
    requires Inv(s) && (e.Copy? || e.Drop? || e.Lock? || e.Unlock?)
    ensures Enabled(s, e) <==> Permitted(View(s), RequestOf(s, e))
  {
    if e.Lock? && e.h in s.handles {
      LockedMeansHeld(s, e.h);
      hide HandlesAreCurrent, MutexesAreDistinct, HeldByHandles;
      assert forall k :: k in View(s).holders <==> Holding(s, k);
    }
  }

  lemma StepIsPermitted(s: State, e: Event)
    requires Inv(s) && Enabled(s, e)
    ensures Permitted(View(s), RequestOf(s, e))
  {
    hide Inv, Holding;
    if e.Copy? || e.Drop? || e.Lock? || e.Unlock? {
      GrantedIffPermitted(s, e);
    }
  }

  /** A step that changes handles or holders does so as the service does. */
  lemma StepServes(s: State, e: Event)
    requires Inv(s) && Enabled(s, e)
    ensures Permitted(View(s), RequestOf(s, e)) && View(Apply(s, e)) == Serve(View(s), RequestOf(s, e))
  {
    hide Permitted, StrongCount, Inv, Holding, Apply, Repos, Holders, Enabled, HandlesServed, HoldersServed, RequestOf;
    StepIsPermitted(s, e);
    HandlesAfter(s, e);
    HoldersAfter(s, e);
  }

  lemma HandlesApplied(s: State, e: Event)
    requires Enabled(s, e)
    ensures Apply(s, e).handles == match e
      case FastHit(repo, h) => s.handles[h := Handle(repo, MutexFor(s, repo))]
      case Finish(h) => s.handles[h := Handle(s.writer.repo, MutexFor(s, s.writer.repo))]
      case Copy(h, copy) => s.handles[copy := s.handles[h]]
      case Drop(h) => s.handles - {h}
      case _ => s.handles
  {
    hide StrongCount, Holding, MutexFor;
    match e
    case Examine(_) =>
    case Finish(_) =>
    case _ =>
  }

  lemma HandlesAfter(s: State, e: Event)
    requires Enabled(s, e) && Permitted(View(s), RequestOf(s, e))
    ensures Repos(Apply(s, e).handles) == HandlesServed(View(s), RequestOf(s, e))
  {
    HandlesApplied(s, e);
    hide StrongCount, Holding, Permitted, Repos, Holders, Apply, MutexFor;
    match e
    case FastHit(repo, h) => RepoAdded(s.handles, h, Handle(repo, MutexFor(s, repo)));
    case Finish(h) => RepoAdded(s.handles, h, Handle(s.writer.repo, MutexFor(s, s.writer.repo)));
    case Copy(h, copy) => RepoAdded(s.handles, copy, s.handles[h]);
    case Drop(h) => RepoRemoved(s.handles, h);
    case _ =>
  }

  lemma HoldersAfter(s: State, e: Event)
    requires Inv(s) && Enabled(s, e)
    ensures Holders(Apply(s, e)) == HoldersServed(Holders(s), RequestOf(s, e))
  {
    if e.Lock? || e.Unlock? {
      HoldersChanged(s, e);
    } else {
      hide Inv, StrongCount, Holders, Holding;
      HoldersUnchanged(s, e);
    }
  }

  lemma HoldersChanged(s: State, e: Event)
    requires Inv(s) && Enabled(s, e) && (e.Lock? || e.Unlock?)
    ensures Holders(Apply(s, e)) == if e.Lock? then Holders(s) + {e.h} else Holders(s) - {e.h}
  {
    hide StrongCount, Holders;
  }

  lemma HoldersUnchanged(s: State, e: Event)
    requires Inv(s) && Enabled(s, e) && !e.Lock? && !e.Unlock?
    ensures Holders(Apply(s, e)) == Holders(s)
  {
    HandlesApplied(s, e);
    HeldApplied(s, e);
    hide StrongCount, Holders, Apply, MutexFor;
    match e
    case FastHit(_, h) => NewHandleHoldsNothing(s, Apply(s, e), h);
    case Finish(h) => NewHandleHoldsNothing(s, Apply(s, e), h);
    case Copy(_, h) => NewHandleHoldsNothing(s, Apply(s, e), h);
    case _ =>
  }

  lemma HeldApplied(s: State, e: Event)
    requires Enabled(s, e) && !e.Lock? && !e.Unlock?
    ensures Apply(s, e).held == s.held
  {
    hide StrongCount, Holding, MutexFor;
    match e
    case Examine(_) =>
    case Finish(_) =>
    case _ =>
  }

  lemma NewHandleHoldsNothing(s: State, s': State, h: HandleId)
    requires HeldByHandles(s) && h !in s.handles && s'.held == s.held
    requires h in s'.handles && s'.handles == s.handles[h := s'.handles[h]]
    ensures Holders(s') == Holders(s)
  {
  }

  ghost predicate IsService(v: Service, qs: seq<Request>, v': Service)
    decreases |qs|
  {
    if qs == [] then v == v' else Permitted(v, qs[0]) && IsService(Serve(v, qs[0]), qs[1..], v')
  }

  ghost function Requests(s: State, es: seq<Event>): (qs: seq<Request>)
    ensures |qs| == |es|
    decreases |es|
  {
    if es == [] then []
    else
      [RequestOf(s, es[0])]
      + if Enabled(s, es[0]) then Requests(Apply(s, es[0]), es[1..]) else seq(|es| - 1, _ => Silent)
  }

  /** Every run of the table, with its evictions and panics, is a run of the plain service. */
  lemma {:induction false} RunServes(s: State, es: seq<Event>, s': State)
    requires Inv(s) && IsRun(s, es, s')
    ensures IsService(View(s), Requests(s, es), View(s'))
    decreases |es|
  {
    hide Inv, Enabled, Apply, RequestOf, Permitted, Serve, View;
    if es != [] {
      StepServes(s, es[0]);
      StepKeepsInv(s, es[0]);
      var after, rest := Apply(s, es[0]), Requests(Apply(s, es[0]), es[1..]);
      RunServes(after, es[1..], s');
      assert Requests(s, es) == [RequestOf(s, es[0])] + rest;
      assert Requests(s, es)[1..] == rest;
    }
  }

  // ---------------------------------------------------------------- one call without interruption

  /** The entries the sweep of one call leaves, given the mutexes that handles refer to. */
  function Swept(locks: map<Repo, Mutex>, live: set<Mutex>): map<Repo, Mutex> {
    if |locks| >= MAX_REPO_LOCKS then map r | r in locks && locks[r] in live :: locks[r] else locks
  }

  ghost function Live(s: State): set<Mutex> {
    set h | h in s.handles :: s.handles[h].mutex
  }

  lemma SameHandlesSameLive(s: State, s': State)
    requires s.handles == s'.handles
    ensures Live(s) == Live(s')
  {
  }

  lemma ExamineDropsUnused(s: State, repo: Repo)
    requires s.writer.Evicting? && repo in s.writer.todo && repo in s.locks
    ensures Apply(s, Examine(repo)) == s.(
      locks := if s.locks[repo] in Live(s) then s.locks else s.locks - {repo},
      writer := Evicting(s.writer.repo, s.writer.todo - {repo}))
  {
    CountedHandles(s, s.locks[repo]);
    hide StrongCount;
  }

  /** The order in which entries are examined does not matter. */
  lemma {:induction false} SweepInAnyOrder(s: State, es: seq<Event>, s': State)
    requires s.writer.Evicting? && s.writer.todo <= s.locks.Keys
    requires IsRun(s, es, s') && (forall e <- es :: e.Examine?)
    requires s'.writer.Evicting? && s'.writer.todo == {}
    ensures s'.handles == s.handles && s'.nextMutex == s.nextMutex && s'.held == s.held
    ensures s'.writer.repo == s.writer.repo
    ensures s'.locks == map r | r in s.locks && (r in s.writer.todo ==> s.locks[r] in Live(s)) :: s.locks[r]
    decreases |es|
  {
    if es != [] {
      var e := es[0];
      assert e in es;
      ExamineDropsUnused(s, e.repo);
      hide Apply, Live;
      var after := Apply(s, e);
      assert Live(after) == Live(s) by { SameHandlesSameLive(s, after); }
      SweepInAnyOrder(after, es[1..], s');
    }
  }

  /** The steps of one slow call with nothing in between, in terms of the table before it. */
  lemma UninterruptedCall(s: State, repo: Repo, es: seq<Event>, swept: State, h: HandleId)
    requires s.writer == NoWriter && repo !in s.locks && h !in s.handles
    requires IsRun(Apply(s, EnterSlow(repo)), es, swept) && (forall e <- es :: e.Examine?)
    requires swept.writer.Evicting? && swept.writer.todo == {}
    ensures Enabled(swept, Finish(h))
    ensures var s' := Apply(swept, Finish(h));
      && s'.handles == s.handles[h := Handle(repo, s.nextMutex)]
      && s'.locks == Swept(s.locks, Live(s))[repo := s.nextMutex]
      && s'.nextMutex == s.nextMutex + 1 && s'.writer == NoWriter && s'.held == s.held
  {
    var entered := Apply(s, EnterSlow(repo));
    assert entered == s.(writer := entered.writer);
    assert Live(entered) == Live(s);
    hide StrongCount, IsRun;
    SweepInAnyOrder(entered, es, swept);
    assert swept.locks == Swept(s.locks, Live(s));
    assert repo !in swept.locks;
  }

  class LockTable {
    var locks: map<Repo, Mutex>
    var nextMutex: Mutex

    constructor ()
      ensures locks == map[] && nextMutex == 0
    {
      locks, nextMutex := map[], 0;
    }

    /** `repo_lock` as one thread sees it when nobody interrupts. */
    method RepoLock(repo: Repo, live: set<Mutex>) returns (lock: Mutex)
      modifies this
      ensures repo in old(locks) ==> locks == old(locks) && nextMutex == old(nextMutex) && lock == old(locks)[repo]
      ensures repo !in old(locks) ==>
        && lock == old(nextMutex) && nextMutex == old(nextMutex) + 1
        && locks == Swept(old(locks), live)[repo := lock]
      ensures repo !in old(locks) && |old(locks)| < 1024 ==> locks == old(locks)[repo := lock]
      ensures repo !in old(locks) && |old(locks)| >= 1024 ==>
        forall r :: r in locks <==> r == repo || (r in old(locks) && old(locks)[r] in live)
    {
      if repo in locks {
        return locks[repo];
      }
      if |locks| >= MAX_REPO_LOCKS {
        locks := map r | r in locks && locks[r] in live :: locks[r];
      }
      if repo !in locks {
        locks, nextMutex := locks[repo := nextMutex], nextMutex + 1;
      }
      lock := locks[repo];
    }
  }
}
