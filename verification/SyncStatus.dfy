/** What the sync status of a file says: when `Diverged` is reported, and what `LocalAhead` means. */
module SyncStatus {
  import opened Bytes
  import opened Wrappers
  import opened Backend
  import opened Sync
  import opened SyncInvariant
  import opened SyncRuns

  // ---------------------------------------------------------------- sidecars over a run

  function Newest(later: Option<SyncState>, earlier: Option<SyncState>): Option<SyncState> {
    if later.Some? then later else earlier
  }

  /** The last thing that a run writes to the sidecar of a path. */
  ghost function LastWritten(s: State, events: seq<Event>, path: nat): Option<SyncState>
    decreases |events|
  {
    if events == [] then None
    else Newest(LastWritten(Step(s, events[0]), events[1..], path), SidecarWritten(s, events[0], path))
  }

  lemma {:induction false} SidecarAfter(s: State, events: seq<Event>, path: nat)
    requires path in s.locals
    ensures path in Run(s, events).locals
    ensures Run(s, events).locals[path].sidecar == Newest(LastWritten(s, events, path), s.locals[path].sidecar)
    decreases |events|
  {
    hide Step, SidecarWritten;
    if events != [] {
      SidecarsStay(s, events[0], path);
      SidecarAfter(Step(s, events[0]), events[1..], path);
    }
  }

  /** No event is of this session. */
  ghost predicate OthersOnly(events: seq<Event>, sid: nat) {
    forall e <- events :: Actor(e) != Some(sid)
  }

  lemma {:induction false} OthersRun(s: State, events: seq<Event>, sid: nat)
    requires Active(s, sid) && OthersOnly(events, sid)
    ensures Active(Run(s, events), sid) && Run(s, events).sessions[sid] == s.sessions[sid]
    decreases |events|
  {
    hide Step, SamePlaces;
    if events != [] {
      OthersLeaveSession(s, events[0], sid);
      PlacesStay(s, events[0]);
      LocalsStay(s, Step(s, events[0]));
      OthersRun(Step(s, events[0]), events[1..], sid);
    }
  }

  lemma LocalsStay(s: State, t: State)
    requires SamePlaces(s, t)
    ensures t.locals.Keys == s.locals.Keys
  {
  }

  /** Whoever wrote last is another session at the same path. */
  lemma {:induction false} WriterIsAnother(s: State, events: seq<Event>, path: nat, sid: nat) returns (k: nat)
    requires OthersOnly(events, sid) && LastWritten(s, events, path).Some?
    ensures k < |events| && SidecarWritten(Run(s, events[..k]), events[k], path) == LastWritten(s, events, path)
    ensures var t, writer := Run(s, events[..k]), Actor(events[k]);
      writer.Some? && writer.value != sid && Active(t, writer.value) && t.sessions[writer.value].path == path
    decreases |events|
  {
    hide Step, Report;
    var e, rest := events[0], events[1..];
    if LastWritten(Step(s, e), rest, path).Some? {
      var q := WriterIsAnother(Step(s, e), rest, path, sid);
      k := q + 1;
      assert events[..k] == [e] + rest[..q];
      RunStep(s, e, rest[..q]);
    } else {
      k := 0;
      assert events[..0] == [] && e in events;
    }
  }

  // ---------------------------------------------------------------- one status call

  /** The states in which a status call reads the file, and then the sidecar; others may act
      before each. */
  ghost function AtRead(s: State, sid: nat, before: seq<Event>): State {
    Run(Step(s, Status(sid, StartStatus)), before)
  }

  ghost function AtDecision(s: State, sid: nat, before: seq<Event>, between: seq<Event>): State {
    Run(Step(AtRead(s, sid, before), Status(sid, StatusRead)), between)
  }

  /** What others have last written to the sidecar during the call. */
  ghost function WrittenDuring(s: State, sid: nat, before: seq<Event>, between: seq<Event>,
                               path: nat): Option<SyncState> {
    Newest(LastWritten(Step(AtRead(s, sid, before), Status(sid, StatusRead)), between, path),
           LastWritten(Step(s, Status(sid, StartStatus)), before, path))
  }

  ghost predicate Call(s: State, sid: nat, before: seq<Event>, between: seq<Event>, m: Manifest, gen: nat) {
    && Active(s, sid) && s.sessions[sid].phase == Idle
    && OthersOnly(before, sid) && OthersOnly(between, sid)
    && Get(s.store, ManifestKey(RepoOf(s, sid))) == Ok((Json(m), gen))
  }

  /** The file that the call reads is there and is not the one it has fetched the manifest of. */
  ghost predicate Differs(file: Option<seq<Byte>>, m: Manifest) {
    file.Some? && Sha256(file.value) != m.fileHash
  }

  lemma CallReads(s: State, sid: nat, before: seq<Event>, between: seq<Event>, m: Manifest, gen: nat)
    requires Call(s, sid, before, between, m, gen)
    ensures var path, r := s.sessions[sid].path, AtRead(s, sid, before);
      && Active(r, sid) && r.sessions[sid] == s.sessions[sid].(phase := StatusFile(m, gen))
      && r.locals[path].sidecar
         == Newest(LastWritten(Step(s, Status(sid, StartStatus)), before, path), s.locals[path].sidecar)
  {
    hide Run, LastWritten, StepPush, StepPull;
    var s1 := Step(s, Status(sid, StartStatus));
    OthersRun(s1, before, sid);
    SidecarAfter(s1, before, s.sessions[sid].path);
  }

  /** A status call, whatever happens meanwhile: if the file differs, the decision rests on the
      newest sidecar, and otherwise none is made. */
  lemma StatusDecides(s: State, sid: nat, before: seq<Event>, between: seq<Event>, m: Manifest, gen: nat)
    requires Call(s, sid, before, between, m, gen)
    ensures var path := s.sessions[sid].path;
      var r := AtRead(s, sid, before);
      && path in r.locals
      && Report(AtDecision(s, sid, before, between), sid, StatusDecide)
         == if Differs(r.locals[path].file, m)
            then Some(Direction(Newest(WrittenDuring(s, sid, before, between, path), s.locals[path].sidecar), gen))
            else None
  {
    var path := s.sessions[sid].path;
    CallReads(s, sid, before, between, m, gen);
    hide Run, LastWritten, StepPush, StepPull, Direction;
    var r := AtRead(s, sid, before);
    var r1 := Step(r, Status(sid, StatusRead));
    assert Active(r1, sid);
    assert r1.sessions[sid].phase ==
      if Differs(r.locals[path].file, m) then StatusSidecar(m, gen, Sha256(r.locals[path].file.value)) else Idle;
    assert r1.locals == r.locals;
    hide Step;
    OthersRun(r1, between, sid);
    SidecarAfter(r1, between, path);
  }

  /** `Diverged` is reported exactly when the file differs from the fetched one and the newest
      sidecar carries a higher generation than the fetched one. */
  lemma DivergedExactly(s: State, sid: nat, before: seq<Event>, between: seq<Event>, m: Manifest, gen: nat)
    requires Call(s, sid, before, between, m, gen)
    ensures var path := s.sessions[sid].path;
      var newest := Newest(WrittenDuring(s, sid, before, between, path), s.locals[path].sidecar);
      && path in AtRead(s, sid, before).locals
      && (Report(AtDecision(s, sid, before, between), sid, StatusDecide) == Some(Diverged) <==>
            Differs(AtRead(s, sid, before).locals[path].file, m) && newest.Some? && newest.value.generation > gen)
  {
    hide AtRead, AtDecision, WrittenDuring, Call, Differs, Report;
    StatusDecides(s, sid, before, between, m, gen);
  }

  /** If all sessions at the path use one repository, exactly when another session has written
      such a sidecar during the call; what it recorded has then been published meanwhile. */
  lemma DivergedInOneRepository(s: State, sid: nat, before: seq<Event>, between: seq<Event>, m: Manifest, gen: nat)
    requires Inv(s) && Call(s, sid, before, between, m, gen) && OneRepository(s, s.sessions[sid].path)
    ensures var path := s.sessions[sid].path;
      var written := WrittenDuring(s, sid, before, between, path);
      && path in AtRead(s, sid, before).locals
      && (Report(AtDecision(s, sid, before, between), sid, StatusDecide) == Some(Diverged) <==>
            Differs(AtRead(s, sid, before).locals[path].file, m) && written.Some? && written.value.generation > gen)
  {
    DivergedExactly(s, sid, before, between, m, gen);
    assert gen == Generation(s.store, ManifestKey(RepoOf(s, sid)));
    hide Inv, AtRead, AtDecision, WrittenDuring, OneRepository, Differs, Report;
    if s.locals[s.sessions[sid].path].sidecar.Some? {
      SidecarIsHistory(s, sid);
    }
  }

  /** `LocalAhead` with a sidecar then means that the file differs from the content last synced. */
  lemma LocalAheadIsSound(s: State, sid: nat)
    requires Inv(s) && Active(s, sid) && OneRepository(s, s.sessions[sid].path)
    requires Report(s, sid, StatusDecide) == Some(LocalAhead) && s.locals[s.sessions[sid].path].sidecar.Some?
    ensures s.sessions[sid].phase.localHash != s.locals[s.sessions[sid].path].sidecar.value.fileHash
  {
    hide OneRepository, StoreOk, SidecarOk;
    SidecarIsHistory(s, sid);
    assert PhaseOk(s.sessions[sid].phase, RepoOf(s, sid), s.store, s.published);
  }

  // ---------------------------------------------------------------- every answer

  /** What a whole status call returns: at the fetch, at the read, or at the decision. */
  ghost function Answer(s: State, sid: nat, before: seq<Event>, between: seq<Event>): Option<SyncStatus> {
    var fetched := Report(s, sid, StartStatus);
    var read := Report(AtRead(s, sid, before), sid, StatusRead);
    if fetched.Some? then fetched
    else if read.Some? then read
    else Report(AtDecision(s, sid, before, between), sid, StatusDecide)
  }

  lemma FetchOrNoRemote(s: State, sid: nat)
    requires Inv(s) && Active(s, sid) && s.sessions[sid].phase == Idle
    ensures var key, gen := ManifestKey(RepoOf(s, sid)), Generation(s.store, ManifestKey(RepoOf(s, sid)));
      if key !in s.store.data then Report(s, sid, StartStatus) == Some(NoRemote)
      else
        && Report(s, sid, StartStatus) == None && (RepoOf(s, sid), gen) in s.published
        && Get(s.store, key) == Ok((Json(s.published[(RepoOf(s, sid), gen)]), gen))
  {
    hide PhaseOk, SidecarOk;
  }

  /** The answer in every case, whatever others do during the call. `InSync` names the fetched
      generation, and is given exactly when the file read is the one published there. */
  lemma StatusAnswers(s: State, sid: nat, before: seq<Event>, between: seq<Event>)
    requires Inv(s) && Active(s, sid) && s.sessions[sid].phase == Idle
    requires OthersOnly(before, sid) && OthersOnly(between, sid)
    ensures var path, repo := s.sessions[sid].path, RepoOf(s, sid);
      var gen := Generation(s.store, ManifestKey(repo));
      var answer := Answer(s, sid, before, between);
      if ManifestKey(repo) !in s.store.data then answer == Some(NoRemote)
      else
        && (repo, gen) in s.published && path in AtRead(s, sid, before).locals
        && var file := AtRead(s, sid, before).locals[path].file;
           var newest := Newest(WrittenDuring(s, sid, before, between, path), s.locals[path].sidecar);
           var same := file.Some? && Sha256(file.value) == s.published[(repo, gen)].fileHash;
           && (answer == Some(InSync(gen)) <==> same)
           && (file.None? ==> answer == Some(RemoteAhead(gen)))
           && (file.Some? && !same && newest.None? ==> answer == Some(LocalAhead))
           && (file.Some? && !same && newest.Some? && newest.value.generation == gen ==> answer == Some(LocalAhead))
           && (file.Some? && !same && newest.Some? && newest.value.generation < gen ==>
                 answer == Some(RemoteAhead(gen)))
           && (file.Some? && !same && newest.Some? && newest.value.generation > gen ==> answer == Some(Diverged))
  {
    var repo := RepoOf(s, sid);
    var key, gen := ManifestKey(repo), Generation(s.store, ManifestKey(repo));
    FetchOrNoRemote(s, sid);
    if key in s.store.data {
      var m := s.published[(repo, gen)];
      assert Call(s, sid, before, between, m, gen);
      hide Inv, Generation, Get;
      CallReads(s, sid, before, between, m, gen);
      ReadAnswers(AtRead(s, sid, before), sid, m, gen);
      hide Report, AtRead, AtDecision, WrittenDuring, Call;
      StatusDecides(s, sid, before, between, m, gen);
    }
  }

  lemma ReadAnswers(r: State, sid: nat, m: Manifest, gen: nat)
    requires Active(r, sid) && r.sessions[sid].phase == StatusFile(m, gen)
    ensures var file := r.locals[r.sessions[sid].path].file;
      Report(r, sid, StatusRead) ==
        if file.None? then Some(RemoteAhead(gen))
        else if Sha256(file.value) == m.fileHash then Some(InSync(gen))
        else None
  {
  }

  /** A push and then a status, with nobody in between: in sync, at the generation just published. */
  lemma PushThenStatus(s: State, sid: nat, time: nat) returns (push: seq<Event>)
    requires Inv(s) && Active(s, sid) && s.sessions[sid].phase == Idle
    requires s.locals[s.sessions[sid].path].file.Some?
    ensures AllBy(push, sid) && Pushed(s, Run(s, push), sid, time)
    ensures var t := Run(s, push);
      Answer(t, sid, [], []) == Some(InSync(Generation(s.store, ManifestKey(RepoOf(s, sid))) + 1))
  {
    push := UndisturbedPush(s, sid, time);
    RunKeepsInv(s, push);
    var t := Run(s, push);
    PushedIsOffered(s, t, sid, time);
    hide Inv, Run, Pushed;
    StatusAnswers(t, sid, [], []);
    NothingBefore(t, sid);
  }

  lemma NothingBefore(s: State, sid: nat)
    requires Active(s, sid) && s.sessions[sid].phase == Idle
    ensures AtRead(s, sid, []).locals == s.locals
  {
    hide StepPush, StepPull;
  }

  lemma PushedIsOffered(s: State, t: State, sid: nat, time: nat)
    requires Inv(t) && Active(s, sid) && s.locals[s.sessions[sid].path].file.Some? && Pushed(s, t, sid, time)
    ensures var path, repo := s.sessions[sid].path, RepoOf(s, sid);
      var gen := Generation(s.store, ManifestKey(repo)) + 1;
      && t.sessions == s.sessions && path in t.locals && t.locals[path].file == s.locals[path].file
      && ManifestKey(repo) in t.store.data && Generation(t.store, ManifestKey(repo)) == gen
      && ((repo, gen) in t.published ==> t.published[(repo, gen)].fileHash == Sha256(s.locals[path].file.value))
  {
    hide PhaseOk, SidecarOk, FilePieces, Describe;
  }

  // ---------------------------------------------------------------- one call at a time

  /** At most one session at the path is at work. */
  ghost predicate OneActive(s: State, path: nat) {
    forall a <- s.sessions, b <- s.sessions ::
      a != b && s.sessions[a].path == path && s.sessions[b].path == path ==>
        s.sessions[a].phase == Idle || s.sessions[b].phase == Idle
  }

  ghost predicate OneAtATime(s: State, events: seq<Event>, path: nat)
    decreases |events|
  {
    OneActive(s, path) && (events == [] || OneAtATime(Step(s, events[0]), events[1..], path))
  }

  /** A status call at work has fetched no less than what the sidecar records. */
  ghost predicate CallOk(s: State, sid: nat)
    requires Active(s, sid)
  {
    var phase, sidecar := s.sessions[sid].phase, s.locals[s.sessions[sid].path].sidecar;
    (phase.StatusFile? || phase.StatusSidecar?) && sidecar.Some? ==> sidecar.value.generation <= phase.gen
  }

  ghost predicate CallsOk(s: State, path: nat) {
    forall sid <- s.sessions :: s.sessions[sid].path == path ==> Active(s, sid) && CallOk(s, sid)
  }

  lemma OthersKeepCall(s: State, e: Event, sid: nat)
    requires Inv(s) && Active(s, sid) && OneActive(s, s.sessions[sid].path) && CallOk(s, sid)
    requires Actor(e) != Some(sid)
    ensures Active(Step(s, e), sid) && CallOk(Step(s, e), sid)
  {
    var path := s.sessions[sid].path;
    hide Inv, Step, SamePlaces;
    OthersLeaveSession(s, e, sid);
    PlacesStay(s, e);
    LocalsStay(s, Step(s, e));
    SidecarsStay(s, e, path);
    if SidecarWritten(s, e, path).Some? {
      assert s.sessions[Actor(e).value].phase != Idle;
    }
  }

  lemma OwnStepKeepsCall(s: State, e: Event, sid: nat)
    requires Inv(s) && Active(s, sid) && OneRepository(s, s.sessions[sid].path) && CallOk(s, sid)
    requires Actor(e) == Some(sid)
    ensures Active(Step(s, e), sid) && CallOk(Step(s, e), sid)
  {
    var path, phase := s.sessions[sid].path, s.sessions[sid].phase;
    PlacesStay(s, e);
    SidecarsStay(s, e, path);
    if s.locals[path].sidecar.Some? {
      SidecarIsHistory(s, sid);
    }
    OwnStepInStatus(s, e, sid);
    hide Inv, Step, OneRepository;
  }

  /** A session is in a status call only by its own status steps, which write no sidecar. */
  lemma OwnStepInStatus(s: State, e: Event, sid: nat)
    requires Active(s, sid) && Actor(e) == Some(sid) && sid in Step(s, e).sessions
    ensures var phase, phase' := s.sessions[sid].phase, Step(s, e).sessions[sid].phase;
      phase'.StatusFile? || phase'.StatusSidecar? ==>
        && SidecarWritten(s, e, s.sessions[sid].path).None?
        && phase'.gen == if phase.StatusFile? || phase.StatusSidecar? then phase.gen
                         else Generation(s.store, ManifestKey(RepoOf(s, sid)))
  {
    match e
    case Push(_, step) => PushIsNoStatus(s, sid, step);
    case Pull(_, step) => PullIsNoStatus(s, sid, step);
    case Status(_, step) => hide StepPush, StepPull;
    case Fail(_) =>
    case Edit(_, _) =>
  }

  lemma PushIsNoStatus(s: State, sid: nat, step: PushStep)
    requires Active(s, sid)
    ensures var phase, t := s.sessions[sid].phase, StepPush(s, sid, step);
      t.sessions[sid].phase.StatusFile? || t.sessions[sid].phase.StatusSidecar? ==>
        t == s && t.sessions[sid].phase == phase
  {
    hide FilePieces, ManifestFor, HashesOf, Put, Get;
  }

  lemma PullIsNoStatus(s: State, sid: nat, step: PullStep)
    requires Active(s, sid)
    ensures var phase, t := s.sessions[sid].phase, StepPull(s, sid, step);
      t.sessions[sid].phase.StatusFile? || t.sessions[sid].phase.StatusSidecar? ==>
        t == s && t.sessions[sid].phase == phase
  {
    hide FilePieces, CacheOf, Get;
  }

  lemma StepKeepsCalls(s: State, e: Event, path: nat)
    requires Inv(s) && path in s.locals
    requires OneRepository(s, path) && OneActive(s, path) && CallsOk(s, path)
    ensures CallsOk(Step(s, e), path) && path in Step(s, e).locals && OneRepository(Step(s, e), path)
  {
    PlacesStay(s, e);
    hide Inv, Step, CallOk;
    forall sid <- Step(s, e).sessions | Step(s, e).sessions[sid].path == path
      ensures Active(Step(s, e), sid) && CallOk(Step(s, e), sid)
    {
      if Actor(e) == Some(sid) { OwnStepKeepsCall(s, e, sid); } else { OthersKeepCall(s, e, sid); }
    }
  }

  lemma {:induction false} RunKeepsCalls(s: State, events: seq<Event>, path: nat)
    requires Inv(s) && path in s.locals
    requires OneRepository(s, path) && OneAtATime(s, events, path) && CallsOk(s, path)
    ensures CallsOk(Run(s, events), path)
    decreases |events|
  {
    hide Inv, Step, CallsOk, OneActive, OneRepository;
    if events != [] {
      StepKeepsInv(s, events[0]);
      StepKeepsCalls(s, events[0], path);
      RunKeepsCalls(Step(s, events[0]), events[1..], path);
    }
  }

  /** No status call at the path ever reports `Diverged`, as long as its sessions work one at a time. */
  ghost predicate NeverDiverges(s: State, path: nat) {
    forall events, sid, step :: OneAtATime(s, events, path) && sid in s.sessions && s.sessions[sid].path == path ==>
      Report(Run(s, events), sid, step) != Some(Diverged)
  }

  lemma OneRepositoryNeverDiverges(s: State, path: nat)
    requires Initial(s) && path in s.locals && OneRepository(s, path)
    ensures NeverDiverges(s, path)
  {
    InitialInv(s);
    forall events, sid, step | OneAtATime(s, events, path) && sid in s.sessions && s.sessions[sid].path == path
      ensures Report(Run(s, events), sid, step) != Some(Diverged)
    {
      RunKeepsCalls(s, events, path);
      RunKeepsPlaces(s, events);
    }
  }

  lemma {:induction false} RunKeepsPlaces(s: State, events: seq<Event>)
    ensures SamePlaces(s, Run(s, events))
    decreases |events|
  {
    hide Step;
    if events != [] {
      PlacesStay(s, events[0]);
      RunKeepsPlaces(Step(s, events[0]), events[1..]);
    }
  }

  // ---------------------------------------------------------------- two repositories at one path

  /** Nobody else at the path is at work. */
  ghost predicate Alone(s: State, path: nat, sid: nat) {
    forall a <- s.sessions :: a != sid && s.sessions[a].path == path ==> s.sessions[a].phase == Idle
  }

  ghost predicate OwnOrEdit(events: seq<Event>, sid: nat) {
    forall e <- events :: Actor(e) == Some(sid) || e.Edit?
  }

  lemma AloneStays(s: State, path: nat, sid: nat, e: Event)
    requires Alone(s, path, sid) && (Actor(e) == Some(sid) || e.Edit?)
    ensures Alone(Step(s, e), path, sid)
  {
    PlacesStay(s, e);
    hide Step;
    forall a <- Step(s, e).sessions | a != sid && Step(s, e).sessions[a].path == path
      ensures Step(s, e).sessions[a].phase == Idle
    {
      OthersLeaveSession(s, e, a);
    }
  }

  lemma {:induction false} OwnRunIsOneAtATime(s: State, events: seq<Event>, path: nat, sid: nat)
    requires Alone(s, path, sid) && OwnOrEdit(events, sid)
    ensures OneAtATime(s, events, path) && Alone(Run(s, events), path, sid)
    decreases |events|
  {
    hide Step;
    if events != [] {
      AloneStays(s, path, sid, events[0]);
      OwnRunIsOneAtATime(Step(s, events[0]), events[1..], path, sid);
    }
  }

  lemma {:induction false} OneAtATimeGoesOn(s: State, a: seq<Event>, b: seq<Event>, path: nat)
    requires OneAtATime(s, a, path) && OneAtATime(Run(s, a), b, path)
    ensures OneAtATime(s, a + b, path)
    decreases |a|
  {
    hide Step, OneActive;
    if a == [] {
      assert a + b == b;
    } else {
      assert (a + b)[0] == a[0] && (a + b)[1..] == a[1..] + b;
      OneAtATimeGoesOn(Step(s, a[0]), a[1..], b, path);
    }
  }

  /** After a push and before the next: what the file, the sidecar and the repository hold. */
  ghost predicate Synced(s: State, t: State, sid: nat, data: seq<Byte>) {
    && Active(s, sid)
    && var path, repo := s.sessions[sid].path, RepoOf(s, sid);
       var g := Generation(s.store, ManifestKey(repo)) + 1;
       && t.sessions == s.sessions
       && t.locals == s.locals[path := Local(Some(data), Some(SyncState(g, Sha256(data))))]
       && Get(t.store, ManifestKey(repo)) == Ok((Json(ManifestFor(repo, data, 0)), g))
       && Generation(t.store, ManifestKey(repo)) == g
       && forall other :: other != repo ==> SameKey(s.store, t.store, ManifestKey(other))
  }

  ghost predicate Edited(s: State, t: State, path: nat, data: seq<Byte>) {
    path in s.locals && t == s.(locals := s.locals[path := Local(Some(data), s.locals[path].sidecar)])
  }

  lemma EditSetsFile(s: State, path: nat, data: seq<Byte>)
    requires path in s.locals
    ensures Edited(s, Step(s, Edit(path, Some(data))), path, data)
  {
  }

  lemma LocalsTwice(locals: map<nat, Local>, path: nat, x: Local, y: Local)
    ensures locals[path := x][path := y] == locals[path := y]
  {
  }

  /** The user changes the file and pushes it. */
  lemma EditAndPush(s: State, sid: nat, data: seq<Byte>) returns (events: seq<Event>)
    requires Inv(s) && Active(s, sid) && s.sessions[sid].phase == Idle
    ensures OwnOrEdit(events, sid) && Inv(Run(s, events)) && Synced(s, Run(s, events), sid, data)
  {
    var path := s.sessions[sid].path;
    var edit := Edit(path, Some(data));
    hide *;
    StepKeepsInv(s, edit);
    EditSetsFile(s, path, data);
    var t := Step(s, edit);
    EditKeepsSession(s, t, sid, data);
    var push := UndisturbedPush(t, sid, 0);
    events := [edit] + push;
    EditIsNoStep(edit, push, sid);
    RunStep(s, edit, push);
    RunKeepsInv(t, push);
    EditedThenPushed(s, t, Run(s, events), sid, data);
  }

  lemma EditKeepsSession(s: State, t: State, sid: nat, data: seq<Byte>)
    requires Active(s, sid) && Edited(s, t, s.sessions[sid].path, data)
    ensures Active(t, sid) && t.locals[t.sessions[sid].path].file == Some(data)
  {
  }

  lemma EditIsNoStep(edit: Event, events: seq<Event>, sid: nat)
    requires edit.Edit? && AllBy(events, sid)
    ensures OwnOrEdit([edit] + events, sid)
  {
  }

  lemma EditedThenPushed(s: State, t: State, u: State, sid: nat, data: seq<Byte>)
    requires Active(s, sid) && Edited(s, t, s.sessions[sid].path, data)
    requires Pushed(t, u, sid, 0)
    ensures Synced(s, u, sid, data)
  {
    hide ManifestFor, Get, SameKey;
    var path := s.sessions[sid].path;
    var g := Generation(s.store, ManifestKey(RepoOf(s, sid))) + 1;
    LocalsTwice(s.locals, path, t.locals[path], Local(Some(data), Some(SyncState(g, Sha256(data)))));
  }

  /** A status call that nobody disturbs. */
  lemma UndisturbedStatus(s: State, sid: nat, m: Manifest, gen: nat) returns (events: seq<Event>)
    requires Active(s, sid) && s.sessions[sid].phase == Idle
    requires Get(s.store, ManifestKey(RepoOf(s, sid))) == Ok((Json(m), gen))
    ensures OwnOrEdit(events, sid) && Run(s, events).locals == s.locals
    ensures var local := s.locals[s.sessions[sid].path];
      Report(Run(s, events), sid, StatusDecide)
        == if Differs(local.file, m) then Some(Direction(local.sidecar, gen)) else None
  {
    events := [Status(sid, StartStatus), Status(sid, StatusRead)];
    hide StepPush, StepPull, Direction;
    var start, read := Status(sid, StartStatus), Status(sid, StatusRead);
    RunLast(s, [start], read);
    RunLast(s, [], start);
    assert [start] + [read] == events && [] + [start] == [start];
    hide Run;
    assert Step(s, start).sessions[sid].phase == StatusFile(m, gen);
  }

  /** The files of the two runs below. */
  const FIRST: seq<Byte> := []
  const SECOND: seq<Byte> := [0]
  const THIRD: seq<Byte> := [1]

  ghost predicate PushedToBoth(s: State, t: State, a: nat, b: nat)
    requires Active(s, a) && Active(s, b)
  {
    var path := s.sessions[a].path;
    && t.sessions == s.sessions
    && t.locals == s.locals[path := Local(Some(SECOND), Some(SyncState(1, Sha256(SECOND))))]
    && Get(t.store, ManifestKey(RepoOf(s, a))) == Ok((Json(ManifestFor(RepoOf(s, a), FIRST, 0)), 1))
    && Generation(t.store, ManifestKey(RepoOf(s, b))) == 1
  }

  lemma BothSynced(s: State, t: State, u: State, a: nat, b: nat)
    requires Active(s, a) && Active(s, b) && s.store == EMPTY_STORE
    requires s.sessions[a].path == s.sessions[b].path && RepoOf(s, a) != RepoOf(s, b)
    requires Synced(s, t, a, FIRST) && Synced(t, u, b, SECOND)
    ensures PushedToBoth(s, u, a, b)
  {
    hide ManifestFor;
    assert SameKey(s.store, t.store, ManifestKey(RepoOf(s, b)));
    assert SameKey(t.store, u.store, ManifestKey(RepoOf(s, a)));
    var path := s.sessions[a].path;
    LocalsTwice(s.locals, path, t.locals[path], Local(Some(SECOND), Some(SyncState(1, Sha256(SECOND)))));
  }

  /** At the start everybody is at rest. */
  lemma AtRest(s: State, path: nat, sid: nat)
    requires Initial(s) && Active(s, sid)
    ensures Inv(s) && s.store == EMPTY_STORE && s.sessions[sid].phase == Idle && Alone(s, path, sid)
  {
    InitialInv(s);
    hide Inv;
  }

  lemma StaysActive(s: State, t: State, data: seq<Byte>, sid: nat, other: nat)
    requires Synced(s, t, sid, data) && Active(s, other)
    ensures Active(t, other) && t.sessions == s.sessions
  {
  }

  /** One session pushes, then another session pushes the same path to another repository. */
  lemma PushToBoth(s: State, a: nat, b: nat) returns (events: seq<Event>)
    requires Initial(s) && Active(s, a) && Active(s, b)
    requires s.sessions[a].path == s.sessions[b].path && RepoOf(s, a) != RepoOf(s, b)
    ensures OneAtATime(s, events, s.sessions[a].path) && Inv(Run(s, events))
    ensures PushedToBoth(s, Run(s, events), a, b)
  {
    var path := s.sessions[a].path;
    hide *;
    AtRest(s, path, a);
    AtRest(s, path, b);
    var one := EditAndPush(s, a, FIRST);
    var t := Run(s, one);
    OwnRunIsOneAtATime(s, one, path, a);
    StaysActive(s, t, FIRST, a, b);
    var two := EditAndPush(t, b, SECOND);
    BothSynced(s, t, Run(t, two), a, b);
    AloneAgain(s, t, path, b);
    OwnRunIsOneAtATime(t, two, path, b);
    events := one + two;
    RunAppend(s, one, two);
    OneAtATimeGoesOn(s, one, two, path);
  }

  lemma AloneAgain(s: State, t: State, path: nat, sid: nat)
    requires Alone(s, path, sid) && t.sessions == s.sessions
    ensures Alone(t, path, sid)
  {
  }

  /** Without any overlap: `LocalAhead` is reported although the file is the one last synced. */
  lemma TwoRepositoriesMislead(s: State, a: nat, b: nat) returns (events: seq<Event>)
    requires Initial(s) && Active(s, a) && Active(s, b)
    requires s.sessions[a].path == s.sessions[b].path && RepoOf(s, a) != RepoOf(s, b)
    ensures var path, t := s.sessions[a].path, Run(s, events);
      && OneAtATime(s, events, path) && Report(t, a, StatusDecide) == Some(LocalAhead)
      && path in t.locals && t.locals[path] == Local(Some(SECOND), Some(SyncState(1, Sha256(SECOND))))
  {
    var path := s.sessions[a].path;
    assert s.sessions[a].phase == Idle;
    var push := PushToBoth(s, a, b);
    var t := Run(s, push);
    AtRest(s, path, a);
    AloneAgain(s, t, path, a);
    hide Initial, Inv, Run, OneAtATime, Alone, Get;
    var m := ManifestFor(RepoOf(s, a), FIRST, 0);
    assert m.fileHash == Sha256(FIRST) && FIRST != SECOND;
    hide ManifestFor;
    var status := UndisturbedStatus(t, a, m, 1);
    OwnRunIsOneAtATime(t, status, path, a);
    events := push + status;
    RunAppend(s, push, status);
    OneAtATimeGoesOn(s, push, status, path);
  }

  /** Without any overlap: after one more push to the second repository, status against the first
      one reports `Diverged`. */
  lemma TwoRepositoriesDiverge(s: State, a: nat, b: nat) returns (events: seq<Event>)
    requires Initial(s) && Active(s, a) && Active(s, b)
    requires s.sessions[a].path == s.sessions[b].path && RepoOf(s, a) != RepoOf(s, b)
    ensures OneAtATime(s, events, s.sessions[a].path) && Report(Run(s, events), a, StatusDecide) == Some(Diverged)
  {
    var path := s.sessions[a].path;
    assert s.sessions[a].phase == Idle && s.sessions[b].phase == Idle;
    var push := PushToBoth(s, a, b);
    var t := Run(s, push);
    AtRest(s, path, a);
    AtRest(s, path, b);
    AloneAgain(s, t, path, a);
    AloneAgain(s, t, path, b);
    var m := ManifestFor(RepoOf(s, a), FIRST, 0);
    assert m.fileHash == Sha256(FIRST) && FIRST != THIRD;
    hide Initial, Inv, Run, OneAtATime, Alone, Get, ManifestFor, Generation;
    var more := EditAndPush(t, b, THIRD);
    var u := Run(t, more);
    OwnRunIsOneAtATime(t, more, path, b);
    assert SameKey(t.store, u.store, ManifestKey(RepoOf(s, a)));
    AloneAgain(t, u, path, a);
    var status := UndisturbedStatus(u, a, m, 1);
    OwnRunIsOneAtATime(u, status, path, a);
    events := push + (more + status);
    RunAppend(t, more, status);
    RunAppend(s, push, more + status);
    OneAtATimeGoesOn(t, more, status, path);
    OneAtATimeGoesOn(s, push, more + status, path);
  }

  /** A caller can arrange it: sessions at a path that work one at a time never see `Diverged` if
      and only if they all use one repository. */
  lemma SafeExactly(s: State, path: nat)
    requires Initial(s) && path in s.locals
    ensures OneRepository(s, path) <==> NeverDiverges(s, path)
  {
    if OneRepository(s, path) {
      OneRepositoryNeverDiverges(s, path);
    } else {
      var a, b :| a in s.sessions && b in s.sessions && s.sessions[a].path == path && s.sessions[b].path == path
                  && s.sessions[a].repo != s.sessions[b].repo;
      var events := TwoRepositoriesDiverge(s, a, b);
      assert Report(Run(s, events), a, StatusDecide) == Some(Diverged);
    }
  }

  // ---------------------------------------------------------------- calls that overlap

  lemma StartFetches(s: State, t: State, a: nat, b: nat)
    requires Active(s, a) && Active(s, b) && a != b && s.store == EMPTY_STORE && s.sessions[a].phase == Idle
    requires s.sessions[a].path == s.sessions[b].path && RepoOf(s, a) == RepoOf(s, b) && Synced(s, t, b, FIRST)
    ensures var m := ManifestFor(RepoOf(s, a), FIRST, 0);
      Step(t, Status(a, StartStatus)) == t.(sessions := t.sessions[a := t.sessions[a].(phase := StatusFile(m, 1))])
  {
    hide ManifestFor, StepPush, StepPull;
  }

  lemma ReadDiverges(t: State, u: State, a: nat, b: nat)
    requires Active(t, a) && Active(t, b) && t.sessions[a].path == t.sessions[b].path && RepoOf(t, a) == RepoOf(t, b)
    requires t.sessions[a].phase == StatusFile(ManifestFor(RepoOf(t, a), FIRST, 0), 1)
    requires Generation(t.store, ManifestKey(RepoOf(t, b))) == 1 && Synced(t, u, b, SECOND)
    ensures Report(Step(u, Status(a, StatusRead)), a, StatusDecide) == Some(Diverged)
  {
    assert ManifestFor(RepoOf(t, a), FIRST, 0).fileHash == Sha256(FIRST) && FIRST != SECOND;
    hide ManifestFor, StepPush, StepPull, SameKey, Get;
  }

  /** With one repository but calls that overlap `Diverged` can be seen too: while one session
      computes the status, another at the same path pushes a change. */
  lemma OverlapDiverges(s: State, a: nat, b: nat) returns (events: seq<Event>)
    requires Initial(s) && Active(s, a) && Active(s, b) && a != b
    requires s.sessions[a].path == s.sessions[b].path && RepoOf(s, a) == RepoOf(s, b)
    ensures Report(Run(s, events), a, StatusDecide) == Some(Diverged)
  {
    var path := s.sessions[a].path;
    AtRest(s, path, a);
    AtRest(s, path, b);
    hide Inv, Initial, Run, Step, ManifestFor, OwnOrEdit;
    var first := EditAndPush(s, b, FIRST);
    var t := Run(s, first);
    var start, read := Status(a, StartStatus), Status(a, StatusRead);
    StartFetches(s, t, a, b);
    StepKeepsInv(t, start);
    var t1 := Step(t, start);
    assert Active(t1, b) && t1.sessions[b].phase == Idle;
    var second := EditAndPush(t1, b, SECOND);
    hide SameKey, Get;
    ReadDiverges(t1, Run(t1, second), a, b);
    events := first + [start] + second + [read];
    RunLast(s, first, start);
    RunAppend(s, first + [start], second);
    RunLast(s, first + [start] + second, read);
  }
}
