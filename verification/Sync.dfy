/** The chunked push/pull/status protocol over a shared store, as interleaved atomic steps.

Any number of sessions, on any number of local paths and repositories, run concurrently.
Every backend call is one step; in between, users edit files and any session may fail. */
module Sync {
  import opened Bytes
  import opened Wrappers
  import opened Backend
  import opened Chunker

  /** The sidecar file: what was last pushed or pulled at this path. */
  datatype SyncState = SyncState(generation: nat, fileHash: Hash)

  /** A file and its sidecar. Neither says which repository it belongs to. */
  datatype Local = Local(file: Option<seq<Byte>>, sidecar: Option<SyncState>)

  /** Where a session stands, with what it has read so far. */
  datatype Phase =
    | Idle
    | PushFetch(data: seq<Byte>, attempt: nat)
    | PushUpload(data: seq<Byte>, attempt: nat, remote: set<Hash>, gen: nat, i: nat, missing: bool)
    | PushSidecar(data: seq<Byte>, gen: nat)
    | PullLocal(manifest: Manifest, gen: nat)
    | PullChunks(manifest: Manifest, gen: nat, cache: map<Hash, seq<Byte>>, i: nat, assembled: seq<Byte>)
    | PullSidecar(manifest: Manifest, gen: nat)
    | StatusFile(manifest: Manifest, gen: nat)
    | StatusSidecar(manifest: Manifest, gen: nat, localHash: Hash)

  /** A caller chooses file and repository separately: one file can be pushed to several. */
  datatype Session = Session(path: nat, repo: nat, phase: Phase)

  /** `published` records every manifest ever accepted, by repository and generation. */
  datatype State = State(store: Store, locals: map<nat, Local>, sessions: map<nat, Session>,
                         published: map<(nat, nat), Manifest>)

  /** What the network does to the final compare-and-swap. */
  datatype Delivery = Answered | RequestLost | ReplyLost

  datatype PushStep =
    | StartPush
    | Fetch
    | CheckChunk
    | PutChunk
    | PutManifest(time: nat, delivery: Delivery)
    | WritePushSidecar

  datatype PullStep = StartPull | ReadLocal | PullChunk | FinishPull | WritePullSidecar

  datatype StatusStep = StartStatus | StatusRead | StatusDecide

  datatype Event =
    | Push(sid: nat, push: PushStep)
    | Pull(sid: nat, pull: PullStep)
    | Status(sid: nat, status: StatusStep)
    | Fail(sid: nat)
    | Edit(path: nat, file: Option<seq<Byte>>)

  datatype SyncStatus = InSync(version: nat) | LocalAhead | RemoteAhead(remoteVersion: nat) | Diverged | NoRemote

  const MAX_PUSH_ATTEMPTS := 3

  // ---------------------------------------------------------------- manifests

  function Describe(chunks: seq<Chunk>): (r: seq<Descriptor>)
    ensures |r| == |chunks|
    ensures forall i :: 0 <= i < |chunks| ==> r[i] == Descriptor(chunks[i].hash, chunks[i].offset, chunks[i].length)
  {
    seq(|chunks|, i requires 0 <= i < |chunks| => Descriptor(chunks[i].hash, chunks[i].offset, chunks[i].length))
  }

  function FilePieces(data: seq<Byte>): seq<seq<Byte>> { Pieces(data, DEFAULT_PARAMS) }

  function ManifestFor(repo: nat, data: seq<Byte>, time: nat): Manifest {
    Manifest(1, repo, Describe(ChunksFrom(FilePieces(data), 0)), |data|, time, Sha256(data))
  }

  function HashesOf(m: Manifest): set<Hash> { set d <- m.chunks :: d.hash }

  /** Chunks of a local file by hash. */
  function CacheOf(pieces: seq<seq<Byte>>): map<Hash, seq<Byte>> {
    if pieces == [] then map[]
    else CacheOf(pieces[..|pieces| - 1])[Sha256(pieces[|pieces| - 1]) := pieces[|pieces| - 1]]
  }

  // ---------------------------------------------------------------- steps

  function SetPhase(s: State, sid: nat, phase: Phase): State
    requires sid in s.sessions
  {
    s.(sessions := s.sessions[sid := s.sessions[sid].(phase := phase)])
  }

  function RepoOf(s: State, sid: nat): nat
    requires sid in s.sessions
  {
    s.sessions[sid].repo
  }

  function RetryOrFail(data: seq<Byte>, attempt: nat): Phase {
    if attempt < MAX_PUSH_ATTEMPTS then PushFetch(data, attempt + 1) else Idle
  }

  function StepPush(s: State, sid: nat, step: PushStep): State
    requires sid in s.sessions && s.sessions[sid].path in s.locals
  {
    var path := s.sessions[sid].path;
    var local := s.locals[path];
    match (step, s.sessions[sid].phase)
    case (StartPush, Idle) =>
      if local.file.Some? then SetPhase(s, sid, PushFetch(local.file.value, 1)) else s
    case (Fetch, PushFetch(data, attempt)) =>
      (match Get(s.store, ManifestKey(RepoOf(s, sid)))
       case Ok((Json(m), gen)) => SetPhase(s, sid, PushUpload(data, attempt, HashesOf(m), gen, 0, false))
       case Ok((Raw(_), _)) => SetPhase(s, sid, Idle)
       case Err(_) => SetPhase(s, sid, PushUpload(data, attempt, {}, 0, 0, false)))
    case (CheckChunk, PushUpload(data, attempt, remote, gen, i, false)) =>
      if i >= |FilePieces(data)| then s
      else
        var hash := Sha256(FilePieces(data)[i]);
        if hash in remote && Exists(s.store, ChunkKey(hash)).Present?
        then SetPhase(s, sid, PushUpload(data, attempt, remote, gen, i + 1, false))
        else SetPhase(s, sid, PushUpload(data, attempt, remote, gen, i, true))
    case (PutChunk, PushUpload(data, attempt, remote, gen, i, true)) =>
      if i >= |FilePieces(data)| then s
      else
        var piece := FilePieces(data)[i];
        var written := Put(s.store, ChunkKey(Sha256(piece)), Raw(piece), Always).value.0;
        SetPhase(s.(store := written), sid, PushUpload(data, attempt, remote, gen, i + 1, false))
    case (PutManifest(time, delivery), PushUpload(data, attempt, remote, gen, i, false)) =>
      if i < |FilePieces(data)| then s
      else
        var m := ManifestFor(RepoOf(s, sid), data, time);
        (match Put(s.store, ManifestKey(RepoOf(s, sid)), Json(m), Expect(gen))
         case Ok((written, newGen)) =>
           if delivery.RequestLost? then SetPhase(s, sid, RetryOrFail(data, attempt))
           else
             var after := s.(store := written, published := s.published[(RepoOf(s, sid), newGen) := m]);
             SetPhase(after, sid, if delivery.Answered? then PushSidecar(data, newGen) else RetryOrFail(data, attempt))
         case Err(_) => SetPhase(s, sid, RetryOrFail(data, attempt)))
    case (WritePushSidecar, PushSidecar(data, gen)) =>
      var synced := local.(sidecar := Some(SyncState(gen, Sha256(data))));
      SetPhase(s.(locals := s.locals[path := synced]), sid, Idle)
    case _ => s
  }

  function StepPull(s: State, sid: nat, step: PullStep): State
    requires sid in s.sessions && s.sessions[sid].path in s.locals
  {
    var path := s.sessions[sid].path;
    var local := s.locals[path];
    match (step, s.sessions[sid].phase)
    case (StartPull, Idle) =>
      (match Get(s.store, ManifestKey(RepoOf(s, sid)))
       case Ok((Json(m), gen)) =>
         if |m.chunks| > MAX_MANIFEST_CHUNKS || m.totalSize > MAX_MANIFEST_TOTAL_SIZE then s
         else SetPhase(s, sid, PullLocal(m, gen))
       case _ => s)
    case (ReadLocal, PullLocal(m, gen)) =>
      var cache := if local.file.Some? then CacheOf(FilePieces(local.file.value)) else map[];
      SetPhase(s, sid, PullChunks(m, gen, cache, 0, []))
    case (PullChunk, PullChunks(m, gen, cache, i, assembled)) =>
      if i >= |m.chunks| then s
      else
        var hash := m.chunks[i].hash;
        if hash in cache then SetPhase(s, sid, PullChunks(m, gen, cache, i + 1, assembled + cache[hash]))
        else
          (match Get(s.store, ChunkKey(hash))
           case Ok((Raw(bytes), _)) =>
             if Sha256(bytes) != hash then SetPhase(s, sid, Idle)
             else SetPhase(s, sid, PullChunks(m, gen, cache, i + 1, assembled + bytes))
           case _ => SetPhase(s, sid, Idle))
    case (FinishPull, PullChunks(m, gen, cache, i, assembled)) =>
      if i < |m.chunks| then s
      else if Sha256(assembled) != m.fileHash then SetPhase(s, sid, Idle)
      else SetPhase(s.(locals := s.locals[path := local.(file := Some(assembled))]), sid, PullSidecar(m, gen))
    case (WritePullSidecar, PullSidecar(m, gen)) =>
      var synced := local.(sidecar := Some(SyncState(gen, m.fileHash)));
      SetPhase(s.(locals := s.locals[path := synced]), sid, Idle)
    case _ => s
  }

  /** The last decision of `status`, once the hashes are known to differ. */
  function Direction(sidecar: Option<SyncState>, gen: nat): SyncStatus {
    match sidecar
    case None => LocalAhead
    case Some(state) =>
      if state.generation == gen then LocalAhead
      else if state.generation < gen then RemoteAhead(gen)
      else Diverged
  }

  function StepStatus(s: State, sid: nat, step: StatusStep): State
    requires sid in s.sessions && s.sessions[sid].path in s.locals
  {
    var local := s.locals[s.sessions[sid].path];
    match (step, s.sessions[sid].phase)
    case (StartStatus, Idle) =>
      (match Get(s.store, ManifestKey(RepoOf(s, sid)))
       case Ok((Json(m), gen)) => SetPhase(s, sid, StatusFile(m, gen))
       case _ => s)
    case (StatusRead, StatusFile(m, gen)) =>
      if local.file.None? || Sha256(local.file.value) == m.fileHash then SetPhase(s, sid, Idle)
      else SetPhase(s, sid, StatusSidecar(m, gen, Sha256(local.file.value)))
    case (StatusDecide, StatusSidecar(_, _, _)) => SetPhase(s, sid, Idle)
    case _ => s
  }

  predicate Active(s: State, sid: nat) {
    sid in s.sessions && s.sessions[sid].path in s.locals
  }

  /** One step. An event that does not fit the session's phase changes nothing. */
  function Step(s: State, e: Event): State {
    match e
    case Push(sid, step) => if Active(s, sid) then StepPush(s, sid, step) else s
    case Pull(sid, step) => if Active(s, sid) then StepPull(s, sid, step) else s
    case Status(sid, step) => if Active(s, sid) then StepStatus(s, sid, step) else s
    case Fail(sid) => if Active(s, sid) then SetPhase(s, sid, Idle) else s
    case Edit(path, file) =>
      if path in s.locals then s.(locals := s.locals[path := s.locals[path].(file := file)]) else s
  }

  /** The session that acts, if it is not a user who edits. */
  function Actor(e: Event): Option<nat> {
    match e
    case Push(sid, _) => Some(sid)
    case Pull(sid, _) => Some(sid)
    case Status(sid, _) => Some(sid)
    case Fail(sid) => Some(sid)
    case Edit(_, _) => None
  }

  /** What a status call returns, at the step where it does. */
  function Report(s: State, sid: nat, step: StatusStep): Option<SyncStatus> {
    if !Active(s, sid) then None
    else
      var local := s.locals[s.sessions[sid].path];
      match (step, s.sessions[sid].phase)
      case (StartStatus, Idle) =>
        if Get(s.store, ManifestKey(RepoOf(s, sid))) == Err(NotFound) then Some(NoRemote) else None
      case (StatusRead, StatusFile(m, gen)) =>
        if local.file.None? then Some(RemoteAhead(gen))
        else if Sha256(local.file.value) == m.fileHash then Some(InSync(gen))
        else None
      case (StatusDecide, StatusSidecar(_, gen, _)) => Some(Direction(local.sidecar, gen))
      case _ => None
  }

  /** What an event writes to the sidecar of a path. */
  function SidecarWritten(s: State, e: Event, path: nat): Option<SyncState> {
    if e.Edit? || !Active(s, Actor(e).value) || s.sessions[Actor(e).value].path != path then None
    else
      match (e, s.sessions[Actor(e).value].phase)
      case (Push(_, WritePushSidecar), PushSidecar(data, gen)) => Some(SyncState(gen, Sha256(data)))
      case (Pull(_, WritePullSidecar), PullSidecar(m, gen)) => Some(SyncState(gen, m.fileHash))
      case _ => None
  }

  function Run(s: State, events: seq<Event>): State
    decreases |events|
  {
    if events == [] then s else Run(Step(s, events[0]), events[1..])
  }

  /** An empty store, files but no sidecars, and sessions that have not begun. */
  ghost predicate Initial(s: State) {
    && s.store == EMPTY_STORE && s.published == map[]
    && (forall path <- s.locals :: s.locals[path].sidecar == None)
    && (forall sid <- s.sessions :: s.sessions[sid].path in s.locals && s.sessions[sid].phase == Idle)
  }

  // ---------------------------------------------------------------- what no step changes

  /** A session's phase is its own affair, and nobody changes files and repositories of sessions. */
  lemma OthersLeaveSession(s: State, e: Event, sid: nat)
    requires sid in s.sessions && Actor(e) != Some(sid)
    ensures sid in Step(s, e).sessions && Step(s, e).sessions[sid] == s.sessions[sid]
  {
    hide FilePieces, CacheOf, ManifestFor, HashesOf, Put, Get;
  }

  ghost predicate SamePlaces(s: State, t: State) {
    && t.locals.Keys == s.locals.Keys && t.sessions.Keys == s.sessions.Keys
    && forall sid <- s.sessions ::
         t.sessions[sid].path == s.sessions[sid].path && t.sessions[sid].repo == s.sessions[sid].repo
  }

  lemma PlacesStay(s: State, e: Event)
    ensures SamePlaces(s, Step(s, e))
  {
    hide StepPush, StepPull, StepStatus, SamePlaces;
    assert SamePlaces(s, s) by { SamePlacesReflexive(s); }
    match e
    case Push(sid, step) => if Active(s, sid) { PushKeepsPlaces(s, sid, step); }
    case Pull(sid, step) => if Active(s, sid) { PullKeepsPlaces(s, sid, step); }
    case Status(sid, step) => if Active(s, sid) { StatusKeepsPlaces(s, sid, step); }
    case Fail(sid) => if Active(s, sid) { PhaseKeepsPlaces(s, sid, Idle); }
    case Edit(path, file) => if path in s.locals { FileKeepsPlaces(s, path, s.locals[path].(file := file)); }
  }

  lemma SamePlacesReflexive(s: State)
    ensures SamePlaces(s, s)
  {
  }

  lemma PhaseKeepsPlaces(s: State, sid: nat, phase: Phase)
    requires sid in s.sessions
    ensures SamePlaces(s, SetPhase(s, sid, phase))
  {
  }

  lemma FileKeepsPlaces(s: State, path: nat, local: Local)
    requires path in s.locals
    ensures SamePlaces(s, s.(locals := s.locals[path := local]))
  {
  }

  lemma PushKeepsPlaces(s: State, sid: nat, step: PushStep)
    requires Active(s, sid)
    ensures SamePlaces(s, StepPush(s, sid, step))
  {
    hide FilePieces, ManifestFor, HashesOf, Put, Get;
  }

  lemma PullKeepsPlaces(s: State, sid: nat, step: PullStep)
    requires Active(s, sid)
    ensures SamePlaces(s, StepPull(s, sid, step))
  {
    hide FilePieces, CacheOf, Get;
  }

  lemma StatusKeepsPlaces(s: State, sid: nat, step: StatusStep)
    requires Active(s, sid)
    ensures SamePlaces(s, StepStatus(s, sid, step))
  {
    hide Get;
  }

  /** Sidecars change only where one is written. */
  lemma SidecarsStay(s: State, e: Event, path: nat)
    requires path in s.locals
    ensures path in Step(s, e).locals
    ensures Step(s, e).locals[path].sidecar ==
      if SidecarWritten(s, e, path).Some? then SidecarWritten(s, e, path) else s.locals[path].sidecar
  {
    hide FilePieces, CacheOf, ManifestFor, HashesOf, Put, Get;
  }
}
