/** What every interleaving of the sync protocol keeps, and what follows for the remote and for pulls. */
module SyncInvariant {
  import opened Bytes
  import opened Wrappers
  import opened Backend
  import opened Chunker
  import opened Sync

  // ---------------------------------------------------------------- the invariant

  /** A manifest describes the file its hash names, cut into chunks. */
  ghost predicate Describes(m: Manifest, repo: nat) {
    m == ManifestFor(repo, m.fileHash.content, m.lastModified)
  }

  ghost predicate HasChunk(store: Store, hash: Hash) {
    ChunkKey(hash) in store.data
  }

  ghost predicate Stored(store: Store, m: Manifest) {
    forall i :: 0 <= i < |m.chunks| ==> HasChunk(store, m.chunks[i].hash)
  }

  ghost predicate Published(pub: map<(nat, nat), Manifest>, repo: nat, gen: nat, m: Manifest) {
    (repo, gen) in pub && pub[(repo, gen)] == m
  }

  /** The store: chunks hold what their hash names, and the history records every manifest,
      whose chunks are all stored. */
  ghost predicate StoreOk(store: Store, pub: map<(nat, nat), Manifest>) {
    && (forall hash :: HasChunk(store, hash) ==> store.data[ChunkKey(hash)] == Raw(hash.content))
    && (forall repo :: ManifestKey(repo) in store.data ==>
          store.data[ManifestKey(repo)].Json?
          && Published(pub, repo, Generation(store, ManifestKey(repo)), store.data[ManifestKey(repo)].manifest))
    && (forall repo :: ManifestKey(repo) !in store.data ==> Generation(store, ManifestKey(repo)) == 0)
    && (forall repo, gen :: (repo, gen) in pub ==>
          1 <= gen <= Generation(store, ManifestKey(repo))
          && Describes(pub[(repo, gen)], repo) && Stored(store, pub[(repo, gen)]))
  }

  /** The repositories that sessions at a path use. */
  function ReposAt(sessions: map<nat, Session>, path: nat): set<nat> {
    set sid | sid in sessions && sessions[sid].path == path :: sessions[sid].repo
  }

  /** A sidecar names what was published at its generation. It does not say where. */
  ghost predicate Recorded(sidecar: Option<SyncState>, repo: nat, pub: map<(nat, nat), Manifest>) {
    sidecar.Some? ==> (repo, sidecar.value.generation) in pub
                      && pub[(repo, sidecar.value.generation)].fileHash == sidecar.value.fileHash
  }

  ghost predicate SidecarOk(sidecar: Option<SyncState>, repos: set<nat>, pub: map<(nat, nat), Manifest>) {
    sidecar.Some? ==> exists repo <- repos :: Recorded(sidecar, repo, pub)
  }

  ghost predicate PhaseOk(phase: Phase, repo: nat, store: Store, pub: map<(nat, nat), Manifest>) {
    match phase
    case Idle => true
    case PushFetch(_, _) => true
    case PushUpload(data, _, _, gen, i, _) =>
      && i <= |FilePieces(data)| && gen <= Generation(store, ManifestKey(repo))
      && forall k :: 0 <= k < i ==> HasChunk(store, Sha256(FilePieces(data)[k]))
    case PushSidecar(data, gen) => (repo, gen) in pub && pub[(repo, gen)].fileHash == Sha256(data)
    case PullLocal(m, gen) => Published(pub, repo, gen, m)
    case PullChunks(m, gen, cache, i, assembled) =>
      && Published(pub, repo, gen, m) && i <= |m.chunks| && i <= |FilePieces(m.fileHash.content)|
      && (forall hash <- cache :: cache[hash] == hash.content)
      && assembled == Concat(FilePieces(m.fileHash.content)[..i])
    case PullSidecar(m, gen) => Published(pub, repo, gen, m)
    case StatusFile(m, gen) => Published(pub, repo, gen, m)
    case StatusSidecar(m, gen, localHash) => Published(pub, repo, gen, m) && localHash != m.fileHash
  }

  ghost predicate Inv(s: State) {
    && StoreOk(s.store, s.published)
    && (forall path <- s.locals :: SidecarOk(s.locals[path].sidecar, ReposAt(s.sessions, path), s.published))
    && (forall sid <- s.sessions ::
          s.sessions[sid].path in s.locals
          && PhaseOk(s.sessions[sid].phase, s.sessions[sid].repo, s.store, s.published))
  }

  // ---------------------------------------------------------------- what every step keeps

  /** The store and the history only grow. */
  ghost predicate Grows(store: Store, pub: map<(nat, nat), Manifest>, store': Store, pub': map<(nat, nat), Manifest>) {
    && (forall hash :: HasChunk(store, hash) ==> HasChunk(store', hash))
    && (forall repo :: Generation(store, ManifestKey(repo)) <= Generation(store', ManifestKey(repo)))
    && (forall key <- pub :: key in pub' && pub'[key] == pub[key])
  }

  lemma GrowthKeepsPhase(phase: Phase, repo: nat, store: Store, pub: map<(nat, nat), Manifest>,
                         store': Store, pub': map<(nat, nat), Manifest>)
    requires PhaseOk(phase, repo, store, pub) && Grows(store, pub, store', pub')
    ensures PhaseOk(phase, repo, store', pub')
  {
  }

  lemma SetPhaseKeepsRepos(s: State, sid: nat, phase: Phase, path: nat)
    requires sid in s.sessions
    ensures ReposAt(SetPhase(s, sid, phase).sessions, path) == ReposAt(s.sessions, path)
  {
    var sessions, sessions' := s.sessions, SetPhase(s, sid, phase).sessions;
    assert forall q :: q in sessions' <==> q in sessions;
    assert forall q <- sessions :: sessions'[q].path == sessions[q].path && sessions'[q].repo == sessions[q].repo;
  }

  /** The common part of every step of a session: only its own phase and its own local file
      change, and the store grows. */
  lemma SessionStepKeepsInv(s: State, sid: nat, store': Store, pub': map<(nat, nat), Manifest>, local': Local,
                            phase': Phase)
    requires Inv(s) && Active(s, sid)
    requires StoreOk(store', pub') && Grows(s.store, s.published, store', pub')
    requires SidecarOk(local'.sidecar, ReposAt(s.sessions, s.sessions[sid].path), pub')
    requires PhaseOk(phase', RepoOf(s, sid), store', pub')
    ensures Inv(SetPhase(State(store', s.locals[s.sessions[sid].path := local'], s.sessions, pub'), sid, phase'))
  {
    hide StoreOk, PhaseOk, SidecarOk, ReposAt;
    var path := s.sessions[sid].path;
    var s' := SetPhase(State(store', s.locals[path := local'], s.sessions, pub'), sid, phase');
    forall p <- s'.locals
      ensures SidecarOk(s'.locals[p].sidecar, ReposAt(s'.sessions, p), pub')
    {
      SetPhaseKeepsRepos(s, sid, phase', p);
      if p != path {
        SidecarSurvives(s.locals[p].sidecar, ReposAt(s.sessions, p), s.store, s.published, store', pub');
      }
    }
    forall q <- s'.sessions
      ensures s'.sessions[q].path in s'.locals
      ensures PhaseOk(s'.sessions[q].phase, s'.sessions[q].repo, store', pub')
    {
      if q != sid {
        GrowthKeepsPhase(s.sessions[q].phase, s.sessions[q].repo, s.store, s.published, store', pub');
      }
    }
  }

  lemma SidecarSurvives(sidecar: Option<SyncState>, repos: set<nat>, store: Store, pub: map<(nat, nat), Manifest>,
                        store': Store, pub': map<(nat, nat), Manifest>)
    requires SidecarOk(sidecar, repos, pub) && Grows(store, pub, store', pub')
    ensures SidecarOk(sidecar, repos, pub')
  {
    if sidecar.Some? {
      var repo :| repo in repos && Recorded(sidecar, repo, pub);
      assert Recorded(sidecar, repo, pub');
    }
  }

  /** A step that touches neither the store nor the local file. */
  lemma PhaseStepKeepsInv(s: State, sid: nat, phase': Phase)
    requires Inv(s) && Active(s, sid) && PhaseOk(phase', RepoOf(s, sid), s.store, s.published)
    ensures Inv(SetPhase(s, sid, phase'))
  {
    hide StoreOk, PhaseOk, SidecarOk, ReposAt;
    var path := s.sessions[sid].path;
    SessionStepKeepsInv(s, sid, s.store, s.published, s.locals[path], phase');
    assert s.locals[path := s.locals[path]] == s.locals;
  }

  lemma ManifestNamesPieces(repo: nat, data: seq<Byte>, time: nat)
    ensures var m := ManifestFor(repo, data, time);
      && |m.chunks| == |FilePieces(data)| && m.totalSize == |data| && Describes(m, repo)
      && forall i :: 0 <= i < |m.chunks| ==> m.chunks[i].hash == Sha256(FilePieces(data)[i])
  {
    hide FilePieces;
    ChunksCarryPieces(FilePieces(data), 0);
  }

  lemma PutChunkKeepsStore(store: Store, pub: map<(nat, nat), Manifest>, piece: seq<Byte>)
    requires StoreOk(store, pub)
    ensures var store' := Put(store, ChunkKey(Sha256(piece)), Raw(piece), Always).value.0;
      StoreOk(store', pub) && Grows(store, pub, store', pub) && HasChunk(store', Sha256(piece))
  {
    hide Describes;
    var store' := Put(store, ChunkKey(Sha256(piece)), Raw(piece), Always).value.0;
    assert forall hash :: HasChunk(store, hash) ==> HasChunk(store', hash);
    assert forall repo :: Generation(store', ManifestKey(repo)) == Generation(store, ManifestKey(repo));
  }

  /** An accepted manifest extends the history by one generation that was not there before. */
  lemma PutManifestKeepsStore(store: Store, pub: map<(nat, nat), Manifest>, repo: nat, m: Manifest, gen: nat)
    requires StoreOk(store, pub) && Describes(m, repo) && Stored(store, m)
    requires Put(store, ManifestKey(repo), Json(m), Expect(gen)).Ok?
    ensures var (store', newGen) := Put(store, ManifestKey(repo), Json(m), Expect(gen)).value;
      var pub' := pub[(repo, newGen) := m];
      && (repo, newGen) !in pub && newGen == gen + 1
      && StoreOk(store', pub') && Grows(store, pub, store', pub') && Published(pub', repo, newGen, m)
  {
    hide Describes;
    var (store', newGen) := Put(store, ManifestKey(repo), Json(m), Expect(gen)).value;
    assert forall hash :: HasChunk(store, hash) <==> HasChunk(store', hash);
    assert forall r :: r != repo ==> Generation(store', ManifestKey(r)) == Generation(store, ManifestKey(r));
  }

  lemma PushKeepsInv(s: State, sid: nat, step: PushStep)
    requires Inv(s) && Active(s, sid)
    ensures Inv(StepPush(s, sid, step))
  {
    hide StoreOk, SidecarOk, Grows, FilePieces, CacheOf, Describe, ManifestFor;
    var path := s.sessions[sid].path;
    var local := s.locals[path];
    var phase := s.sessions[sid].phase;
    assert PhaseOk(phase, RepoOf(s, sid), s.store, s.published);
    match (step, phase)
    case (StartPush, Idle) =>
      if local.file.Some? { PhaseStepKeepsInv(s, sid, PushFetch(local.file.value, 1)); }
    case (Fetch, PushFetch(data, attempt)) =>
      FetchIsOk(s.store, s.published, RepoOf(s, sid), data, attempt);
      FetchStep(s, sid, data, attempt);
    case (CheckChunk, PushUpload(data, attempt, remote, gen, i, false)) =>
      CheckStep(s, sid, data, attempt, remote, gen, i);
    case (PutChunk, PushUpload(data, attempt, remote, gen, i, true)) =>
      if i < |FilePieces(data)| { PutStep(s, sid, data, attempt, remote, gen, i); }
    case (PutManifest(time, delivery), PushUpload(data, attempt, remote, gen, i, false)) =>
      if i >= |FilePieces(data)| { PublishStep(s, sid, data, attempt, remote, gen, i, time, delivery); }
    case (WritePushSidecar, PushSidecar(data, gen)) =>
      SidecarStep(s, sid, gen, Sha256(data));
    case _ =>
  }

  lemma FetchIsOk(store: Store, pub: map<(nat, nat), Manifest>, repo: nat, data: seq<Byte>, attempt: nat)
    requires StoreOk(store, pub)
    ensures PhaseOk(PushUpload(data, attempt, {}, 0, 0, false), repo, store, pub)
    ensures Get(store, ManifestKey(repo)).Ok? ==>
      var (obj, gen) := Get(store, ManifestKey(repo)).value;
      && obj.Json? && Published(pub, repo, gen, obj.manifest)
      && PhaseOk(PushUpload(data, attempt, HashesOf(obj.manifest), gen, 0, false), repo, store, pub)
  {
  }

  lemma FetchStep(s: State, sid: nat, data: seq<Byte>, attempt: nat)
    requires Inv(s) && Active(s, sid) && s.sessions[sid].phase == PushFetch(data, attempt)
    ensures Inv(StepPush(s, sid, Fetch))
  {
    hide StoreOk, PhaseOk;
    FetchIsOk(s.store, s.published, RepoOf(s, sid), data, attempt);
    match Get(s.store, ManifestKey(RepoOf(s, sid)))
    case Ok((obj, gen)) => PhaseStepKeepsInv(s, sid, PushUpload(data, attempt, HashesOf(obj.manifest), gen, 0, false));
    case Err(_) => PhaseStepKeepsInv(s, sid, PushUpload(data, attempt, {}, 0, 0, false));
  }

  lemma CheckStep(s: State, sid: nat, data: seq<Byte>, attempt: nat, remote: set<Hash>, gen: nat, i: nat)
    requires Inv(s) && Active(s, sid) && s.sessions[sid].phase == PushUpload(data, attempt, remote, gen, i, false)
    ensures Inv(StepPush(s, sid, CheckChunk))
  {
    hide StoreOk, SidecarOk, ReposAt, FilePieces;
    assert PhaseOk(s.sessions[sid].phase, RepoOf(s, sid), s.store, s.published);
    if i < |FilePieces(data)| {
      var hash := Sha256(FilePieces(data)[i]);
      if hash in remote && ChunkKey(hash) in s.store.data {
        assert HasChunk(s.store, hash);
        PhaseStepKeepsInv(s, sid, PushUpload(data, attempt, remote, gen, i + 1, false));
      } else {
        PhaseStepKeepsInv(s, sid, PushUpload(data, attempt, remote, gen, i, true));
      }
    }
  }

  lemma PutStep(s: State, sid: nat, data: seq<Byte>, attempt: nat, remote: set<Hash>, gen: nat, i: nat)
    requires Inv(s) && Active(s, sid) && s.sessions[sid].phase == PushUpload(data, attempt, remote, gen, i, true)
    requires i < |FilePieces(data)|
    ensures Inv(StepPush(s, sid, PutChunk))
  {
    hide StoreOk, SidecarOk, ReposAt, FilePieces;
    var piece := FilePieces(data)[i];
    var store' := Put(s.store, ChunkKey(Sha256(piece)), Raw(piece), Always).value.0;
    var path := s.sessions[sid].path;
    PutChunkKeepsStore(s.store, s.published, piece);
    var next := PushUpload(data, attempt, remote, gen, i + 1, false);
    assert PhaseOk(s.sessions[sid].phase, RepoOf(s, sid), s.store, s.published);
    assert PhaseOk(next, RepoOf(s, sid), store', s.published);
    hide PhaseOk, Grows;
    SessionStepKeepsInv(s, sid, store', s.published, s.locals[path], next);
    assert s.locals[path := s.locals[path]] == s.locals;
  }

  lemma UploadedIsStored(store: Store, pub: map<(nat, nat), Manifest>, repo: nat, data: seq<Byte>, time: nat,
                         attempt: nat, remote: set<Hash>, gen: nat, i: nat)
    requires PhaseOk(PushUpload(data, attempt, remote, gen, i, false), repo, store, pub) && i >= |FilePieces(data)|
    ensures Stored(store, ManifestFor(repo, data, time))
  {
    ManifestNamesPieces(repo, data, time);
    hide FilePieces, ManifestFor;
  }

  lemma PublishStep(s: State, sid: nat, data: seq<Byte>, attempt: nat, remote: set<Hash>, gen: nat, i: nat,
                    time: nat, delivery: Delivery)
    requires Inv(s) && Active(s, sid) && s.sessions[sid].phase == PushUpload(data, attempt, remote, gen, i, false)
    requires i >= |FilePieces(data)|
    ensures Inv(StepPush(s, sid, PutManifest(time, delivery)))
  {
    hide StoreOk, SidecarOk, ReposAt, FilePieces;
    var path, repo := s.sessions[sid].path, RepoOf(s, sid);
    var m := ManifestFor(repo, data, time);
    assert PhaseOk(s.sessions[sid].phase, repo, s.store, s.published);
    UploadedIsStored(s.store, s.published, repo, data, time, attempt, remote, gen, i);
    ManifestNamesPieces(repo, data, time);
    assert m.fileHash == Sha256(data);
    hide ManifestFor, Describes, Stored;
    match Put(s.store, ManifestKey(repo), Json(m), Expect(gen))
    case Err(_) => PhaseStepKeepsInv(s, sid, RetryOrFail(data, attempt));
    case Ok((store', newGen)) =>
      if delivery.RequestLost? {
        PhaseStepKeepsInv(s, sid, RetryOrFail(data, attempt));
      } else {
        PutManifestKeepsStore(s.store, s.published, repo, m, gen);
        var pub' := s.published[(repo, newGen) := m];
        var next := if delivery.Answered? then PushSidecar(data, newGen) else RetryOrFail(data, attempt);
        assert PhaseOk(next, repo, store', pub');
        SidecarSurvives(s.locals[path].sidecar, ReposAt(s.sessions, path), s.store, s.published, store', pub');
        assert s.locals[path := s.locals[path]] == s.locals;
        SessionStepKeepsInv(s, sid, store', pub', s.locals[path], next);
      }
  }

  lemma GrowsReflexive(store: Store, pub: map<(nat, nat), Manifest>)
    ensures Grows(store, pub, store, pub)
  {
  }

  /** Writing the sidecar at the end of a push or a pull. */
  lemma SidecarStep(s: State, sid: nat, gen: nat, hash: Hash)
    requires Inv(s) && Active(s, sid)
    requires (RepoOf(s, sid), gen) in s.published && s.published[(RepoOf(s, sid), gen)].fileHash == hash
    ensures var path := s.sessions[sid].path;
      var local' := s.locals[path].(sidecar := Some(SyncState(gen, hash)));
      Inv(SetPhase(s.(locals := s.locals[path := local']), sid, Idle))
  {
    var path := s.sessions[sid].path;
    var sidecar := Some(SyncState(gen, hash));
    assert RepoOf(s, sid) in ReposAt(s.sessions, path) && Recorded(sidecar, RepoOf(s, sid), s.published);
    hide StoreOk, Grows, ReposAt, Recorded;
    GrowsReflexive(s.store, s.published);
    SessionStepKeepsInv(s, sid, s.store, s.published, s.locals[path].(sidecar := sidecar), Idle);
  }

  // ---------------------------------------------------------------- pull steps

  /** The chunks a pull has at hand are exactly those of the local file, each under its hash. */
  lemma {:induction false} CacheHoldsContent(pieces: seq<seq<Byte>>)
    ensures forall hash <- CacheOf(pieces) :: CacheOf(pieces)[hash] == hash.content
    ensures forall hash :: hash in CacheOf(pieces) <==> hash.content in pieces
    decreases |pieces|
  {
    if pieces != [] {
      var front, last := pieces[..|pieces| - 1], pieces[|pieces| - 1];
      CacheHoldsContent(front);
      assert pieces == front + [last];
      assert forall hash: Hash :: hash == Sha256(hash.content);
    }
  }

  lemma {:induction false} ConcatSnoc(pieces: seq<seq<Byte>>, i: nat)
    requires i < |pieces|
    ensures Concat(pieces[..i + 1]) == Concat(pieces[..i]) + pieces[i]
    decreases i
  {
    if i == 0 {
      assert pieces[..1] == [pieces[0]] + [] && pieces[..0] == [];
      ConcatCons(pieces[0], []);
    } else {
      assert pieces[..i + 1] == [pieces[0]] + pieces[1..][..i] && pieces[..i] == [pieces[0]] + pieces[1..][..i - 1];
      ConcatCons(pieces[0], pieces[1..][..i]);
      ConcatCons(pieces[0], pieces[1..][..i - 1]);
      ConcatSnoc(pieces[1..], i - 1);
    }
  }

  /** The facts a running pull rests on: what it fetched is in the history, so every chunk it
      still needs is stored with the right content. */
  lemma PullFacts(s: State, repo: nat, gen: nat, m: Manifest)
    requires StoreOk(s.store, s.published) && Published(s.published, repo, gen, m)
    ensures |m.chunks| == |FilePieces(m.fileHash.content)| && m.totalSize == |m.fileHash.content|
    ensures forall i :: 0 <= i < |m.chunks| ==>
      var piece := FilePieces(m.fileHash.content)[i];
      && m.chunks[i].hash == Sha256(piece)
      && ChunkKey(m.chunks[i].hash) in s.store.data && s.store.data[ChunkKey(m.chunks[i].hash)] == Raw(piece)
    ensures Concat(FilePieces(m.fileHash.content)) == m.fileHash.content
  {
    ManifestNamesPieces(repo, m.fileHash.content, m.lastModified);
    PiecesCover(m.fileHash.content, DEFAULT_PARAMS);
    hide ManifestFor;
    forall i | 0 <= i < |m.chunks|
      ensures HasChunk(s.store, m.chunks[i].hash)
    {
      assert Stored(s.store, s.published[(repo, gen)]);
    }
  }

  /** What a running pull has read and put together so far. */
  lemma PullPhase(s: State, sid: nat, m: Manifest, gen: nat, cache: map<Hash, seq<Byte>>, i: nat, assembled: seq<Byte>)
    requires Inv(s) && Active(s, sid) && s.sessions[sid].phase == PullChunks(m, gen, cache, i, assembled)
    ensures Published(s.published, RepoOf(s, sid), gen, m) && StoreOk(s.store, s.published)
    ensures i <= |m.chunks| && i <= |FilePieces(m.fileHash.content)|
    ensures forall hash <- cache :: cache[hash] == hash.content
    ensures assembled == Concat(FilePieces(m.fileHash.content)[..i])
  {
    hide FilePieces, StoreOk;
    assert PhaseOk(s.sessions[sid].phase, RepoOf(s, sid), s.store, s.published);
  }

  /** While a pull has chunks left, the next one is there and extends the assembled prefix. */
  lemma NextChunkIsThere(s: State, sid: nat, m: Manifest, gen: nat, cache: map<Hash, seq<Byte>>, i: nat,
                         assembled: seq<Byte>)
    requires Inv(s) && Active(s, sid) && s.sessions[sid].phase == PullChunks(m, gen, cache, i, assembled)
    requires i < |m.chunks|
    ensures |m.chunks| == |FilePieces(m.fileHash.content)|
    ensures StepPull(s, sid, PullChunk)
         == SetPhase(s, sid, PullChunks(m, gen, cache, i + 1, assembled + FilePieces(m.fileHash.content)[i]))
  {
    hide FilePieces, StoreOk, Inv, Concat;
    PullPhase(s, sid, m, gen, cache, i, assembled);
    PullFacts(s, RepoOf(s, sid), gen, m);
  }

  /** When all chunks are in, the integrity check of the whole file succeeds. */
  lemma AssembledIsTheFile(s: State, sid: nat, m: Manifest, gen: nat, cache: map<Hash, seq<Byte>>, i: nat,
                           assembled: seq<Byte>)
    requires Inv(s) && Active(s, sid) && s.sessions[sid].phase == PullChunks(m, gen, cache, i, assembled)
    requires i >= |m.chunks|
    ensures assembled == m.fileHash.content
  {
    hide FilePieces, StoreOk, Inv, Concat;
    PullPhase(s, sid, m, gen, cache, i, assembled);
    PullFacts(s, RepoOf(s, sid), gen, m);
    var pieces := FilePieces(m.fileHash.content);
    assert pieces[..|pieces|] == pieces;
  }

  /** The whole-file check passes and the file is put in place. */
  lemma FinishStores(s: State, sid: nat, m: Manifest, gen: nat, cache: map<Hash, seq<Byte>>, i: nat,
                     assembled: seq<Byte>)
    requires Active(s, sid) && s.sessions[sid].phase == PullChunks(m, gen, cache, i, assembled)
    requires i >= |m.chunks| && assembled == m.fileHash.content
    ensures var path := s.sessions[sid].path;
      StepPull(s, sid, FinishPull)
        == SetPhase(s.(locals := s.locals[path := s.locals[path].(file := Some(assembled))]), sid, PullSidecar(m, gen))
  {
  }

  lemma PullKeepsInv(s: State, sid: nat, step: PullStep)
    requires Inv(s) && Active(s, sid)
    ensures Inv(StepPull(s, sid, step))
  {
    hide StoreOk, Grows, FilePieces;
    var path := s.sessions[sid].path;
    var local := s.locals[path];
    var phase := s.sessions[sid].phase;
    assert PhaseOk(phase, RepoOf(s, sid), s.store, s.published);
    match (step, phase)
    case (StartPull, Idle) =>
      FetchIsOk(s.store, s.published, RepoOf(s, sid), [], 0);
      match Get(s.store, ManifestKey(RepoOf(s, sid))) {
        case Ok((obj, gen)) => PhaseStepKeepsInv(s, sid, PullLocal(obj.manifest, gen));
        case Err(_) =>
      }
    case (ReadLocal, PullLocal(m, gen)) =>
      var cache := if local.file.Some? then CacheOf(FilePieces(local.file.value)) else map[];
      if local.file.Some? { CacheHoldsContent(FilePieces(local.file.value)); }
      PhaseStepKeepsInv(s, sid, PullChunks(m, gen, cache, 0, []));
    case (PullChunk, PullChunks(m, gen, cache, i, assembled)) =>
      if i < |m.chunks| {
        NextChunkIsThere(s, sid, m, gen, cache, i, assembled);
        ConcatSnoc(FilePieces(m.fileHash.content), i);
        PhaseStepKeepsInv(s, sid, PullChunks(m, gen, cache, i + 1, assembled + FilePieces(m.fileHash.content)[i]));
      }
    case (FinishPull, PullChunks(m, gen, cache, i, assembled)) =>
      if i >= |m.chunks| {
        AssembledIsTheFile(s, sid, m, gen, cache, i, assembled);
        GrowsReflexive(s.store, s.published);
        SessionStepKeepsInv(s, sid, s.store, s.published, local.(file := Some(assembled)), PullSidecar(m, gen));
      }
    case (WritePullSidecar, PullSidecar(m, gen)) =>
      SidecarStep(s, sid, gen, m.fileHash);
    case _ =>
  }

  // ---------------------------------------------------------------- status steps and runs

  lemma StatusKeepsInv(s: State, sid: nat, step: StatusStep)
    requires Inv(s) && Active(s, sid)
    ensures Inv(StepStatus(s, sid, step))
  {
    hide StoreOk, Grows, SidecarOk, ReposAt;
    var local := s.locals[s.sessions[sid].path];
    var phase := s.sessions[sid].phase;
    assert PhaseOk(phase, RepoOf(s, sid), s.store, s.published);
    match (step, phase)
    case (StartStatus, Idle) =>
      FetchIsOk(s.store, s.published, RepoOf(s, sid), [], 0);
      match Get(s.store, ManifestKey(RepoOf(s, sid))) {
        case Ok((obj, gen)) => PhaseStepKeepsInv(s, sid, StatusFile(obj.manifest, gen));
        case Err(_) =>
      }
    case (StatusRead, StatusFile(m, gen)) =>
      if local.file.None? || Sha256(local.file.value) == m.fileHash { PhaseStepKeepsInv(s, sid, Idle); }
      else { PhaseStepKeepsInv(s, sid, StatusSidecar(m, gen, Sha256(local.file.value))); }
    case (StatusDecide, StatusSidecar(_, _, _)) =>
      PhaseStepKeepsInv(s, sid, Idle);
    case _ =>
  }

  lemma EditKeepsInv(s: State, path: nat, file: Option<seq<Byte>>)
    requires Inv(s)
    ensures Inv(Step(s, Edit(path, file)))
  {
    hide StoreOk, PhaseOk, SidecarOk, ReposAt;
    if path in s.locals {
      var s' := Step(s, Edit(path, file));
      assert forall p <- s'.locals :: s'.locals[p].sidecar == s.locals[p].sidecar;
    }
  }

  lemma StepKeepsInv(s: State, e: Event)
    requires Inv(s)
    ensures Inv(Step(s, e))
  {
    hide Inv, StepPush, StepPull, StepStatus;
    match e
    case Push(sid, step) => if Active(s, sid) { PushKeepsInv(s, sid, step); }
    case Pull(sid, step) => if Active(s, sid) { PullKeepsInv(s, sid, step); }
    case Status(sid, step) => if Active(s, sid) { StatusKeepsInv(s, sid, step); }
    case Fail(sid) => if Active(s, sid) { PhaseStepKeepsInv(s, sid, Idle); }
    case Edit(path, file) => EditKeepsInv(s, path, file);
  }

  lemma {:induction false} RunKeepsInv(s: State, events: seq<Event>)
    requires Inv(s)
    ensures Inv(Run(s, events))
    decreases |events|
  {
    hide Inv, Step;
    if events != [] {
      StepKeepsInv(s, events[0]);
      RunKeepsInv(Step(s, events[0]), events[1..]);
    }
  }

  /** Reached from an initial state by some interleaving of pushes, pulls, status calls, edits
      and failures. */
  ghost predicate Reachable(s: State) {
    exists s0, events :: Initial(s0) && s == Run(s0, events)
  }

  lemma ReachableInv(s: State)
    requires Reachable(s)
    ensures Inv(s)
  {
    var s0, events :| Initial(s0) && s == Run(s0, events);
    InitialInv(s0);
    RunKeepsInv(s0, events);
  }

  lemma InitialInv(s: State)
    requires Initial(s)
    ensures Inv(s)
  {
  }

  // ---------------------------------------------------------------- what users see

  /** The remote never holds a manifest without its chunks: each one the current manifest names
      is stored, with the content its hash names, and together they are the file it describes. */
  lemma RemoteIsComplete(s: State, repo: nat)
    requires Reachable(s) && ManifestKey(repo) in s.store.data
    ensures s.store.data[ManifestKey(repo)].Json?
    ensures var m := s.store.data[ManifestKey(repo)].manifest;
      && (forall i :: 0 <= i < |m.chunks| ==>
            ChunkKey(m.chunks[i].hash) in s.store.data
            && s.store.data[ChunkKey(m.chunks[i].hash)] == Raw(m.chunks[i].hash.content))
      && Concat(seq(|m.chunks|, i requires 0 <= i < |m.chunks| => m.chunks[i].hash.content)) == m.fileHash.content
  {
    ReachableInv(s);
    var m := s.store.data[ManifestKey(repo)].manifest;
    PullFacts(s, repo, Generation(s.store, ManifestKey(repo)), m);
    hide FilePieces, StoreOk;
    assert seq(|m.chunks|, i requires 0 <= i < |m.chunks| => m.chunks[i].hash.content)
      == FilePieces(m.fileHash.content);
  }

  /** A pull accepts whatever is published, up to the size limit; the limit on the number of
      chunks never refuses a file that size allows. */
  lemma PullAcceptsBySize(s: State, sid: nat)
    requires Reachable(s) && Active(s, sid) && s.sessions[sid].phase == Idle
    requires ManifestKey(RepoOf(s, sid)) in s.store.data
    ensures s.store.data[ManifestKey(RepoOf(s, sid))].Json?
    ensures var m := s.store.data[ManifestKey(RepoOf(s, sid))].manifest;
      StepPull(s, sid, StartPull).sessions[sid].phase
        == if |m.fileHash.content| <= 10_737_418_240
           then PullLocal(m, Generation(s.store, ManifestKey(RepoOf(s, sid)))) else Idle
  {
    ReachableInv(s);
    FetchIsOk(s.store, s.published, RepoOf(s, sid), [], 0);
    hide StoreOk, PhaseOk, SidecarOk, FilePieces, Concat;
    var m := s.store.data[ManifestKey(RepoOf(s, sid))].manifest;
    PullFacts(s, RepoOf(s, sid), Generation(s.store, ManifestKey(RepoOf(s, sid))), m);
    if |m.fileHash.content| <= 10_737_418_240 {
      SizeLimitImpliesChunkLimit(m.fileHash.content);
    }
  }

  /** Whatever is pushed meanwhile, a running pull never meets a missing or damaged chunk, and
      it delivers byte for byte the file whose manifest it fetched. */
  lemma PullDelivers(s: State, sid: nat)
    requires Reachable(s) && Active(s, sid) && s.sessions[sid].phase.PullChunks?
    ensures var PullChunks(m, gen, _, i, _) := s.sessions[sid].phase;
      && Published(s.published, RepoOf(s, sid), gen, m)
      && (i < |m.chunks| ==> StepPull(s, sid, PullChunk).sessions[sid].phase.PullChunks?
                             && StepPull(s, sid, PullChunk).sessions[sid].phase.i == i + 1)
      && (i >= |m.chunks| ==>
            StepPull(s, sid, FinishPull).locals[s.sessions[sid].path].file == Some(m.fileHash.content)
            && StepPull(s, sid, FinishPull).sessions[sid].phase == PullSidecar(m, gen))
  {
    ReachableInv(s);
    hide Inv, StoreOk, FilePieces, Concat, CacheOf, StepPull;
    var PullChunks(m, gen, cache, i, assembled) := s.sessions[sid].phase;
    PullPhase(s, sid, m, gen, cache, i, assembled);
    if i < |m.chunks| {
      NextChunkIsThere(s, sid, m, gen, cache, i, assembled);
    } else {
      AssembledIsTheFile(s, sid, m, gen, cache, i, assembled);
      FinishStores(s, sid, m, gen, cache, i, assembled);
    }
  }

  /** All sessions at a path use one repository, which is for the callers to arrange. */
  ghost predicate OneRepository(s: State, path: nat) {
    forall a <- s.sessions, b <- s.sessions ::
      s.sessions[a].path == path && s.sessions[b].path == path ==> s.sessions[a].repo == s.sessions[b].repo
  }

  /** Then the sidecar is never ahead of that repository, and its hash is the one published there
      at its generation. */
  lemma SidecarIsHistory(s: State, sid: nat)
    requires Inv(s) && Active(s, sid) && OneRepository(s, s.sessions[sid].path)
    requires s.locals[s.sessions[sid].path].sidecar.Some?
    ensures var Some(state), repo := s.locals[s.sessions[sid].path].sidecar, RepoOf(s, sid);
      && state.generation <= Generation(s.store, ManifestKey(repo))
      && (repo, state.generation) in s.published && s.published[(repo, state.generation)].fileHash == state.fileHash
  {
    hide PhaseOk;
    var path := s.sessions[sid].path;
    assert SidecarOk(s.locals[path].sidecar, ReposAt(s.sessions, path), s.published);
    var repo :| repo in ReposAt(s.sessions, path) && Recorded(s.locals[path].sidecar, repo, s.published);
    assert repo == RepoOf(s, sid);
  }
}
