/** Runs of one session that nobody disturbs. */
module SyncRuns {
  import opened Bytes
  import opened Wrappers
  import opened Backend
  import opened Chunker
  import opened Sync
  import opened SyncInvariant

  /** The file a repository offers right now. */
  ghost function Offered(s: State, repo: nat): Option<seq<Byte>> {
    if ManifestKey(repo) in s.store.data && s.store.data[ManifestKey(repo)].Json?
    then Some(s.store.data[ManifestKey(repo)].manifest.fileHash.content) else None
  }

  lemma {:induction false} RunAppend(s: State, a: seq<Event>, b: seq<Event>)
    ensures Run(s, a + b) == Run(Run(s, a), b)
    decreases |a|
  {
    hide Step;
    if a == [] {
      assert a + b == b;
    } else {
      assert (a + b)[1..] == a[1..] + b;
      RunAppend(Step(s, a[0]), a[1..], b);
    }
  }

  lemma RunStep(s: State, e: Event, rest: seq<Event>)
    ensures Run(s, [e] + rest) == Run(Step(s, e), rest)
  {
    assert ([e] + rest)[1..] == rest;
  }

  lemma RunLast(s: State, events: seq<Event>, e: Event)
    ensures Run(s, events + [e]) == Step(Run(s, events), e)
  {
    hide Step;
    RunAppend(s, events, [e]);
    assert [e] + [] == [e];
    RunStep(Run(s, events), e, []);
  }

  /** Only one session's phase and the chunks in the store differ. */
  ghost predicate OnlyChunksAndPhase(s: State, t: State, sid: nat, phase: Phase) {
    && sid in s.sessions
    && t.sessions == s.sessions[sid := s.sessions[sid].(phase := phase)]
    && t.locals == s.locals && t.published == s.published
    && forall repo :: SameKey(s.store, t.store, ManifestKey(repo))
  }

  ghost predicate SameKey(store: Store, store': Store, key: Key) {
    Get(store, key) == Get(store', key) && Generation(store, key) == Generation(store', key)
  }

  ghost predicate AllBy(events: seq<Event>, sid: nat) {
    forall e <- events :: Actor(e) == Some(sid)
  }

  ghost predicate OnlyUploads(events: seq<Event>, sid: nat) {
    forall e <- events :: e.Push? && e.sid == sid && !e.push.PutManifest? && !e.push.WritePushSidecar?
  }


  lemma OnlyChunksTransitive(s: State, t: State, u: State, sid: nat, p: Phase, q: Phase)
    requires OnlyChunksAndPhase(s, t, sid, p) && OnlyChunksAndPhase(t, u, sid, q)
    ensures OnlyChunksAndPhase(s, u, sid, q)
  {
    assert s.sessions[sid := s.sessions[sid].(phase := p)][sid := s.sessions[sid].(phase := q)]
        == s.sessions[sid := s.sessions[sid].(phase := q)];
  }

  lemma {:induction false} UploadRest(s: State, sid: nat, data: seq<Byte>, attempt: nat, remote: set<Hash>, gen: nat,
                                      i: nat)
    returns (events: seq<Event>)
    requires Active(s, sid) && i <= |FilePieces(data)|
    requires s.sessions[sid].phase == PushUpload(data, attempt, remote, gen, i, false)
    ensures OnlyChunksAndPhase(s, Run(s, events), sid,
      PushUpload(data, attempt, remote, gen, |FilePieces(data)|, false))
    ensures OnlyUploads(events, sid)
    ensures AllRemote(s.store, data, remote, i) ==> Push(sid, PutChunk) !in events
    decreases |FilePieces(data)| - i
  {
    hide FilePieces, Run, StepPull, StepStatus, CacheOf;
    var goal := PushUpload(data, attempt, remote, gen, |FilePieces(data)|, false);
    if i == |FilePieces(data)| {
      events := [];
      RunNothing(s);
      assert s.sessions[sid := s.sessions[sid]] == s.sessions;
    } else {
      var t := Step(s, Push(sid, CheckChunk));
      var prefix := [Push(sid, CheckChunk)];
      RunStep(s, Push(sid, CheckChunk), []);
      RunNothing(t);
      assert prefix + [] == prefix;
      if t.sessions[sid].phase.missing {
        var u := Step(t, Push(sid, PutChunk));
        RunLast(s, prefix, Push(sid, PutChunk));
        prefix := prefix + [Push(sid, PutChunk)];
        t := u;
      }
      var next := PushUpload(data, attempt, remote, gen, i + 1, false);
      assert OnlyChunksAndPhase(s, t, sid, next);
      var rest := UploadRest(t, sid, data, attempt, remote, gen, i + 1);
      events := prefix + rest;
      RunAppend(s, prefix, rest);
      hide Step, StepPush, Active;
      OnlyChunksTransitive(s, t, Run(t, rest), sid, next, goal);
    }
  }

  lemma RunNothing(s: State)
    ensures Run(s, []) == s
  {
  }

  /** From the fetch of an attempt to the point where all chunks are uploaded. */
  lemma UploadFrom(s: State, sid: nat, data: seq<Byte>, attempt: nat) returns (events: seq<Event>, remote: set<Hash>)
    requires Inv(s) && Active(s, sid) && s.sessions[sid].phase == PushFetch(data, attempt)
    ensures OnlyUploads(events, sid)
    ensures OnlyChunksAndPhase(s, Run(s, events), sid,
      PushUpload(data, attempt, remote, Generation(s.store, ManifestKey(RepoOf(s, sid))), |FilePieces(data)|, false))
    ensures AllKnown(s, RepoOf(s, sid), data) ==> Push(sid, PutChunk) !in events
  {
    hide FilePieces, Run, StepPull, StepStatus, CacheOf, PhaseOk, SidecarOk, StoreOk, Describe, AllKnown;
    var repo := RepoOf(s, sid);
    FetchIsOk(s.store, s.published, repo, data, attempt);
    var t := Step(s, Push(sid, Fetch));
    remote := t.sessions[sid].phase.remote;
    var gen := Generation(s.store, ManifestKey(repo));
    assert t.sessions[sid].phase.gen == gen by { GenerationNeedsData(s, repo); }
    if AllKnown(s, repo, data) { KnownIsRemote(s, sid, data, attempt); }
    var upload := UploadRest(t, sid, data, attempt, remote, gen, 0);
    events := [Push(sid, Fetch)] + upload;
    RunStep(s, Push(sid, Fetch), upload);
    assert OnlyChunksAndPhase(s, t, sid, PushUpload(data, attempt, remote, gen, 0, false));
    hide Step, StepPush, Active;
    OnlyChunksTransitive(s, t, Run(t, upload), sid, t.sessions[sid].phase,
                         PushUpload(data, attempt, remote, gen, |FilePieces(data)|, false));
  }

  /** The manifest of the repository names every chunk of the file, and all of them are stored. */
  ghost predicate AllKnown(s: State, repo: nat, data: seq<Byte>) {
    && ManifestKey(repo) in s.store.data && s.store.data[ManifestKey(repo)].Json?
    && forall k :: 0 <= k < |FilePieces(data)| ==>
         && HasChunk(s.store, Sha256(FilePieces(data)[k]))
         && NamesChunk(s.store.data[ManifestKey(repo)].manifest, Sha256(FilePieces(data)[k]))
  }

  ghost predicate NamesChunk(m: Manifest, hash: Hash) {
    exists i :: 0 <= i < |m.chunks| && m.chunks[i].hash == hash
  }

  lemma KnownIsRemote(s: State, sid: nat, data: seq<Byte>, attempt: nat)
    requires Active(s, sid) && s.sessions[sid].phase == PushFetch(data, attempt) && AllKnown(s, RepoOf(s, sid), data)
    ensures var t := Step(s, Push(sid, Fetch));
      && t.sessions[sid].phase.PushUpload? && t.store == s.store
      && AllRemote(t.store, data, t.sessions[sid].phase.remote, 0)
  {
    hide FilePieces;
  }

  ghost predicate AllRemote(store: Store, data: seq<Byte>, remote: set<Hash>, i: nat) {
    forall k :: i <= k < |FilePieces(data)| ==>
      HasChunk(store, Sha256(FilePieces(data)[k])) && Sha256(FilePieces(data)[k]) in remote
  }

  /** From rest to the point where all chunks are uploaded, in one attempt. */
  lemma UploadAll(s: State, sid: nat) returns (events: seq<Event>, remote: set<Hash>)
    requires Inv(s) && Active(s, sid) && s.sessions[sid].phase == Idle
    requires s.locals[s.sessions[sid].path].file.Some?
    ensures OnlyUploads(events, sid)
    ensures var data := s.locals[s.sessions[sid].path].file.value;
      && OnlyChunksAndPhase(s, Run(s, events), sid,
           PushUpload(data, 1, remote, Generation(s.store, ManifestKey(RepoOf(s, sid))), |FilePieces(data)|, false))
      && (AllKnown(s, RepoOf(s, sid), data) ==> Push(sid, PutChunk) !in events)
  {
    hide FilePieces, Run, StepPull, StepStatus, CacheOf, Inv, Describe;
    var data := s.locals[s.sessions[sid].path].file.value;
    var start := Push(sid, StartPush);
    var t := Step(s, start);
    StepKeepsInv(s, start);
    var rest;
    rest, remote := UploadFrom(t, sid, data, 1);
    events := [start] + rest;
    RunStep(s, start, rest);
    assert OnlyChunksAndPhase(s, t, sid, PushFetch(data, 1));
    hide Step, StepPush, Active;
    OnlyChunksTransitive(s, t, Run(t, rest), sid, PushFetch(data, 1),
      PushUpload(data, 1, remote, Generation(s.store, ManifestKey(RepoOf(s, sid))), |FilePieces(data)|, false));
  }

  /** What an attempt leaves that is accepted and recorded: its file is offered under the next
      generation and named by the sidecar, and no other manifest, file or session is any different. */
  ghost predicate Completed(s: State, t: State, sid: nat, data: seq<Byte>, time: nat)
    requires Active(s, sid)
  {
    var path, repo := s.sessions[sid].path, RepoOf(s, sid);
    var g := Generation(s.store, ManifestKey(repo)) + 1;
    && t.sessions == s.sessions[sid := s.sessions[sid].(phase := Idle)]
    && t.locals == s.locals[path := s.locals[path].(sidecar := Some(SyncState(g, Sha256(data))))]
    && Get(t.store, ManifestKey(repo)) == Ok((Json(ManifestFor(repo, data, time)), g))
    && Generation(t.store, ManifestKey(repo)) == g
    && forall other :: other != repo ==> SameKey(s.store, t.store, ManifestKey(other))
  }

  /** What a completed push of a file leaves, from rest to rest. */
  ghost predicate Pushed(s: State, t: State, sid: nat, time: nat)
    requires Active(s, sid) && s.locals[s.sessions[sid].path].file.Some?
  {
    Completed(s, t, sid, s.locals[s.sessions[sid].path].file.value, time) && t.sessions == s.sessions
  }

  /** The last two steps of a push, after nothing but uploads. */
  lemma PublishAndRecord(s: State, t: State, sid: nat, data: seq<Byte>, attempt: nat, remote: set<Hash>, time: nat)
    requires Active(s, sid)
    requires OnlyChunksAndPhase(s, t, sid,
      PushUpload(data, attempt, remote, Generation(s.store, ManifestKey(RepoOf(s, sid))), |FilePieces(data)|, false))
    ensures Completed(s, Step(Step(t, Push(sid, PutManifest(time, Answered))), Push(sid, WritePushSidecar)), sid,
                      data, time)
  {
    hide FilePieces, ManifestFor, StepPull, StepStatus;
    var repo := RepoOf(s, sid);
    assert SameKey(s.store, t.store, ManifestKey(repo));
    var t1 := Step(t, Push(sid, PutManifest(time, Answered)));
    var g := Generation(s.store, ManifestKey(repo)) + 1;
    assert t1.sessions == s.sessions[sid := s.sessions[sid].(phase := PushSidecar(data, g))];
    var u := Step(t1, Push(sid, WritePushSidecar));
    assert u.store == t1.store && u.sessions == s.sessions[sid := s.sessions[sid].(phase := Idle)];
    hide Step, StepPush;
    forall other | other != repo
      ensures SameKey(s.store, t1.store, ManifestKey(other))
    {
      assert SameKey(s.store, t.store, ManifestKey(other));
    }
  }

  lemma CompletedFromRest(s: State, t: State, sid: nat, data: seq<Byte>, time: nat)
    requires Active(s, sid) && s.sessions[sid].phase == Idle && s.locals[s.sessions[sid].path].file == Some(data)
    requires Completed(s, t, sid, data, time)
    ensures Pushed(s, t, sid, time)
  {
    assert s.sessions[sid := s.sessions[sid]] == s.sessions;
    hide Get, Generation, ManifestFor, SameKey;
  }

  /** A push that nobody disturbs succeeds: it publishes the file under the next generation and
      records it in the sidecar, and leaves everything else as it was. If the manifest it fetches
      names all its chunks and they are stored, it uploads none. */
  lemma UndisturbedPush(s: State, sid: nat, time: nat) returns (events: seq<Event>)
    requires Inv(s) && Active(s, sid) && s.sessions[sid].phase == Idle
    requires s.locals[s.sessions[sid].path].file.Some?
    ensures AllBy(events, sid)
    ensures Pushed(s, Run(s, events), sid, time)
    ensures AllKnown(s, RepoOf(s, sid), s.locals[s.sessions[sid].path].file.value) ==> Push(sid, PutChunk) !in events
  {
    var data := s.locals[s.sessions[sid].path].file.value;
    var upload, remote := UploadAll(s, sid);
    var publish, record := Push(sid, PutManifest(time, Answered)), Push(sid, WritePushSidecar);
    events := upload + [publish] + [record];
    hide *;
    RunLast(s, upload, publish);
    RunLast(s, upload + [publish], record);
    PublishAndRecord(s, Run(s, upload), sid, data, 1, remote, time);
    CompletedFromRest(s, Run(s, events), sid, data, time);
    PushIsOwn(upload, sid, time);
  }

  /** A file that is offered already is pushed again without uploading a single chunk. */
  lemma OfferedIsKnown(s: State, repo: nat, data: seq<Byte>)
    requires Inv(s) && Offered(s, repo) == Some(data)
    ensures AllKnown(s, repo, data)
  {
    CurrentIsPublished(s, repo);
    var m := s.store.data[ManifestKey(repo)].manifest;
    PullFacts(s, repo, Generation(s.store, ManifestKey(repo)), m);
    hide Inv, FilePieces, StoreOk, Concat;
    forall k | 0 <= k < |FilePieces(data)|
      ensures HasChunk(s.store, Sha256(FilePieces(data)[k])) && NamesChunk(m, Sha256(FilePieces(data)[k]))
    {
      assert m.chunks[k].hash == Sha256(FilePieces(data)[k]);
    }
  }

  // ---------------------------------------------------------------- attempts

  /** An attempt that is refused because someone else has published: the first and the second are
      followed by another one on the same file, the third ends the push. */
  lemma RefusedAttempt(s: State, sid: nat, data: seq<Byte>, attempt: nat, remote: set<Hash>, gen: nat, time: nat,
                       delivery: Delivery)
    requires Active(s, sid)
    requires s.sessions[sid].phase == PushUpload(data, attempt, remote, gen, |FilePieces(data)|, false)
    requires gen != Generation(s.store, ManifestKey(RepoOf(s, sid)))
    ensures Step(s, Push(sid, PutManifest(time, delivery)))
         == SetPhase(s, sid, if attempt < 3 then PushFetch(data, attempt + 1) else Idle)
  {
    hide FilePieces, ManifestFor;
  }

  /** From the fetch of whatever attempt, if nobody disturbs it, the push succeeds after all. */
  lemma AttemptCanSucceed(s: State, sid: nat, data: seq<Byte>, attempt: nat, time: nat) returns (events: seq<Event>)
    requires Inv(s) && Active(s, sid) && s.sessions[sid].phase == PushFetch(data, attempt)
    ensures AllBy(events, sid) && Completed(s, Run(s, events), sid, data, time)
  {
    var upload, remote := UploadFrom(s, sid, data, attempt);
    var publish, record := Push(sid, PutManifest(time, Answered)), Push(sid, WritePushSidecar);
    events := upload + [publish] + [record];
    hide *;
    RunLast(s, upload, publish);
    RunLast(s, upload + [publish], record);
    PublishAndRecord(s, Run(s, upload), sid, data, attempt, remote, time);
    PushIsOwn(upload, sid, time);
  }

  lemma UploadsAreOwn(upload: seq<Event>, sid: nat, rest: seq<Event>)
    requires OnlyUploads(upload, sid) && forall e <- rest :: Actor(e) == Some(sid)
    ensures AllBy(upload + rest, sid)
  {
  }

  lemma PushIsOwn(upload: seq<Event>, sid: nat, time: nat)
    requires OnlyUploads(upload, sid)
    ensures var events := upload + [Push(sid, PutManifest(time, Answered))] + [Push(sid, WritePushSidecar)];
      AllBy(events, sid) && (Push(sid, PutChunk) in events ==> Push(sid, PutChunk) in upload)
  {
  }

  lemma PublishAndFail(s: State, t: State, sid: nat, data: seq<Byte>, remote: set<Hash>, time: nat)
    requires Active(s, sid) && s.sessions[sid].phase == Idle
    requires OnlyChunksAndPhase(s, t, sid,
      PushUpload(data, 1, remote, Generation(s.store, ManifestKey(RepoOf(s, sid))), |FilePieces(data)|, false))
    ensures var repo := RepoOf(s, sid);
      var u := Step(Step(t, Push(sid, PutManifest(time, ReplyLost))), Fail(sid));
      && u.sessions == s.sessions && u.locals == s.locals
      && Get(u.store, ManifestKey(repo))
         == Ok((Json(ManifestFor(repo, data, time)), Generation(s.store, ManifestKey(repo)) + 1))
  {
    hide FilePieces, ManifestFor, StepPull, StepStatus;
    assert SameKey(s.store, t.store, ManifestKey(RepoOf(s, sid)));
    var t1 := Step(t, Push(sid, PutManifest(time, ReplyLost)));
    assert t1.sessions == s.sessions[sid := s.sessions[sid].(phase := PushFetch(data, 2))];
    assert Step(t1, Fail(sid)).sessions == s.sessions;
  }

  /** A push whose swap is accepted while the answer is lost, and which then fails to reach the
      backend again: it ends in an error and records nothing, and yet it has published the file. */
  lemma LostReplyPublishes(s: State, sid: nat, time: nat) returns (events: seq<Event>)
    requires Inv(s) && Active(s, sid) && s.sessions[sid].phase == Idle
    requires s.locals[s.sessions[sid].path].file.Some?
    ensures AllBy(events, sid) && Push(sid, WritePushSidecar) !in events
    ensures var repo, data := RepoOf(s, sid), s.locals[s.sessions[sid].path].file.value;
      var t := Run(s, events);
      && t.sessions == s.sessions && t.locals == s.locals
      && Get(t.store, ManifestKey(repo))
         == Ok((Json(ManifestFor(repo, data, time)), Generation(s.store, ManifestKey(repo)) + 1))
  {
    var upload, remote := UploadAll(s, sid);
    var publish := Push(sid, PutManifest(time, ReplyLost));
    events := upload + [publish] + [Fail(sid)];
    UploadsAreOwn(upload, sid, [publish, Fail(sid)]);
    assert upload + [publish] + [Fail(sid)] == upload + [publish, Fail(sid)];
    assert Push(sid, WritePushSidecar) !in upload;
    hide *;
    RunLast(s, upload, publish);
    RunLast(s, upload + [publish], Fail(sid));
    PublishAndFail(s, Run(s, upload), sid, s.locals[s.sessions[sid].path].file.value, remote, time);
  }

  /** Without deletes, a key without data has never been written. */
  lemma GenerationNeedsData(s: State, repo: nat)
    requires Inv(s)
    ensures ManifestKey(repo) !in s.store.data ==> Generation(s.store, ManifestKey(repo)) == 0
  {
  }

  lemma {:induction false} DownloadRest(s: State, sid: nat, m: Manifest, gen: nat, cache: map<Hash, seq<Byte>>, i: nat,
                                        assembled: seq<Byte>)
    returns (events: seq<Event>)
    requires Inv(s) && Active(s, sid) && s.sessions[sid].phase == PullChunks(m, gen, cache, i, assembled)
    ensures i <= |m.chunks|
    ensures Inv(Run(s, events))
    ensures Run(s, events) == SetPhase(s, sid, PullChunks(m, gen, cache, |m.chunks|, m.fileHash.content))
    decreases |m.chunks| - i
  {
    hide FilePieces, Run, StepPush, StepPull, StepStatus, CacheOf, Inv, Concat;
    PullPhase(s, sid, m, gen, cache, i, assembled);
    if i == |m.chunks| {
      events := [];
      RunNothing(s);
      AssembledIsTheFile(s, sid, m, gen, cache, i, assembled);
      assert s.sessions[sid := s.sessions[sid]] == s.sessions;
    } else {
      var e := Pull(sid, PullChunk);
      NextChunkIsThere(s, sid, m, gen, cache, i, assembled);
      StepKeepsInv(s, e);
      var t := Step(s, e);
      var more := assembled + FilePieces(m.fileHash.content)[i];
      var rest := DownloadRest(t, sid, m, gen, cache, i + 1, more);
      events := [e] + rest;
      RunStep(s, e, rest);
      SetPhaseTwice(s, sid, t.sessions[sid].phase, PullChunks(m, gen, cache, |m.chunks|, m.fileHash.content));
    }
  }

  lemma SetPhaseTwice(s: State, sid: nat, p: Phase, q: Phase)
    requires sid in s.sessions
    ensures SetPhase(SetPhase(s, sid, p), sid, q) == SetPhase(s, sid, q)
  {
    assert s.sessions[sid := s.sessions[sid].(phase := p)][sid := s.sessions[sid].(phase := q)]
        == s.sessions[sid := s.sessions[sid].(phase := q)];
  }

  /** An undisturbed pull puts the offered file in place and records it in the sidecar. */
  lemma UndisturbedPull(s: State, sid: nat) returns (events: seq<Event>)
    requires Inv(s) && Active(s, sid) && s.sessions[sid].phase == Idle
    requires Offered(s, RepoOf(s, sid)).Some? && |Offered(s, RepoOf(s, sid)).value| <= MAX_MANIFEST_TOTAL_SIZE
    ensures var path, repo := s.sessions[sid].path, RepoOf(s, sid);
      var data := Offered(s, repo).value;
      Run(s, events) == s.(locals := s.locals[path :=
        Local(Some(data), Some(SyncState(Generation(s.store, ManifestKey(repo)), Sha256(data))))])
  {
    hide FilePieces, Run, StepPush, StepStatus, CacheOf, PhaseOk, SidecarOk, StoreOk, Concat, Inv;
    var path, repo := s.sessions[sid].path, RepoOf(s, sid);
    var gen := Generation(s.store, ManifestKey(repo));
    var m := s.store.data[ManifestKey(repo)].manifest;
    CurrentIsPublished(s, repo);
    PullFacts(s, repo, gen, m);
    SizeLimitImpliesChunkLimit(m.fileHash.content);
    var e1, e2 := Pull(sid, StartPull), Pull(sid, ReadLocal);
    StepKeepsInv(s, e1);
    var t1 := Step(s, e1);
    assert |m.chunks| <= MAX_MANIFEST_CHUNKS by { PiecesOfFile(m.fileHash.content); }
    assert t1 == SetPhase(s, sid, PullLocal(m, gen));
    StepKeepsInv(t1, e2);
    var t2 := Step(t1, e2);
    assert t2.sessions[sid].phase.PullChunks?;
    var cache := t2.sessions[sid].phase.cache;
    assert t2 == SetPhase(t1, sid, PullChunks(m, gen, cache, 0, []));
    var download := DownloadRest(t2, sid, m, gen, cache, 0, []);
    var t3 := Run(t2, download);
    FinishStores(t3, sid, m, gen, cache, |m.chunks|, m.fileHash.content);
    var e3, e4 := Pull(sid, FinishPull), Pull(sid, WritePullSidecar);
    var t4 := Step(t3, e3);
    var t5 := Step(t4, e4);
    events := [e1] + ([e2] + (download + [e3] + [e4]));
    RunStep(s, e1, [e2] + (download + [e3] + [e4]));
    RunStep(t1, e2, download + [e3] + [e4]);
    RunLast(t2, download + [e3], e4);
    RunLast(t2, download, e3);
    assert t5.sessions == s.sessions;
    assert t5.locals == s.locals[path := Local(Some(m.fileHash.content), Some(SyncState(gen, m.fileHash)))];
  }

  lemma PiecesOfFile(data: seq<Byte>)
    ensures FilePieces(data) == Pieces(data, DEFAULT_PARAMS)
  {
  }

  lemma CurrentIsPublished(s: State, repo: nat)
    requires Inv(s) && Offered(s, repo).Some?
    ensures StoreOk(s.store, s.published)
    ensures var key := ManifestKey(repo);
      Published(s.published, repo, Generation(s.store, key), s.store.data[key].manifest)
  {
  }

  /** Push here, pull there: another path of the same repository gets the same bytes, and both
      sidecars name them. */
  lemma PushThenPull(s: State, from: nat, to: nat, time: nat) returns (events: seq<Event>)
    requires Inv(s) && Active(s, from) && Active(s, to)
    requires s.sessions[from].phase == Idle && s.sessions[to].phase == Idle
    requires s.sessions[from].path != s.sessions[to].path && RepoOf(s, from) == RepoOf(s, to)
    requires s.locals[s.sessions[from].path].file.Some?
    requires |s.locals[s.sessions[from].path].file.value| <= MAX_MANIFEST_TOTAL_SIZE
    ensures var t := Run(s, events);
      var there := s.sessions[to].path;
      there in t.locals && t.locals[there].file == s.locals[s.sessions[from].path].file
      && t.locals[there].sidecar.Some? && s.sessions[from].path in t.locals
      && t.locals[there].sidecar == t.locals[s.sessions[from].path].sidecar
  {
    var push := UndisturbedPush(s, from, time);
    RunKeepsInv(s, push);
    var t := Run(s, push);
    hide Inv, Run, FilePieces;
    var pull := UndisturbedPull(t, to);
    events := push + pull;
    RunAppend(s, push, pull);
  }
}
