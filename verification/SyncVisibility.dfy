/** Which steps of the sync protocol others can see, and what a push leaves behind when it fails. */
module SyncVisibility {
  import opened Bytes
  import opened Wrappers
  import opened Backend
  import opened Chunker
  import opened Sync

  /** What a pull or a status call of the repository would fetch: manifest and generation. */
  function Offer(s: State, repo: nat): Result<(Object, nat), Error> {
    Get(s.store, ManifestKey(repo))
  }

  /** The compare-and-swap at the end of a push attempt reaches the backend and is accepted. */
  predicate Publishes(s: State, e: Event) {
    && e.Push? && e.push.PutManifest? && !e.push.delivery.RequestLost? && Active(s, e.sid)
    && s.sessions[e.sid].phase.PushUpload? && !s.sessions[e.sid].phase.missing
    && s.sessions[e.sid].phase.i >= |FilePieces(s.sessions[e.sid].phase.data)|
    && s.sessions[e.sid].phase.gen == Generation(s.store, ManifestKey(RepoOf(s, e.sid)))
  }

  /** Exactly the accepted swaps change what some repository offers: one repository then offers
      the pushed file under its next generation. Uploading chunks, conflicts, lost requests,
      failures, pulls and edits change no offer. */
  lemma OnlyPublishingIsVisible(s: State, e: Event)
    ensures !Publishes(s, e) ==> forall repo :: Offer(Step(s, e), repo) == Offer(s, repo)
    ensures Publishes(s, e) ==>
      var repo, data := RepoOf(s, e.sid), s.sessions[e.sid].phase.data;
      && Offer(Step(s, e), repo)
         == Ok((Json(ManifestFor(repo, data, e.push.time)), Generation(s.store, ManifestKey(repo)) + 1))
      && Offer(Step(s, e), repo) != Offer(s, repo)
      && forall other :: other != repo ==> Offer(Step(s, e), other) == Offer(s, other)
  {
    hide FilePieces, CacheOf, ManifestFor, StepPull;
    match e
    case Push(sid, step) => if Active(s, sid) { PushVisible(s, sid, step); }
    case Pull(sid, step) => if Active(s, sid) { PullKeepsStore(s, sid, step); }
    case _ =>
  }

  lemma PushVisible(s: State, sid: nat, step: PushStep)
    requires Active(s, sid)
    ensures !Publishes(s, Push(sid, step)) ==> forall repo :: Offer(StepPush(s, sid, step), repo) == Offer(s, repo)
    ensures Publishes(s, Push(sid, step)) ==>
      var repo, data := RepoOf(s, sid), s.sessions[sid].phase.data;
      && Offer(StepPush(s, sid, step), repo)
         == Ok((Json(ManifestFor(repo, data, step.time)), Generation(s.store, ManifestKey(repo)) + 1))
      && forall other :: other != repo ==> Offer(StepPush(s, sid, step), other) == Offer(s, other)
  {
    hide FilePieces, ManifestFor;
  }

  lemma PullKeepsStore(s: State, sid: nat, step: PullStep)
    requires Active(s, sid)
    ensures StepPull(s, sid, step).store == s.store
  {
    hide FilePieces, CacheOf;
  }

  // ---------------------------------------------------------------- a whole push

  /** From here on the session pushes until it comes to rest after the last event. */
  ghost predicate PushesUntilRest(s: State, events: seq<Event>, sid: nat)
    decreases |events|
  {
    && Active(s, sid)
    && if events == [] then s.sessions[sid].phase == Idle
       else Pushing(s.sessions[sid].phase) && PushesUntilRest(Step(s, events[0]), events[1..], sid)
  }

  predicate Pushing(phase: Phase) {
    phase.PushFetch? || phase.PushUpload? || phase.PushSidecar?
  }

  /** The push ends with an error: it never gets to record its success. */
  ghost predicate NeverRecorded(s: State, events: seq<Event>, sid: nat)
    decreases |events|
  {
    events == [] ||
    (&& !(events[0] == Push(sid, WritePushSidecar) && Active(s, sid) && s.sessions[sid].phase.PushSidecar?)
     && NeverRecorded(Step(s, events[0]), events[1..], sid))
  }

  /** Some step of this session, whatever others do in between, changes what a repository offers. */
  ghost predicate ChangesOffer(s: State, events: seq<Event>, sid: nat)
    decreases |events|
  {
    events != [] &&
    (|| (Actor(events[0]) == Some(sid) && exists repo :: Offer(Step(s, events[0]), repo) != Offer(s, repo))
     || ChangesOffer(Step(s, events[0]), events[1..], sid))
  }

  /** A swap of this session is accepted, and the answer does not arrive. */
  ghost predicate LosesReply(s: State, events: seq<Event>, sid: nat)
    decreases |events|
  {
    events != [] &&
    (|| (Actor(events[0]) == Some(sid) && Publishes(s, events[0]) && events[0].push.delivery.ReplyLost?)
     || LosesReply(Step(s, events[0]), events[1..], sid))
  }

  /** The session fails when all that is left is to write the sidecar. */
  ghost predicate FailsToRecord(s: State, events: seq<Event>, sid: nat)
    decreases |events|
  {
    events != [] &&
    (|| (events[0] == Fail(sid) && Active(s, sid) && s.sessions[sid].phase.PushSidecar?)
     || FailsToRecord(Step(s, events[0]), events[1..], sid))
  }

  /** What one step means for a push. */
  lemma PushStepCases(s: State, e: Event, sid: nat)
    requires Active(s, sid) && Pushing(s.sessions[sid].phase)
    ensures Active(Step(s, e), sid)
    ensures var phase := Step(s, e).sessions[sid].phase;
      && (Actor(e) != Some(sid) ==> phase == s.sessions[sid].phase)
      && (phase.PushSidecar? && !s.sessions[sid].phase.PushSidecar? ==>
            Actor(e) == Some(sid) && Publishes(s, e) && e.push.delivery.Answered?)
      && (Actor(e) == Some(sid) && Publishes(s, e) ==>
            if phase.PushSidecar? then e.push.delivery.Answered? else e.push.delivery.ReplyLost?)
      && (s.sessions[sid].phase.PushSidecar? && !phase.PushSidecar? ==>
            phase == Idle && (e == Fail(sid) || e == Push(sid, WritePushSidecar)))
      && (s.sessions[sid].phase.PushSidecar? && Actor(e) == Some(sid) ==> !Publishes(s, e))
  {
    PlacesStay(s, e);
    if Actor(e) == Some(sid) {
      OwnStepCases(s, e, sid);
    } else {
      OthersLeaveSession(s, e, sid);
    }
    hide Step, Publishes;
  }

  lemma OwnStepCases(s: State, e: Event, sid: nat)
    requires Active(s, sid) && Pushing(s.sessions[sid].phase) && Actor(e) == Some(sid)
    ensures sid in Step(s, e).sessions
    ensures var phase := Step(s, e).sessions[sid].phase;
      && (phase.PushSidecar? && !s.sessions[sid].phase.PushSidecar? ==> Publishes(s, e) && e.push.delivery.Answered?)
      && (Publishes(s, e) ==> if phase.PushSidecar? then e.push.delivery.Answered? else e.push.delivery.ReplyLost?)
      && (s.sessions[sid].phase.PushSidecar? && !phase.PushSidecar? ==>
            phase == Idle && (e == Fail(sid) || e == Push(sid, WritePushSidecar)))
      && (s.sessions[sid].phase.PushSidecar? ==> !Publishes(s, e))
  {
    hide FilePieces, CacheOf, ManifestFor, HashesOf;
  }

  /** A failed push changes what others see exactly in two cases: the answer to an accepted swap
      was lost, or the push failed between its accepted swap and the sidecar. */
  lemma {:induction false} FailedPushIsVisible(s: State, events: seq<Event>, sid: nat)
    requires PushesUntilRest(s, events, sid) && NeverRecorded(s, events, sid)
    requires Active(s, sid) && !s.sessions[sid].phase.PushSidecar?
    ensures ChangesOffer(s, events, sid) <==> LosesReply(s, events, sid) || FailsToRecord(s, events, sid)
    decreases |events|
  {
    hide FilePieces, Step, Publishes;
    if events != [] {
      var e, rest := events[0], events[1..];
      OnlyPublishingIsVisible(s, e);
      PushStepCases(s, e, sid);
      if Step(s, e).sessions[sid].phase.PushSidecar? {
        UnrecordedEnd(Step(s, e), rest, sid);
      } else {
        FailedPushIsVisible(Step(s, e), rest, sid);
      }
    }
  }

  /** Once its swap is answered, a push that does not record it fails, and does nothing else. */
  lemma {:induction false} UnrecordedEnd(s: State, events: seq<Event>, sid: nat)
    requires PushesUntilRest(s, events, sid) && NeverRecorded(s, events, sid)
    requires Active(s, sid) && s.sessions[sid].phase.PushSidecar?
    ensures FailsToRecord(s, events, sid) && !LosesReply(s, events, sid) && !ChangesOffer(s, events, sid)
    decreases |events|
  {
    hide FilePieces, Step, Publishes;
    var e, rest := events[0], events[1..];
    OnlyPublishingIsVisible(s, e);
    PushStepCases(s, e, sid);
    if Step(s, e).sessions[sid].phase.PushSidecar? {
      UnrecordedEnd(Step(s, e), rest, sid);
    } else {
      assert rest == [];
    }
  }
}
