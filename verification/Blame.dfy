/** Blame: following a file back through its history and attributing each line. */
module Blame {
  import opened Bytes
  import opened Wrappers
  import opened EditScript
  import opened Lines
  import opened Diff

  type Oid = nat

  /** The file at the blamed path in one commit's tree. */
  datatype FileAt = Found(bytes: seq<Byte>) | Missing | Unreadable

  datatype Commit = Commit(parents: seq<Oid>, author: string, timestamp: int, file: FileAt)

  /** Commits by id; an id that is absent is missing or not a commit. */
  type History = map<Oid, Commit>

  datatype BlameLine = BlameLine(commitId: Oid, author: string, timestamp: int, lineNumber: nat, content: Line)

  datatype Error = ObjectNotFound | FileNotFound | Corrupt

  const MAX_DEPTH := 10_000

  const U32_MAX: nat := 0xFFFF_FFFF

  /** The content a missing file counts as. */
  function ContentOf(file: FileAt): (bytes: seq<Byte>)
    ensures file.Found? ==> bytes == file.bytes
    ensures !file.Found? ==> bytes == []
  {
    match file
    case Found(bytes) => bytes
    case _ => []
  }

  ghost function Version(h: History, oid: Oid): seq<Line>
    requires oid in h
  {
    LinesOf(ContentOf(h[oid].file))
  }

  // ---------------------------------------------------------------- matching lines

  predicate Covers(op: DiffOp, j: nat) {
    op.Equal? && op.newStart <= j < op.newStart + op.count
  }

  ghost predicate Unmatched(ops: seq<DiffOp>, j: nat) {
    forall op <- ops :: !Covers(op, j)
  }

  ghost predicate MapsOne(ops: seq<DiffOp>, m: Option<nat>, j: nat) {
    if m.None? then Unmatched(ops, j)
    else exists op <- ops :: Covers(op, j) && m.value == op.oldStart + (j - op.newStart)
  }

  /** The array from new to old line numbers. */
  method LineMap(ops: seq<DiffOp>, n: nat) returns (newToOld: seq<Option<nat>>)
    ensures |newToOld| == n && forall j :: 0 <= j < n ==> MapsOne(ops, newToOld[j], j)
  {
    var m := new Option<nat>[n](_ => None);
    for k := 0 to |ops|
      invariant forall j :: 0 <= j < n ==> MapsOne(ops[..k], m[j], j)
    {
      var op := ops[k];
      assert ops[..k + 1] == ops[..k] + [op];
      if op.Equal? {
        for i := 0 to op.count
          invariant forall j :: 0 <= j < n ==>
            if op.newStart <= j < op.newStart + i then m[j] == Some(op.oldStart + (j - op.newStart))
              else MapsOne(ops[..k], m[j], j)
        {
          if op.newStart + i < n {
            m[op.newStart + i] := Some(op.oldStart + i);
          }
        }
      }
      assert op in ops[..k + 1];
      MapStep(ops, k);
    }
    assert ops[..|ops|] == ops;
    newToOld := m[..];
  }

  lemma MapStep(ops: seq<DiffOp>, k: nat)
    requires k < |ops|
    ensures forall m: Option<nat>, j: nat :: MapsOne(ops[..k], m, j) && !Covers(ops[k], j) ==>
      MapsOne(ops[..k + 1], m, j)
  {
    assert ops[..k + 1] == ops[..k] + [ops[k]];
  }

  /** In a script every equal run pairs equal lines. */
  lemma {:induction false} EqualRunsMatch(ops: seq<DiffOp>, src: seq<Line>, dst: seq<Line>, op: DiffOp, q: nat)
    requires Walks(Actions(ops), src, dst, 0, 0) && op in ops && op.Equal? && q < op.count
    ensures op.oldStart + q < |src| && op.newStart + q < |dst|
    ensures src[op.oldStart + q] == dst[op.newStart + q]
    decreases |ops|
  {
    var front, last := ops[..|ops| - 1], ops[|ops| - 1];
    WalksConcat(Actions(front), OpActions(last), src, dst, 0, 0);
    if op in front {
      EqualRunsMatch(front, src, dst, op, q);
    } else {
      ActionFits(OpActions(last), src, dst, OldCount(Actions(front)), NewCount(Actions(front)), q);
    }
  }

  lemma {:induction false} ActionFits(acts: seq<LineAction>, src: seq<Line>, dst: seq<Line>, i: nat, j: nat, q: nat)
    requires Walks(acts, src, dst, i, j) && q < |acts| && acts[q].kind == Kept
    ensures acts[q].oldIdx < |src| && acts[q].newIdx < |dst| && src[acts[q].oldIdx] == dst[acts[q].newIdx]
    decreases |acts|
  {
    if q > 0 {
      ActionFits(acts[1..], src, dst, i + OldStep(acts[0]), j + NewStep(acts[0]), q - 1);
    }
  }

  /** So a line that maps to an old line is the same line there. */
  lemma MappedLineIsSame(ops: seq<DiffOp>, src: seq<Line>, dst: seq<Line>, m: Option<nat>, j: nat)
    requires IsScript(ops, src, dst) && MapsOne(ops, m, j) && m.Some? && j < |dst|
    ensures m.value < |src| && src[m.value] == dst[j]
  {
    hide Walks, Actions;
    var op :| op in ops && Covers(op, j) && m.value == op.oldStart + (j - op.newStart);
    EqualRunsMatch(ops, src, dst, op, j - op.newStart);
  }

  // ---------------------------------------------------------------- choosing a parent

  /** What `resolve_file_in_tree(..).unwrap_or_default()` sees, with every failure taken as empty. */
  /** A parent that cannot be read counts as an empty file when parents are compared. */
  function LenientContent(h: History, oid: Oid): seq<Byte> {
    if oid in h then ContentOf(h[oid].file) else []
  }

  lemma LenientMeans(h: History, oid: Oid)
    ensures oid in h && h[oid].file.Found? ==> LenientContent(h, oid) == h[oid].file.bytes
    ensures oid !in h || !h[oid].file.Found? ==> LenientContent(h, oid) == []
  {
  }

  ghost function Changing(ops: seq<DiffOp>): set<nat> {
    set k: nat | k < |ops| && !ops[k].Equal?
  }

  function Distance(ops: seq<DiffOp>): nat {
    if ops == [] then 0 else Distance(ops[..|ops| - 1]) + if ops[|ops| - 1].Equal? then 0 else 1
  }

  /** It is the number of operations that are not equal runs. */
  lemma {:induction false} DistanceCounts(ops: seq<DiffOp>)
    ensures Distance(ops) == |Changing(ops)|
    decreases |ops|
  {
    if ops == [] {
      assert Changing(ops) == {};
    } else {
      var front, last := ops[..|ops| - 1], ops[|ops| - 1];
      assert ops == front + [last];
      DistanceCounts(front);
      if last.Equal? {
        assert Changing(ops) == Changing(front);
      } else {
        assert Changing(ops) == Changing(front) + {|front|};
      }
    }
  }

  /** Counts are kept in 32 bits and stay at the top. */
  function Clamped(n: nat): nat { if n <= U32_MAX then n else U32_MAX }

  /** So below 2 to the 32 operations, which is always, fewer is fewer. */
  lemma ClampedKeepsOrder(m: nat, n: nat)
    requires m < 0x1_0000_0000 && n < 0x1_0000_0000
    ensures Clamped(m) < Clamped(n) <==> m < n
  {
  }

  lemma ClampedFits()
    ensures forall n :: Clamped(n) <= U32_MAX
  {
  }

  /** The first parent whose diff has the fewest operations that change something. */
  ghost predicate FirstBest(h: History, parents: seq<Oid>, current: seq<Byte>, diffs: seq<seq<DiffOp>>, b: nat) {
    && |diffs| == |parents| && b < |parents|
    && (forall k :: 0 <= k < |parents| ==> IsDiff(diffs[k], LinesOf(LenientContent(h, parents[k])), LinesOf(current)))
    && (forall k :: 0 <= k < |parents| ==> Clamped(Distance(diffs[b])) <= Clamped(Distance(diffs[k])))
    && (forall k :: 0 <= k < b ==> Clamped(Distance(diffs[b])) < Clamped(Distance(diffs[k])))
  }

  ghost predicate BestParent(h: History, parents: seq<Oid>, current: seq<Byte>, best: Oid) {
    exists diffs, b: nat :: b < |parents| && best == parents[b] && FirstBest(h, parents, current, diffs, b)
  }

  /** The parent that is followed: the only one, or the first best one of several. */
  ghost predicate Followed(h: History, oid: Oid, parent: Oid) {
    && oid in h && parent in h && parent in h[oid].parents
    && (|h[oid].parents| > 1 ==> BestParent(h, h[oid].parents, ContentOf(h[oid].file), parent))
  }

  /** `pick_best_parent`. */
  method PickBestParent(h: History, parents: seq<Oid>, current: seq<Byte>) returns (best: Oid)
    requires parents != []
    ensures best in parents && BestParent(h, parents, current, best)
  {
    hide IsDiff, Distance, LenientContent, Clamped;
    ClampedFits();
    best := parents[0];
    ghost var b: nat, diffs: seq<seq<DiffOp>> := 0, [];
    var bestOps := U32_MAX;
    for k := 0 to |parents|
      invariant |diffs| == k && b < |parents| && (b == 0 || b < k) && best == parents[b]
      invariant forall q :: 0 <= q < k ==> IsDiff(diffs[q], LinesOf(LenientContent(h, parents[q])), LinesOf(current))
      invariant bestOps <= U32_MAX
      invariant if b < k && bestOps < U32_MAX then bestOps == Clamped(Distance(diffs[b]))
        else bestOps == U32_MAX && b == 0
      invariant forall q :: 0 <= q < k ==> bestOps <= Clamped(Distance(diffs[q]))
      invariant forall q :: 0 <= q < b ==> bestOps < Clamped(Distance(diffs[q]))
    {
      var ops := DiffLines(LenientContent(h, parents[k]), current);
      diffs := diffs + [ops];
      var distance := Clamped(Distance(ops));
      if distance < bestOps {
        bestOps, best, b := distance, parents[k], k;
      }
    }
    assert FirstBest(h, parents, current, diffs, b);
  }

  // ---------------------------------------------------------------- where a line comes from

  datatype Attribution = Attribution(commitId: Oid, author: string, timestamp: int)

  /** Why the walk stopped following a line: no parent, the depth limit, or the diff to the
      parent that was followed does not match the line. */
  datatype Reason = Root | CutOff | Introduced

  /** Where the line stands in each version it was followed through, and why that ended. */
  datatype Origin = Origin(trail: seq<nat>, reason: Reason)

  /** A commit on the way back, with the one diff through which all lines came to it. */
  datatype Visit = Visit(oid: Oid, ops: seq<DiffOp>)

  ghost predicate Differ(h: History, child: Oid, parent: Oid)
    requires child in h && parent in h
  {
    ContentOf(h[child].file) != ContentOf(h[parent].file)
  }

  /** The visit after `child`: its followed parent, and, unless the file is unchanged, its diff. */
  ghost predicate Linked(h: History, child: Oid, visit: Visit) {
    && Followed(h, child, visit.oid) && child in h && visit.oid in h
    && (Differ(h, child, visit.oid) ==> IsDiff(visit.ops, Version(h, visit.oid), Version(h, child)))
  }

  /** The commits visited, newest first, each the followed parent of the one before. */
  ghost predicate Lineage(h: History, chain: seq<Visit>) {
    && chain != []
    && (forall k :: 0 <= k < |chain| ==> chain[k].oid in h)
    && (forall k :: 0 < k < |chain| ==> Linked(h, chain[k - 1].oid, chain[k]))
  }

  /** Line `i` of the child is line `j` of the parent: the file is unchanged, or the diff pairs them. */
  ghost predicate Carried(h: History, child: Oid, visit: Visit, i: nat, j: nat) {
    child in h && visit.oid in h && if Differ(h, child, visit.oid) then MapsOne(visit.ops, Some(j), i) else i == j
  }

  ghost predicate LineAt(h: History, oid: Oid, index: nat, line: Line) {
    oid in h && index < |Version(h, oid)| && Version(h, oid)[index] == line
  }

  /** The line, unchanged, from the head down to the last version of the trail. */
  ghost predicate Trail(h: History, chain: seq<Visit>, trail: seq<nat>, line: Line) {
    && 0 < |trail| <= |chain|
    && (forall k :: 0 <= k < |trail| ==> LineAt(h, chain[k].oid, trail[k], line))
    && (forall k :: 0 < k < |trail| ==> Carried(h, chain[k - 1].oid, chain[k], trail[k - 1], trail[k]))
  }

  /** Why a line is not followed beyond the `steps`-th commit. */
  ghost predicate ReasonOk(h: History, chain: seq<Visit>, steps: nat, index: nat, reason: Reason)
    requires Lineage(h, chain) && steps < |chain|
  {
    match reason
    case Root => h[chain[steps].oid].parents == []
    case CutOff => steps == 10_000
    case Introduced =>
      && steps + 1 < |chain| && Differ(h, chain[steps].oid, chain[steps + 1].oid)
      && Unmatched(chain[steps + 1].ops, index)
  }

  /** The attribution of line `orig` of the head version. */
  ghost predicate OriginOk(h: History, chain: seq<Visit>, orig: nat, line: Line, a: Attribution, o: Origin)
    requires Lineage(h, chain)
  {
    && Trail(h, chain, o.trail, line) && o.trail[0] == orig
    && a == AttributionOf(h, chain[|o.trail| - 1].oid)
    && ReasonOk(h, chain, |o.trail| - 1, o.trail[|o.trail| - 1], o.reason)
  }

  /** A line still being followed: its number in the head and in the current version. */
  datatype Pending = Pending(orig: nat, index: nat)

  ghost predicate Following(h: History, chain: seq<Visit>, lines: seq<Line>, p: Pending)
    requires Lineage(h, chain)
  {
    p.orig < |lines| && exists trail :: FollowedAlong(h, chain, lines[p.orig], p, trail)
  }

  ghost predicate FollowedAlong(h: History, chain: seq<Visit>, line: Line, p: Pending, trail: seq<nat>)
    requires Lineage(h, chain)
  {
    Trail(h, chain, trail, line) && |trail| == |chain| && trail[0] == p.orig && trail[|trail| - 1] == p.index
  }

  ghost predicate AllFollowing(h: History, chain: seq<Visit>, lines: seq<Line>, pending: seq<Pending>)
    requires Lineage(h, chain)
  {
    forall k :: 0 <= k < |pending| ==> Following(h, chain, lines, pending[k])
  }

  ghost predicate IsPending(pending: seq<Pending>, i: nat) {
    exists p <- pending :: p.orig == i
  }

  /** Pending lines are in order, and they are exactly those without an attribution. */
  ghost predicate Partition(attributions: seq<Option<Attribution>>, pending: seq<Pending>) {
    && (forall k, l :: 0 <= k < l < |pending| ==> pending[k].orig < pending[l].orig)
    && (forall i :: 0 <= i < |attributions| ==> (attributions[i].None? <==> IsPending(pending, i)))
  }

  ghost predicate AllAttributed(h: History, chain: seq<Visit>, lines: seq<Line>,
                                attributions: seq<Option<Attribution>>, origins: seq<Origin>)
    requires Lineage(h, chain)
  {
    && |attributions| == |origins| == |lines|
    && forall i :: 0 <= i < |lines| && attributions[i].Some? ==>
      OriginOk(h, chain, i, lines[i], attributions[i].value, origins[i])
  }

  lemma LongerChain(h: History, chain: seq<Visit>, visit: Visit, lines: seq<Line>,
                    attributions: seq<Option<Attribution>>, origins: seq<Origin>)
    requires Lineage(h, chain) && Linked(h, chain[|chain| - 1].oid, visit)
    requires AllAttributed(h, chain, lines, attributions, origins)
    ensures Lineage(h, chain + [visit]) && AllAttributed(h, chain + [visit], lines, attributions, origins)
  {
    hide Linked, LineAt, Carried;
    var longer := chain + [visit];
    LongerLineage(h, chain, visit);
    forall i | 0 <= i < |lines| && attributions[i].Some?
      ensures OriginOk(h, longer, i, lines[i], attributions[i].value, origins[i])
    {
      assert OriginOk(h, chain, i, lines[i], attributions[i].value, origins[i]);
      LongerTrail(h, chain, longer, origins[i].trail, lines[i]);
      hide Trail;
    }
  }

  lemma LongerLineage(h: History, chain: seq<Visit>, visit: Visit)
    requires Lineage(h, chain) && Linked(h, chain[|chain| - 1].oid, visit)
    ensures Lineage(h, chain + [visit])
  {
    assert visit.oid in h;
    hide Linked;
    var longer := chain + [visit];
    assert forall k :: 0 <= k < |chain| ==> longer[k] == chain[k];
  }

  lemma LongerTrail(h: History, chain: seq<Visit>, longer: seq<Visit>, trail: seq<nat>, line: Line)
    requires Trail(h, chain, trail, line) && chain <= longer
    ensures Trail(h, longer, trail, line)
  {
    hide LineAt, Carried;
    assert forall k :: 0 <= k < |chain| ==> longer[k] == chain[k];
  }

  lemma FollowingIsAt(h: History, chain: seq<Visit>, lines: seq<Line>, p: Pending)
    requires Lineage(h, chain) && Following(h, chain, lines, p)
    ensures p.orig < |lines| && LineAt(h, chain[|chain| - 1].oid, p.index, lines[p.orig])
  {
    hide LineAt, Carried;
  }

  /** A pending line found at `index` of the parent's version is followed into the parent. */
  lemma FollowIntoParent(h: History, chain: seq<Visit>, visit: Visit, lines: seq<Line>, p: Pending, index: nat)
    requires Lineage(h, chain) && Linked(h, chain[|chain| - 1].oid, visit)
    requires Following(h, chain, lines, p)
    requires LineAt(h, visit.oid, index, lines[p.orig]) && Carried(h, chain[|chain| - 1].oid, visit, p.index, index)
    ensures Lineage(h, chain + [visit]) && Following(h, chain + [visit], lines, Pending(p.orig, index))
  {
    LongerLineage(h, chain, visit);
    var trail :| FollowedAlong(h, chain, lines[p.orig], p, trail);
    hide LineAt, Carried, Linked, Lineage, Trail;
    TrailGrows(h, chain, visit, trail, lines[p.orig], index);
    assert FollowedAlong(h, chain + [visit], lines[p.orig], Pending(p.orig, index), trail + [index]);
  }

  lemma TrailGrows(h: History, chain: seq<Visit>, visit: Visit, trail: seq<nat>, line: Line, index: nat)
    requires Trail(h, chain, trail, line) && |trail| == |chain|
    requires LineAt(h, visit.oid, index, line) && Carried(h, chain[|chain| - 1].oid, visit, trail[|trail| - 1], index)
    ensures Trail(h, chain + [visit], trail + [index], line)
  {
    hide LineAt, Carried;
    var longer, all := trail + [index], chain + [visit];
    assert forall k :: 0 <= k < |trail| ==> longer[k] == trail[k] && all[k] == chain[k];
  }

  lemma SetOne(attributions: seq<Option<Attribution>>, next: seq<Pending>, p: Pending, rest: seq<Pending>,
               a: Attribution)
    requires Partition(attributions, next + ([p] + rest)) && p.orig < |attributions|
    ensures Partition(attributions[p.orig := Some(a)], next + rest)
  {
    var all, fewer := next + ([p] + rest), next + rest;
    assert all[|next|] == p;
    assert forall k :: 0 <= k < |fewer| ==> fewer[k] == all[if k < |next| then k else k + 1];
    forall i | 0 <= i < |attributions| && i != p.orig
      ensures attributions[i].None? <==> IsPending(fewer, i)
    {
      if q :| q in all && q.orig == i {
        assert q in fewer;
      }
    }
  }

  lemma MoveOne(attributions: seq<Option<Attribution>>, next: seq<Pending>, p: Pending, rest: seq<Pending>, index: nat)
    requires Partition(attributions, next + ([p] + rest))
    ensures Partition(attributions, (next + [Pending(p.orig, index)]) + rest)
  {
    var before, after := next + ([p] + rest), (next + [Pending(p.orig, index)]) + rest;
    assert |before| == |after| && forall k :: 0 <= k < |before| ==> before[k].orig == after[k].orig;
    forall i | 0 <= i < |attributions|
      ensures IsPending(before, i) <==> IsPending(after, i)
    {
      if q :| q in before && q.orig == i {
        var k :| 0 <= k < |before| && before[k] == q;
        assert after[k] in after && after[k].orig == i;
      }
      if q :| q in after && q.orig == i {
        var k :| 0 <= k < |after| && after[k] == q;
        assert before[k] in before && before[k].orig == i;
      }
    }
  }

  lemma TrailEnds(h: History, chain: seq<Visit>, longer: seq<Visit>, lines: seq<Line>, p: Pending, reason: Reason)
    returns (o: Origin)
    requires Lineage(h, chain) && Lineage(h, longer) && chain <= longer && Following(h, chain, lines, p)
    requires ReasonOk(h, longer, |chain| - 1, p.index, reason)
    ensures p.orig < |lines| && chain[|chain| - 1].oid in h
    ensures OriginOk(h, longer, p.orig, lines[p.orig], AttributionOf(h, chain[|chain| - 1].oid), o)
  {
    var trail := TrailOf(h, chain, lines, p);
    LongerTrail(h, chain, longer, trail, lines[p.orig]);
    hide *;
    MakesOrigin(h, longer, trail, lines[p.orig], reason);
    o := Origin(trail, reason);
  }

  lemma TrailOf(h: History, chain: seq<Visit>, lines: seq<Line>, p: Pending) returns (trail: seq<nat>)
    requires Lineage(h, chain) && Following(h, chain, lines, p)
    ensures p.orig < |lines| && chain[|chain| - 1].oid in h && Trail(h, chain, trail, lines[p.orig])
    ensures |trail| == |chain| > 0 && trail[0] == p.orig && trail[|trail| - 1] == p.index
  {
    trail :| FollowedAlong(h, chain, lines[p.orig], p, trail);
    hide Trail;
  }

  lemma MakesOrigin(h: History, chain: seq<Visit>, trail: seq<nat>, line: Line, reason: Reason)
    requires Lineage(h, chain) && Trail(h, chain, trail, line) && 0 < |trail| <= |chain|
    requires ReasonOk(h, chain, |trail| - 1, trail[|trail| - 1], reason)
    ensures chain[|trail| - 1].oid in h
    ensures OriginOk(h, chain, trail[0], line, AttributionOf(h, chain[|trail| - 1].oid), Origin(trail, reason))
  {
    hide Trail, ReasonOk;
  }

  /** Attributes a line that was followed along `chain`, a beginning of the longer chain. */
  lemma AttributeOne(h: History, chain: seq<Visit>, longer: seq<Visit>, lines: seq<Line>,
                     attributions: seq<Option<Attribution>>,
                     origins: seq<Origin>, p: Pending, reason: Reason) returns (a: Attribution, o: Origin)
    requires Lineage(h, chain) && Lineage(h, longer) && chain <= longer
    requires AllAttributed(h, longer, lines, attributions, origins) && Following(h, chain, lines, p)
    requires ReasonOk(h, longer, |chain| - 1, p.index, reason)
    ensures p.orig < |lines| && a == AttributionOf(h, chain[|chain| - 1].oid)
    ensures AllAttributed(h, longer, lines, attributions[p.orig := Some(a)], origins[p.orig := o])
  {
    o := TrailEnds(h, chain, longer, lines, p, reason);
    a := AttributionOf(h, chain[|chain| - 1].oid);
    hide *;
    AddOrigin(h, longer, lines, attributions, origins, p.orig, a, o);
  }

  lemma AddOrigin(h: History, chain: seq<Visit>, lines: seq<Line>, attributions: seq<Option<Attribution>>,
                  origins: seq<Origin>, i: nat, a: Attribution, o: Origin)
    requires Lineage(h, chain) && AllAttributed(h, chain, lines, attributions, origins)
    requires i < |lines| && OriginOk(h, chain, i, lines[i], a, o)
    ensures AllAttributed(h, chain, lines, attributions[i := Some(a)], origins[i := o])
  {
    hide OriginOk, Lineage;
  }

  function AttributionOf(h: History, oid: Oid): Attribution
    requires oid in h
  {
    Attribution(oid, h[oid].author, h[oid].timestamp)
  }

  /** The last commit of the chain has no parent, or the limit is reached. */
  ghost predicate WalkEnds(h: History, chain: seq<Visit>, reason: Reason)
    requires Lineage(h, chain)
  {
    match reason
    case Root => h[chain[|chain| - 1].oid].parents == []
    case CutOff => |chain| == 10_001
    case Introduced => false
  }

  lemma EndIsReason(h: History, chain: seq<Visit>, index: nat, reason: Reason)
    requires Lineage(h, chain) && WalkEnds(h, chain, reason)
    ensures ReasonOk(h, chain, |chain| - 1, index, reason)
  {
  }

  /** Attributes every pending line to the current commit: at a root, or at the depth limit. */
  method AttributeRest(h: History, pending: seq<Pending>, attributions0: seq<Option<Attribution>>, current: Oid,
                       ghost chain: seq<Visit>, ghost lines: seq<Line>, ghost origins0: seq<Origin>,
                       ghost reason: Reason)
    returns (attributions: seq<Option<Attribution>>, ghost origins: seq<Origin>)
    requires Lineage(h, chain) && current == chain[|chain| - 1].oid
    requires AllFollowing(h, chain, lines, pending) && Partition(attributions0, pending)
    requires AllAttributed(h, chain, lines, attributions0, origins0)
    requires WalkEnds(h, chain, reason)
    ensures AllAttributed(h, chain, lines, attributions, origins) && Partition(attributions, [])
  {
    hide OriginOk, AllAttributed, Partition, IsDiff, Trail, ReasonOk, Following;
    attributions, origins := attributions0, origins0;
    SizesAgree(h, chain, lines, attributions, origins);
    assert pending[0..] == pending && [] + pending == pending;
    for k := 0 to |pending|
      invariant |attributions| == |origins| == |lines|
      invariant AllAttributed(h, chain, lines, attributions, origins) && Partition(attributions, [] + pending[k..])
    {
      var p := pending[k];
      assert Following(h, chain, lines, p);
      assert pending[k..] == [p] + pending[k + 1..];
      EndIsReason(h, chain, p.index, reason);
      ghost var a, o := AttributeOne(h, chain, chain, lines, attributions, origins, p, reason);
      SetOne(attributions, [], p, pending[k + 1..], a);
      attributions := attributions[p.orig := Some(AttributionOf(h, current))];
      origins := origins[p.orig := o];
    }
    assert [] + pending[|pending|..] == [];
  }

  lemma SizesAgree(h: History, chain: seq<Visit>, lines: seq<Line>, attributions: seq<Option<Attribution>>,
                   origins: seq<Origin>)
    requires Lineage(h, chain) && AllAttributed(h, chain, lines, attributions, origins)
    ensures |attributions| == |origins| == |lines|
  {
  }

  /** One step of the walk: pending lines that the parent has too are followed into it, the
      others are attributed to the current commit. */
  method Divide(h: History, pending: seq<Pending>, newToOld: seq<Option<nat>>, attributions0: seq<Option<Attribution>>,
                current: Oid,
                ghost chain: seq<Visit>, ghost lines: seq<Line>, ghost origins0: seq<Origin>, ghost visit: Visit)
    returns (next: seq<Pending>, attributions: seq<Option<Attribution>>, ghost origins: seq<Origin>)
    requires Lineage(h, chain) && current == chain[|chain| - 1].oid
    requires AllFollowing(h, chain, lines, pending) && Partition(attributions0, pending)
    requires AllAttributed(h, chain, lines, attributions0, origins0)
    requires Linked(h, current, visit) && visit.oid in h && Differ(h, current, visit.oid)
    requires |newToOld| == |Version(h, current)|
    requires forall j :: 0 <= j < |newToOld| ==> MapsOne(visit.ops, newToOld[j], j)
    ensures Lineage(h, chain + [visit]) && AllFollowing(h, chain + [visit], lines, next)
    ensures Partition(attributions, next) && AllAttributed(h, chain + [visit], lines, attributions, origins)
  {
    hide OriginOk, AllAttributed, Partition, IsDiff, Trail, ReasonOk, Following, Linked, LineAt, Carried, MapsOne,
         Differ;
    next, attributions, origins := [], attributions0, origins0;
    ghost var longer := chain + [visit];
    LongerChain(h, chain, visit, lines, attributions, origins);
    SizesAgree(h, longer, lines, attributions, origins);
    assert [] + pending[0..] == pending;
    for k := 0 to |pending|
      invariant |attributions| == |origins| == |lines|
      invariant AllFollowing(h, longer, lines, next)
      invariant AllAttributed(h, longer, lines, attributions, origins) && Partition(attributions, next + pending[k..])
    {
      var p := pending[k];
      assert Following(h, chain, lines, p);
      assert pending[k..] == [p] + pending[k + 1..];
      FollowingIsAt(h, chain, lines, p);
      CurrentLine(h, current, p.index, lines[p.orig]);
      assert MapsOne(visit.ops, newToOld[p.index], p.index);
      match newToOld[p.index] {
        case Some(old_) =>
          CarriedByDiff(h, current, visit, p.index, old_, lines[p.orig]);
          FollowIntoParent(h, chain, visit, lines, p, old_);
          MoveOne(attributions, next, p, pending[k + 1..], old_);
          next := next + [Pending(p.orig, old_)];
        case None =>
          IntroducedHere(h, chain, visit, p.index);
          ghost var a, o := AttributeOne(h, chain, longer, lines, attributions, origins, p, Introduced);
          SetOne(attributions, next, p, pending[k + 1..], a);
          attributions := attributions[p.orig := Some(AttributionOf(h, current))];
          origins := origins[p.orig := o];
      }
    }
    assert next + pending[|pending|..] == next;
  }

  lemma CurrentLine(h: History, oid: Oid, index: nat, line: Line)
    requires LineAt(h, oid, index, line)
    ensures oid in h && index < |Version(h, oid)|
  {
  }

  /** A line that the diff pairs with a line of the parent is that line there. */
  lemma CarriedByDiff(h: History, child: Oid, visit: Visit, i: nat, j: nat, line: Line)
    requires child in h && visit.oid in h && Linked(h, child, visit) && Differ(h, child, visit.oid)
    requires MapsOne(visit.ops, Some(j), i) && LineAt(h, child, i, line)
    ensures Carried(h, child, visit, i, j) && LineAt(h, visit.oid, j, line)
  {
    DiffIsScript(visit.ops, Version(h, visit.oid), Version(h, child));
    hide IsDiff, IsScript, MapsOne;
    MappedLineIsSame(visit.ops, Version(h, visit.oid), Version(h, child), Some(j), i);
  }

  lemma IntroducedHere(h: History, chain: seq<Visit>, visit: Visit, index: nat)
    requires Lineage(h, chain) && Lineage(h, chain + [visit])
    requires visit.oid in h && Differ(h, chain[|chain| - 1].oid, visit.oid) && MapsOne(visit.ops, None, index)
    ensures ReasonOk(h, chain + [visit], |chain| - 1, index, Introduced)
  {
    assert (chain + [visit])[|chain| - 1] == chain[|chain| - 1];
    hide Lineage, Unmatched;
  }

  lemma DiffIsScript(ops: seq<DiffOp>, src: seq<Line>, dst: seq<Line>)
    requires IsDiff(ops, src, dst)
    ensures IsScript(ops, src, dst)
  {
  }

  /** The file did not change: every pending line is followed as it is. */
  lemma SameInParent(h: History, chain: seq<Visit>, visit: Visit, lines: seq<Line>, pending: seq<Pending>)
    requires Lineage(h, chain) && Linked(h, chain[|chain| - 1].oid, visit)
    requires AllFollowing(h, chain, lines, pending)
    requires visit.oid in h && !Differ(h, chain[|chain| - 1].oid, visit.oid)
    ensures Lineage(h, chain + [visit]) && AllFollowing(h, chain + [visit], lines, pending)
  {
    LongerLineage(h, chain, visit);
    hide Lineage, Following, Trail;
    forall k | 0 <= k < |pending|
      ensures Following(h, chain + [visit], lines, pending[k])
    {
      var p := pending[k];
      assert Following(h, chain, lines, p);
      FollowingIsAt(h, chain, lines, p);
      FollowIntoParent(h, chain, visit, lines, p, p.index);
    }
  }

  // ---------------------------------------------------------------- blame

  /** No object along the way is missing or unreadable. */
  ghost predicate Complete(h: History, head: Oid) {
    && head in h && h[head].file.Found?
    && forall oid <- h :: !h[oid].file.Unreadable? && forall parent <- h[oid].parents :: parent in h
  }

  function AttributionIn(line: BlameLine): Attribution {
    Attribution(line.commitId, line.author, line.timestamp)
  }

  /** The entry names the last commit of the trail, its author and its time. */
  ghost predicate NamesLast(h: History, chain: seq<Visit>, line: BlameLine, o: Origin)
    requires Lineage(h, chain)
  {
    && 0 < |o.trail| <= |chain|
    && var oid := chain[|o.trail| - 1].oid;
       line.commitId == oid && line.author == h[oid].author && line.timestamp == h[oid].timestamp
  }

  lemma OriginNamesLast(h: History, chain: seq<Visit>, orig: nat, text: Line, line: BlameLine, o: Origin)
    requires Lineage(h, chain) && OriginOk(h, chain, orig, text, AttributionIn(line), o)
    ensures NamesLast(h, chain, line, o)
  {
  }

  /** The result of `blame`: one entry for each line of the head version, in order, attributed
      to a commit of the lineage by its own origin. */
  ghost predicate IsBlame(h: History, head: Oid, result: seq<BlameLine>, chain: seq<Visit>, origins: seq<Origin>) {
    && head in h && h[head].file.Found?
    && Lineage(h, chain) && chain[0].oid == head && |chain| <= 10_001
    && |result| == |origins| == |Version(h, head)|
    && forall i :: 0 <= i < |result| ==>
      && result[i].lineNumber == i + 1 && result[i].content == Version(h, head)[i]
      && OriginOk(h, chain, i, Version(h, head)[i], AttributionIn(result[i]), origins[i])
      && NamesLast(h, chain, result[i], origins[i])
  }

  /** `blame`. Every line gets an attribution: the default for unattributed lines is never used. */
  method BlameFile(h: History, head: Oid) returns (r: Result<seq<BlameLine>, Error>)
    ensures r.Ok? ==> exists chain, origins :: IsBlame(h, head, r.value, chain, origins)
    ensures Complete(h, head) ==> r.Ok?
    ensures head !in h ==> r == Err(ObjectNotFound)
    ensures head in h && h[head].file.Missing? ==> r == Err(FileNotFound)
  {
    if head !in h { return Err(ObjectNotFound); }
    match h[head].file {
      case Missing => return Err(FileNotFound);
      case Unreadable => return Err(Corrupt);
      case Found(bytes) =>
        var lines := SplitLines(bytes);
        var walked, attributions;
        ghost var chain, origins;
        walked, attributions, chain, origins := WalkHistory(h, head, bytes, lines);
        if walked.Err? { return Err(walked.error); }
        var result := Collect(lines, attributions, head, h, chain, origins);
        r := Ok(result);
    }
  }

  lemma FollowedBy(h: History, oid: Oid, parent: Oid)
    requires oid in h && parent in h && parent in h[oid].parents
    requires |h[oid].parents| > 1 ==> BestParent(h, h[oid].parents, ContentOf(h[oid].file), parent)
    ensures Followed(h, oid, parent)
  {
  }

  /** The walk itself, up to the attributions of all lines. */
  method WalkHistory(h: History, head: Oid, content: seq<Byte>, lines: seq<Line>)
    returns (r: Result<(), Error>, attributions: seq<Option<Attribution>>, ghost chain: seq<Visit>,
             ghost origins: seq<Origin>)
    requires head in h && h[head].file == Found(content) && lines == LinesOf(content)
    ensures Lineage(h, chain) && chain[0].oid == head && |chain| <= 10_001
    ensures r.Ok? ==> AllAttributed(h, chain, lines, attributions, origins) && Partition(attributions, [])
    ensures Complete(h, head) ==> r.Ok?
  {
    hide OriginOk, AllAttributed, Partition, IsDiff, Trail, ReasonOk, AllFollowing, Followed, BestParent, MapsOne;
    var pending: seq<Pending>;
    pending, attributions, origins := Begin(h, head, lines);
    chain := [Visit(head, [])];
    var current, blob := head, content;
    var depth := 0;
    var finished := false;
    while depth < MAX_DEPTH && pending != [] && !finished
      invariant depth <= MAX_DEPTH && |chain| == depth + 1
      invariant Lineage(h, chain) && chain[0].oid == head
      invariant current == chain[|chain| - 1].oid && blob == ContentOf(h[current].file)
      invariant AllAttributed(h, chain, lines, attributions, origins)
      invariant !finished ==> AllFollowing(h, chain, lines, pending) && Partition(attributions, pending)
      invariant finished ==> Partition(attributions, [])
      decreases MAX_DEPTH - depth, !finished
    {
      var commit := h[current];
      if commit.parents == [] {
        attributions, origins := AttributeRest(h, pending, attributions, current, chain, lines, origins, Root);
        finished := true;
      } else {
        var parent := commit.parents[0];
        if |commit.parents| > 1 {
          parent := PickBestParent(h, commit.parents, blob);
        }
        if parent !in h { return Err(ObjectNotFound), attributions, chain, origins; }
        FollowedBy(h, current, parent);
        if h[parent].file.Unreadable? { return Err(Corrupt), attributions, chain, origins; }
        var parentContent := ContentOf(h[parent].file);
        ghost var visit;
        if parentContent == blob {
          visit := Visit(parent, []);
          SameInParent(h, chain, visit, lines, pending);
          LongerChain(h, chain, visit, lines, attributions, origins);
        } else {
          var ops := DiffLines(parentContent, blob);
          visit := Visit(parent, ops);
          var currentLines := SplitLines(blob);
          var newToOld := LineMap(ops, |currentLines|);
          pending, attributions, origins :=
            Divide(h, pending, newToOld, attributions, current, chain, lines, origins, visit);
        }
        chain := chain + [visit];
        current, blob := parent, parentContent;
        depth := depth + 1;
      }
    }
    if pending != [] && !finished {
      attributions, origins := AttributeRest(h, pending, attributions, current, chain, lines, origins, CutOff);
    }
    r := Ok(());
  }

  /** At the start every line is pending at its own number. */
  method Begin(h: History, head: Oid, lines: seq<Line>)
    returns (pending: seq<Pending>, attributions: seq<Option<Attribution>>, ghost origins: seq<Origin>)
    requires head in h && lines == Version(h, head)
    ensures AllFollowing(h, [Visit(head, [])], lines, pending) && Partition(attributions, pending)
    ensures AllAttributed(h, [Visit(head, [])], lines, attributions, origins)
  {
    pending := seq(|lines|, i requires 0 <= i < |lines| => Pending(i, i));
    attributions := seq(|lines|, i requires 0 <= i < |lines| => None);
    origins := seq(|lines|, i requires 0 <= i < |lines| => Origin([], Root));
    forall i | 0 <= i < |lines|
      ensures IsPending(pending, i)
    {
      assert pending[i] in pending && pending[i].orig == i;
    }
    forall k | 0 <= k < |pending|
      ensures Following(h, [Visit(head, [])], lines, pending[k])
    {
      assert FollowedAlong(h, [Visit(head, [])], lines[k], pending[k], [k]);
    }
  }

  /** The final list; the default attribution of the source is never needed. */
  method Collect(lines: seq<Line>, attributions: seq<Option<Attribution>>, head: Oid,
                 h: History, ghost chain: seq<Visit>, ghost origins: seq<Origin>) returns (result: seq<BlameLine>)
    requires head in h && h[head].file.Found? && lines == Version(h, head)
    requires Lineage(h, chain) && chain[0].oid == head && |chain| <= 10_001
    requires AllAttributed(h, chain, lines, attributions, origins) && Partition(attributions, [])
    ensures IsBlame(h, head, result, chain, origins)
  {
    hide OriginOk, NamesLast, Lineage;
    result := [];
    for i := 0 to |lines|
      invariant |result| == i
      invariant forall k :: 0 <= k < i ==>
        && result[k].lineNumber == k + 1 && result[k].content == lines[k]
        && OriginOk(h, chain, k, lines[k], AttributionIn(result[k]), origins[k])
        && NamesLast(h, chain, result[k], origins[k])
    {
      assert !IsPending([], i) && attributions[i].Some?;
      var a := attributions[i].value;
      assert a == Attribution(a.commitId, a.author, a.timestamp);
      var line := BlameLine(a.commitId, a.author, a.timestamp, i + 1, lines[i]);
      OriginNamesLast(h, chain, i, lines[i], line, origins[i]);
      result := result + [line];
    }
  }

  // ---------------------------------------------------------------- no two lines from one

  lemma {:induction false} KeptAt(ops: seq<DiffOp>, op: DiffOp, q: nat) returns (p: nat)
    requires op in ops && op.Equal? && q < op.count
    ensures p < |Actions(ops)| && Actions(ops)[p] == LineAction(Kept, op.oldStart + q, op.newStart + q)
    decreases |ops|
  {
    var front, last := ops[..|ops| - 1], ops[|ops| - 1];
    assert Actions(ops) == Actions(front) + OpActions(last);
    if op in front {
      p := KeptAt(front, op, q);
    } else {
      p := |Actions(front)| + q;
    }
  }

  /** In a walk kept lines never name an old line twice. */
  lemma {:induction false} KeptRises(acts: seq<LineAction>, src: seq<Line>, dst: seq<Line>, i: nat, j: nat, p: nat)
    requires Walks(acts, src, dst, i, j) && p < |acts| && acts[p].kind == Kept
    ensures acts[p].oldIdx >= i && acts[p].newIdx >= j
    ensures p > 0 && acts[0].kind == Kept ==> acts[p].oldIdx > acts[0].oldIdx
    decreases |acts|
  {
    if p > 0 {
      KeptRises(acts[1..], src, dst, i + OldStep(acts[0]), j + NewStep(acts[0]), p - 1);
    }
  }

  lemma {:induction false} KeptOnce(acts: seq<LineAction>, src: seq<Line>, dst: seq<Line>, i: nat, j: nat, p: nat,
                                    q: nat)
    requires Walks(acts, src, dst, i, j) && p < q < |acts| && acts[p].kind == Kept && acts[q].kind == Kept
    ensures acts[p].oldIdx < acts[q].oldIdx
    decreases |acts|
  {
    if p == 0 {
      KeptRises(acts, src, dst, i, j, q);
    } else {
      KeptOnce(acts[1..], src, dst, i + OldStep(acts[0]), j + NewStep(acts[0]), p - 1, q - 1);
    }
  }

  /** A diff pairs no old line with two new ones. */
  lemma PairedOnce(ops: seq<DiffOp>, src: seq<Line>, dst: seq<Line>, old_: nat, i: nat, j: nat)
    requires IsScript(ops, src, dst) && MapsOne(ops, Some(old_), i) && MapsOne(ops, Some(old_), j)
    ensures i == j
  {
    var a :| a in ops && Covers(a, i) && old_ == a.oldStart + (i - a.newStart);
    var b :| b in ops && Covers(b, j) && old_ == b.oldStart + (j - b.newStart);
    var p := KeptAt(ops, a, i - a.newStart);
    var q := KeptAt(ops, b, j - b.newStart);
    if p < q { KeptOnce(Actions(ops), src, dst, 0, 0, p, q); }
    if q < p { KeptOnce(Actions(ops), src, dst, 0, 0, q, p); }
  }

  /** So two lines whose trails are equally long and end at the same place are one line. */
  lemma {:induction false} TrailsStayApart(h: History, chain: seq<Visit>, one: seq<nat>, two: seq<nat>, x: Line,
                                           y: Line)
    requires Lineage(h, chain) && Trail(h, chain, one, x) && Trail(h, chain, two, y)
    requires |one| == |two| && one[|one| - 1] == two[|two| - 1]
    ensures one[0] == two[0]
    decreases |one|
  {
    var k := |one| - 1;
    if k > 0 {
      LastStep(h, chain, one, x);
      LastStep(h, chain, two, y);
      hide *;
      CarriedOnce(h, chain[k - 1].oid, chain[k], one[k - 1], two[k - 1], one[k]);
      ShorterTrail(h, chain, one, x);
      ShorterTrail(h, chain, two, y);
      TrailsStayApart(h, chain, one[..k], two[..k], x, y);
    }
  }

  lemma LastStep(h: History, chain: seq<Visit>, trail: seq<nat>, line: Line)
    requires Lineage(h, chain) && Trail(h, chain, trail, line) && |trail| > 1
    ensures var k := |trail| - 1;
      |trail| <= |chain|
      && Linked(h, chain[k - 1].oid, chain[k]) && Carried(h, chain[k - 1].oid, chain[k], trail[k - 1], trail[k])
  {
    hide Linked, Carried, LineAt;
  }

  lemma CarriedOnce(h: History, child: Oid, visit: Visit, p: nat, q: nat, j: nat)
    requires Linked(h, child, visit) && Carried(h, child, visit, p, j) && Carried(h, child, visit, q, j)
    ensures p == q
  {
    hide IsDiff, MapsOne;
    if Differ(h, child, visit.oid) {
      DiffIsScript(visit.ops, Version(h, visit.oid), Version(h, child));
      hide IsScript;
      PairedOnce(visit.ops, Version(h, visit.oid), Version(h, child), j, p, q);
    }
  }

  lemma ShorterTrail(h: History, chain: seq<Visit>, trail: seq<nat>, line: Line)
    requires Trail(h, chain, trail, line) && |trail| > 1
    ensures Trail(h, chain, trail[..|trail| - 1], line)
  {
    hide LineAt, Carried;
  }

  /** No two lines of the file are attributed to the same line of the same visited version. */
  lemma OriginsAreDistinct(h: History, head: Oid, result: seq<BlameLine>, chain: seq<Visit>, origins: seq<Origin>,
                           i: nat, j: nat)
    requires IsBlame(h, head, result, chain, origins) && i < j < |result|
    requires |origins[i].trail| == |origins[j].trail|
    ensures origins[i].trail[|origins[i].trail| - 1] != origins[j].trail[|origins[j].trail| - 1]
  {
    var x, y := Version(h, head)[i], Version(h, head)[j];
    assert Trail(h, chain, origins[i].trail, x) && Trail(h, chain, origins[j].trail, y);
    assert origins[i].trail[0] == i && origins[j].trail[0] == j;
    hide Trail, Lineage, IsBlame;
    if origins[i].trail[|origins[i].trail| - 1] == origins[j].trail[|origins[j].trail| - 1] {
      assert Lineage(h, chain) by { BlameHasLineage(h, head, result, chain, origins); }
      TrailsStayApart(h, chain, origins[i].trail, origins[j].trail, x, y);
    }
  }

  lemma BlameHasLineage(h: History, head: Oid, result: seq<BlameLine>, chain: seq<Visit>, origins: seq<Origin>)
    requires IsBlame(h, head, result, chain, origins)
    ensures Lineage(h, chain)
  {
  }
}
