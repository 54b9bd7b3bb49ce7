/** Unified-diff hunks: grouping changes, cutting them out with context, and applying them. */
module Hunks {
  import Slices
  import opened Wrappers
  import opened Arithmetic
  import opened Bytes
  import opened EditScript
  import opened EditDistance
  import opened Lines
  import opened Diff

  datatype HunkLine<T> = Context(line: T) | Addition(line: T) | Deletion(line: T)

  /** Starts are 1-based. */
  datatype Hunk<T> = Hunk(oldStart: nat, oldCount: nat, newStart: nat, newCount: nat, lines: seq<HunkLine<T>>)

  /** First and last changed action of a hunk. */
  datatype Group = Group(start: nat, end: nat)

  function SaturatingSub(a: nat, b: nat): nat { if a <= b then 0 else a - b }

  // ---------------------------------------------------------------- changes and groups

  /** `collect_change_indices`, from action `k` on. */
  function ChangesFrom(acts: seq<LineAction>, k: nat): seq<nat>
    requires k <= |acts|
    decreases |acts| - k
  {
    if k == |acts| then []
    else if acts[k].kind == Kept then ChangesFrom(acts, k + 1)
    else [k] + ChangesFrom(acts, k + 1)
  }

  ghost predicate AllKept(acts: seq<LineAction>, k: nat, l: nat) {
    forall i :: k <= i < l && i < |acts| ==> acts[i].kind == Kept
  }

  lemma {:induction false} NextChange(acts: seq<LineAction>, k: nat)
    requires k <= |acts|
    ensures ChangesFrom(acts, k) == [] ==> AllKept(acts, k, |acts|)
    ensures ChangesFrom(acts, k) != [] ==>
      var c := ChangesFrom(acts, k)[0];
      && k <= c < |acts| && acts[c].kind != Kept && AllKept(acts, k, c)
      && ChangesFrom(acts, k)[1..] == ChangesFrom(acts, c + 1)
    decreases |acts| - k
  {
    if k < |acts| && acts[k].kind == Kept {
      NextChange(acts, k + 1);
    }
  }

  function GroupsFrom(start: nat, end: nat, changes: seq<nat>, ctx: nat): seq<Group>
    decreases |changes|
  {
    if changes == [] then [Group(start, end)]
    else if changes[0] > end + 2 * ctx + 1 then
      [Group(start, end)] + GroupsFrom(changes[0], changes[0], changes[1..], ctx)
    else GroupsFrom(start, changes[0], changes[1..], ctx)
  }

  /** `group_changes`. */
  method GroupChanges(changes: seq<nat>, ctx: nat) returns (groups: seq<Group>)
    requires changes != []
    ensures groups == GroupsFrom(changes[0], changes[0], changes[1..], ctx)
  {
    groups := [];
    var start: nat, end: nat := changes[0], changes[0];
    for i := 1 to |changes|
      invariant groups + GroupsFrom(start, end, changes[i..], ctx)
        == GroupsFrom(changes[0], changes[0], changes[1..], ctx)
    {
      var c := changes[i];
      assert changes[i..][1..] == changes[i + 1..];
      if c > end + 2 * ctx + 1 {
        Slices.Assoc(groups, [Group(start, end)], GroupsFrom(c, c, changes[i + 1..], ctx));
        groups := groups + [Group(start, end)];
        start := c;
      }
      end := c;
    }
    assert changes[|changes|..] == [];
    groups := groups + [Group(start, end)];
  }

  function Low(g: Group, ctx: nat): nat { SaturatingSub(g.start, ctx) }

  function High(g: Group, ctx: nat, n: nat): nat { Min(g.end + ctx + 1, n) }

  /** From action `k` on, the groups with their context are disjoint and in order, and
      whatever lies outside them is kept. */
  ghost predicate Covers(groups: seq<Group>, acts: seq<LineAction>, k: nat, ctx: nat) {
    if groups == [] then AllKept(acts, k, |acts|)
    else
      var g := groups[0];
      && k <= Low(g, ctx) && g.start <= g.end < |acts|
      && AllKept(acts, k, g.start)
      && acts[g.start].kind != Kept && acts[g.end].kind != Kept
      && Covers(groups[1..], acts, High(g, ctx, |acts|), ctx)
  }

  lemma {:induction false} GroupsCover(acts: seq<LineAction>, k: nat, start: nat, end: nat, ctx: nat)
    requires start <= end < |acts| && acts[start].kind != Kept && acts[end].kind != Kept
    requires k <= SaturatingSub(start, ctx) && AllKept(acts, k, start)
    ensures Covers(GroupsFrom(start, end, ChangesFrom(acts, end + 1), ctx), acts, k, ctx)
    decreases |acts| - end
  {
    var rest := ChangesFrom(acts, end + 1);
    var hi := High(Group(start, end), ctx, |acts|);
    NextChange(acts, end + 1);
    hide Covers, ChangesFrom;
    if rest == [] {
      CoversNone(acts, hi, ctx);
      CoversCons(Group(start, end), [], acts, k, ctx);
      assert [Group(start, end)] + [] == [Group(start, end)];
    } else if rest[0] > end + 2 * ctx + 1 {
      assert AllKept(acts, hi, rest[0]);
      GroupsCover(acts, hi, rest[0], rest[0], ctx);
      CoversCons(Group(start, end), GroupsFrom(rest[0], rest[0], rest[1..], ctx), acts, k, ctx);
    } else {
      GroupsCover(acts, k, start, rest[0], ctx);
    }
  }

  lemma CoversNone(acts: seq<LineAction>, k: nat, ctx: nat)
    requires AllKept(acts, k, |acts|)
    ensures Covers([], acts, k, ctx)
  {
  }

  lemma CoversCons(g: Group, later: seq<Group>, acts: seq<LineAction>, k: nat, ctx: nat)
    requires k <= Low(g, ctx) && g.start <= g.end < |acts| && AllKept(acts, k, g.start)
    requires acts[g.start].kind != Kept && acts[g.end].kind != Kept
    requires Covers(later, acts, High(g, ctx, |acts|), ctx)
    ensures Covers([g] + later, acts, k, ctx)
  {
    Slices.Tail([g], later);
  }

  /** Inside a group no stretch of kept lines is longer than two contexts. */
  ghost predicate NoLongGap(g: Group, acts: seq<LineAction>, ctx: nat) {
    forall p :: GapInside(g, p, ctx) ==> !AllKept(acts, p, p + 2 * ctx + 1)
  }

  ghost predicate GapInside(g: Group, p: int, ctx: nat) {
    g.start < p && p + 2 * ctx < g.end
  }

  /** Changes share a group exactly when no stretch longer than two contexts lies between them. */
  ghost predicate WellGrouped(groups: seq<Group>, acts: seq<LineAction>, ctx: nat) {
    groups == [] ||
    (&& NoLongGap(groups[0], acts, ctx)
     && (|groups| > 1 ==> groups[1].start > groups[0].end + 2 * ctx + 1)
     && WellGrouped(groups[1..], acts, ctx))
  }

  lemma {:induction false} GroupsAreWellMade(acts: seq<LineAction>, start: nat, end: nat, ctx: nat)
    requires start <= end < |acts| && acts[end].kind != Kept && NoLongGap(Group(start, end), acts, ctx)
    ensures var groups := GroupsFrom(start, end, ChangesFrom(acts, end + 1), ctx);
      groups != [] && groups[0].start == start && WellGrouped(groups, acts, ctx)
    decreases |acts| - end
  {
    var rest := ChangesFrom(acts, end + 1);
    NextChange(acts, end + 1);
    hide ChangesFrom, NoLongGap;
    if rest == [] {
      assert [Group(start, end)][1..] == [];
    } else if rest[0] > end + 2 * ctx + 1 {
      OneChange(rest[0], acts, ctx);
      GroupsAreWellMade(acts, rest[0], rest[0], ctx);
      Slices.Tail([Group(start, end)], GroupsFrom(rest[0], rest[0], rest[1..], ctx));
    } else {
      WiderGroup(acts, start, end, rest[0], ctx);
      GroupsAreWellMade(acts, start, rest[0], ctx);
    }
  }

  lemma OneChange(c: nat, acts: seq<LineAction>, ctx: nat)
    ensures NoLongGap(Group(c, c), acts, ctx)
  {
  }

  lemma WiderGroup(acts: seq<LineAction>, start: nat, end: nat, next: nat, ctx: nat)
    requires start <= end < next < |acts| && acts[end].kind != Kept && next <= end + 2 * ctx + 1
    requires NoLongGap(Group(start, end), acts, ctx)
    ensures NoLongGap(Group(start, next), acts, ctx)
  {
    forall p | GapInside(Group(start, next), p, ctx)
      ensures !AllKept(acts, p, p + 2 * ctx + 1)
    {
      if p + 2 * ctx < end {
        assert GapInside(Group(start, end), p, ctx);
      }
    }
  }

  /** From action `from` on, the groups hold every change: all between them is kept. */
  ghost predicate Consecutive(groups: seq<Group>, acts: seq<LineAction>, from: nat) {
    if groups == [] then AllKept(acts, from, |acts|)
    else
      var g := groups[0];
      && AllKept(acts, from, g.start) && from <= g.start <= g.end < |acts|
      && acts[g.start].kind != Kept && acts[g.end].kind != Kept
      && Consecutive(groups[1..], acts, g.end + 1)
  }

  lemma {:induction false} GroupsAreConsecutive(acts: seq<LineAction>, from: nat, start: nat, end: nat, ctx: nat)
    requires from <= start <= end < |acts| && acts[start].kind != Kept && acts[end].kind != Kept
    requires AllKept(acts, from, start)
    ensures Consecutive(GroupsFrom(start, end, ChangesFrom(acts, end + 1), ctx), acts, from)
    decreases |acts| - end
  {
    var rest := ChangesFrom(acts, end + 1);
    NextChange(acts, end + 1);
    hide ChangesFrom;
    if rest == [] {
      assert [Group(start, end)][1..] == [];
    } else if rest[0] > end + 2 * ctx + 1 {
      GroupsAreConsecutive(acts, end + 1, rest[0], rest[0], ctx);
      Slices.Tail([Group(start, end)], GroupsFrom(rest[0], rest[0], rest[1..], ctx));
    } else {
      GroupsAreConsecutive(acts, from, start, rest[0], ctx);
    }
  }

  /** Up to `ctx` actions on either side of a group are kept, as far as there are any. */
  ghost predicate KeptAround(g: Group, acts: seq<LineAction>, ctx: nat) {
    && g.start <= g.end < |acts| && acts[g.start].kind != Kept && acts[g.end].kind != Kept
    && AllKept(acts, g.start - Min(ctx, g.start), g.start)
    && AllKept(acts, g.end + 1, g.end + 1 + Min(ctx, |acts| - 1 - g.end))
  }

  lemma {:induction false} GroupIsKeptAround(groups: seq<Group>, acts: seq<LineAction>, from: nat, ctx: nat, k: nat)
    requires Consecutive(groups, acts, from) && WellGrouped(groups, acts, ctx) && k < |groups|
    requires from == 0 || groups[0].start > from + 2 * ctx
    ensures KeptAround(groups[k], acts, ctx)
    decreases k
  {
    hide NoLongGap;
    if k > 0 {
      GroupIsKeptAround(groups[1..], acts, groups[0].end + 1, ctx, k - 1);
    }
  }

  // ---------------------------------------------------------------- one hunk

  ghost predicate AllInRange<T>(acts: seq<LineAction>, src: seq<T>, dst: seq<T>) {
    forall i :: 0 <= i < |acts| ==> InRange(acts[i], src, dst)
  }

  function RenderOne<T>(act: LineAction, src: seq<T>, dst: seq<T>): HunkLine<T>
    requires InRange(act, src, dst)
  {
    match act.kind
    case Kept => Context(src[act.oldIdx])
    case Added => Addition(dst[act.newIdx])
    case Removed => Deletion(src[act.oldIdx])
  }

  ghost function Render<T>(acts: seq<LineAction>, src: seq<T>, dst: seq<T>): (r: seq<HunkLine<T>>)
    requires AllInRange(acts, src, dst)
    ensures |r| == |acts|
  {
    seq(|acts|, i requires 0 <= i < |acts| && InRange(acts[i], src, dst) => RenderOne(acts[i], src, dst))
  }

  /** 0-based starts read off the first action of a hunk; the side a change does not touch is
      guessed from the other side's index. */
  function StartsOf(act: LineAction, oldLen: nat, newLen: nat): (nat, nat) {
    match act.kind
    case Kept => (act.oldIdx, act.newIdx)
    case Added => (Min(act.newIdx, oldLen), act.newIdx)
    case Removed => (act.oldIdx, Min(act.oldIdx, newLen))
  }

  ghost function HunkOf<T>(acts: seq<LineAction>, src: seq<T>, dst: seq<T>): Hunk<T>
    requires acts != [] && AllInRange(acts, src, dst)
  {
    var starts := StartsOf(acts[0], |src|, |dst|);
    Hunk(starts.0 + 1, OldCount(acts), starts.1 + 1, NewCount(acts), Render(acts, src, dst))
  }

  /** The marker for "no start seen yet"; line numbers stay below it. */
  const USIZE_MAX: nat := 0xFFFF_FFFF_FFFF_FFFF

  lemma RenderAppend<T>(acts: seq<LineAction>, act: LineAction, src: seq<T>, dst: seq<T>)
    requires AllInRange(acts, src, dst) && InRange(act, src, dst)
    ensures AllInRange(acts + [act], src, dst)
    ensures Render(acts + [act], src, dst) == Render(acts, src, dst) + [RenderOne(act, src, dst)]
    ensures OldCount(acts + [act]) == OldCount(acts) + OldStep(act)
    ensures NewCount(acts + [act]) == NewCount(acts) + NewStep(act)
  {
    CountsConcat(acts, [act]);
    assert OldCount([act]) == OldStep(act) && NewCount([act]) == NewStep(act);
  }

  /** The body of `build_hunks_from_groups` for one group. */
  method BuildHunk<T>(acts: seq<LineAction>, src: seq<T>, dst: seq<T>) returns (h: Hunk<T>)
    requires acts != [] && AllInRange(acts, src, dst)
    requires |src| < USIZE_MAX && |dst| < USIZE_MAX
    ensures h == HunkOf(acts, src, dst)
  {
    hide OldCount, NewCount, Render;
    var lines: seq<HunkLine<T>> := [];
    var oldStart, newStart := USIZE_MAX, USIZE_MAX;
    var oldCount, newCount := 0, 0;
    RenderNothing(src, dst);
    for i := 0 to |acts|
      invariant lines == Render(acts[..i], src, dst)
      invariant oldCount == OldCount(acts[..i]) && newCount == NewCount(acts[..i])
      invariant if i == 0 then oldStart == newStart == USIZE_MAX
                else (oldStart, newStart) == StartsOf(acts[0], |src|, |dst|)
      invariant i > 0 ==> oldStart < USIZE_MAX && newStart < USIZE_MAX
    {
      var act := acts[i];
      assert acts[..i + 1] == acts[..i] + [act];
      RenderAppend(acts[..i], act, src, dst);
      match act.kind {
        case Kept =>
          if oldStart == USIZE_MAX {
            oldStart, newStart := act.oldIdx, act.newIdx;
          }
          oldCount, newCount := oldCount + 1, newCount + 1;
        case Added =>
          if newStart == USIZE_MAX { newStart := act.newIdx; }
          if oldStart == USIZE_MAX { oldStart := Min(act.newIdx, |src|); }
          newCount := newCount + 1;
        case Removed =>
          if oldStart == USIZE_MAX { oldStart := act.oldIdx; }
          if newStart == USIZE_MAX { newStart := Min(act.oldIdx, |dst|); }
          oldCount := oldCount + 1;
      }
      lines := lines + [RenderOne(act, src, dst)];
    }
    assert acts[..|acts|] == acts;
    h := Hunk(oldStart + 1, oldCount, newStart + 1, newCount, lines);
  }

  lemma RenderNothing<T>(src: seq<T>, dst: seq<T>)
    ensures Render([], src, dst) == [] && OldCount([]) == 0 && NewCount([]) == 0
  {
  }

  ghost predicate WithinActions(groups: seq<Group>, n: nat) {
    forall k :: 0 <= k < |groups| ==> groups[k].start <= groups[k].end < n
  }

  ghost function HunkAt<T>(g: Group, acts: seq<LineAction>, src: seq<T>, dst: seq<T>, ctx: nat): Hunk<T>
    requires g.start <= g.end < |acts| && AllInRange(acts, src, dst)
  {
    HunkOf(acts[Low(g, ctx)..High(g, ctx, |acts|)], src, dst)
  }

  ghost predicate HunksOf<T>(hunks: seq<Hunk<T>>, groups: seq<Group>, acts: seq<LineAction>, src: seq<T>, dst: seq<T>,
                             ctx: nat)
    requires WithinActions(groups, |acts|) && AllInRange(acts, src, dst)
  {
    |hunks| == |groups| && forall k :: 0 <= k < |groups| ==> hunks[k] == HunkAt(groups[k], acts, src, dst, ctx)
  }

  /** Each hunk shows its group with `ctx` actions before and after it, or as many as there are. */
  ghost predicate LinesAround<T>(hunks: seq<Hunk<T>>, groups: seq<Group>, acts: seq<LineAction>, src: seq<T>,
                                 dst: seq<T>, ctx: nat)
    requires WithinActions(groups, |acts|) && AllInRange(acts, src, dst)
  {
    |hunks| == |groups| && forall k :: 0 <= k < |groups| ==>
      var lo := groups[k].start - Min(ctx, groups[k].start);
      var hi := groups[k].end + 1 + Min(ctx, |acts| - 1 - groups[k].end);
      AllInRange(acts[lo..hi], src, dst) && hunks[k].lines == Render(acts[lo..hi], src, dst)
  }

  lemma HunkLines<T>(g: Group, acts: seq<LineAction>, src: seq<T>, dst: seq<T>, ctx: nat)
    requires AllInRange(acts, src, dst) && g.start <= g.end < |acts|
    ensures var lo, hi := g.start - Min(ctx, g.start), g.end + 1 + Min(ctx, |acts| - 1 - g.end);
      AllInRange(acts[lo..hi], src, dst) && HunkAt(g, acts, src, dst, ctx).lines == Render(acts[lo..hi], src, dst)
  {
    var lo, hi := g.start - Min(ctx, g.start), g.end + 1 + Min(ctx, |acts| - 1 - g.end);
    assert lo == Low(g, ctx) && hi == High(g, ctx, |acts|);
    hide Render, OldCount, NewCount, StartsOf;
  }

  /** `build_hunks_from_groups`. */
  method BuildHunks<T>(groups: seq<Group>, acts: seq<LineAction>, src: seq<T>, dst: seq<T>, ctx: nat)
    returns (hunks: seq<Hunk<T>>)
    requires WithinActions(groups, |acts|) && AllInRange(acts, src, dst)
    requires |src| < USIZE_MAX && |dst| < USIZE_MAX
    ensures HunksOf(hunks, groups, acts, src, dst, ctx) && LinesAround(hunks, groups, acts, src, dst, ctx)
  {
    hide HunkOf;
    hunks := [];
    for k := 0 to |groups|
      invariant |hunks| == k
      invariant forall q :: 0 <= q < k ==> hunks[q] == HunkAt(groups[q], acts, src, dst, ctx)
    {
      var g := groups[k];
      var h := BuildHunk(acts[Low(g, ctx)..High(g, ctx, |acts|)], src, dst);
      hunks := hunks + [h];
    }
    HunksLines(hunks, groups, acts, src, dst, ctx);
  }

  lemma HunksLines<T>(hunks: seq<Hunk<T>>, groups: seq<Group>, acts: seq<LineAction>, src: seq<T>, dst: seq<T>,
                      ctx: nat)
    requires WithinActions(groups, |acts|) && AllInRange(acts, src, dst)
    requires HunksOf(hunks, groups, acts, src, dst, ctx)
    ensures LinesAround(hunks, groups, acts, src, dst, ctx)
  {
    hide AllInRange, Render, HunkAt;
    forall k | 0 <= k < |groups|
      ensures var lo := groups[k].start - Min(ctx, groups[k].start);
        var hi := groups[k].end + 1 + Min(ctx, |acts| - 1 - groups[k].end);
        AllInRange(acts[lo..hi], src, dst) && hunks[k].lines == Render(acts[lo..hi], src, dst)
    {
      HunkLines(groups[k], acts, src, dst, ctx);
    }
  }

  // ---------------------------------------------------------------- applying hunks

  /** Applies the lines of one hunk at `pos`, checking context and deletions; yields the text
      produced and the position reached. */
  ghost function ApplyLines<T>(lines: seq<HunkLine<T>>, src: seq<T>, pos: nat): Option<(seq<T>, nat)> {
    if lines == [] then Some(([], pos))
    else if lines[0].Addition? then
      match ApplyLines(lines[1..], src, pos)
      case None => None
      case Some((out, p)) => Some(([lines[0].line] + out, p))
    else if pos >= |src| || src[pos] != lines[0].line then None
    else
      match ApplyLines(lines[1..], src, pos + 1)
      case None => None
      case Some((out, p)) => Some(((if lines[0].Context? then [lines[0].line] else []) + out, p))
  }

  /** Applies hunks to `src` from position `pos`, where `outPos` lines have been written. Every
      header must be exact: hunks in order, starts and counts on both sides as they turn out. */
  ghost function Patch<T>(hunks: seq<Hunk<T>>, src: seq<T>, pos: nat, outPos: nat): Option<seq<T>> {
    if hunks == [] then (if pos <= |src| then Some(src[pos..]) else None)
    else
      var h := hunks[0];
      if !(pos + 1 <= h.oldStart <= |src| + 1) || h.newStart - 1 != outPos + (h.oldStart - 1 - pos) then None
      else
        match ApplyLines(h.lines, src, h.oldStart - 1)
        case None => None
        case Some((out, p)) =>
          if p - (h.oldStart - 1) != h.oldCount || |out| != h.newCount then None
          else
            match Patch(hunks[1..], src, p, h.newStart - 1 + |out|)
            case None => None
            case Some(rest) => Some(src[pos..h.oldStart - 1] + out + rest)
  }

  lemma {:induction false} RenderedApplies<T>(acts: seq<LineAction>, src: seq<T>, dst: seq<T>, i: nat, j: nat)
    requires AllInRange(acts, src, dst) && Walks(acts, src, dst, i, j)
    requires i + OldCount(acts) <= |src| && j + NewCount(acts) <= |dst|
    ensures ApplyLines(Render(acts, src, dst), src, i) == Some((dst[j..j + NewCount(acts)], i + OldCount(acts)))
    decreases |acts|
  {
    if acts == [] {
      assert dst[j..j] == [];
    } else {
      var act, rest := acts[0], acts[1..];
      RenderedApplies(rest, src, dst, i + OldStep(act), j + NewStep(act));
      assert Render(acts, src, dst)[0] == RenderOne(act, src, dst);
      assert Render(acts, src, dst)[1..] == Render(rest, src, dst);
      ContributionOfOne(act, src, dst, i, j);
      Slices.Join(dst, j, j + NewStep(act), j + NewCount(acts));
    }
  }

  lemma {:induction false} KeptRun<T>(acts: seq<LineAction>, src: seq<T>, dst: seq<T>, i: nat, j: nat)
    requires AllKept(acts, 0, |acts|) && Walks(acts, src, dst, i, j)
    requires i + OldCount(acts) <= |src| && j + NewCount(acts) <= |dst|
    ensures OldCount(acts) == NewCount(acts) && Cost(acts) == 0
    ensures src[i..i + OldCount(acts)] == dst[j..j + NewCount(acts)]
    decreases |acts|
  {
    if acts != [] {
      assert AllKept(acts[1..], 0, |acts[1..]|);
      KeptRun(acts[1..], src, dst, i + 1, j + 1);
      Slices.Join(src, i, i + 1, i + OldCount(acts));
      Slices.Join(dst, j, j + 1, j + NewCount(acts));
      ContributionOfOne(acts[0], src, dst, i, j);
    }
  }

  /** Whether the header of the hunk for `g` starts where its first action really stands. With
      context, or at the very beginning, it always does; a hunk that opens with a change guesses
      the line number of the other side. */
  ghost predicate Anchored<T>(g: Group, acts: seq<LineAction>, src: seq<T>, dst: seq<T>, ctx: nat)
    requires g.start < |acts|
  {
    ctx > 0 || g.start == 0 ||
    match acts[g.start].kind
    case Kept => true
    case Added => Min(acts[g.start].newIdx, |src|) == OldCount(acts[..g.start])
    case Removed => Min(acts[g.start].oldIdx, |dst|) == NewCount(acts[..g.start])
  }

  ghost predicate AllAnchored<T>(groups: seq<Group>, acts: seq<LineAction>, src: seq<T>, dst: seq<T>, ctx: nat)
    requires WithinActions(groups, |acts|)
  {
    forall k :: 0 <= k < |groups| ==> Anchored(groups[k], acts, src, dst, ctx)
  }

  /** Everything known about the actions around action `k`. */
  ghost predicate At<T>(acts: seq<LineAction>, k: nat, src: seq<T>, dst: seq<T>, i: nat, j: nat) {
    && k <= |acts|
    && i == OldCount(acts[..k]) && j == NewCount(acts[..k])
    && Walks(acts[k..], src, dst, i, j)
    && i + OldCount(acts[k..]) == |src| && j + NewCount(acts[k..]) == |dst|
  }

  lemma Advance<T>(acts: seq<LineAction>, k: nat, l: nat, src: seq<T>, dst: seq<T>, i: nat, j: nat)
    requires At(acts, k, src, dst, i, j) && k <= l <= |acts|
    ensures Walks(acts[k..l], src, dst, i, j)
    ensures At(acts, l, src, dst, i + OldCount(acts[k..l]), j + NewCount(acts[k..l]))
  {
    assert acts[k..] == acts[k..l] + acts[l..] && acts[..l] == acts[..k] + acts[k..l];
    WalksConcat(acts[k..l], acts[l..], src, dst, i, j);
    CountsConcat(acts[k..l], acts[l..]);
    CountsConcat(acts[..k], acts[k..l]);
  }

  lemma StartIsExact<T>(g: Group, acts: seq<LineAction>, src: seq<T>, dst: seq<T>, ctx: nat, i: nat, j: nat)
    requires g.start < |acts| && At(acts, Low(g, ctx), src, dst, i, j)
    requires AllKept(acts, Low(g, ctx), g.start)
    ensures Anchored(g, acts, src, dst, ctx) <==> StartsOf(acts[Low(g, ctx)], |src|, |dst|) == (i, j)
    ensures StartsOf(acts[Low(g, ctx)], |src|, |dst|).0 == i || StartsOf(acts[Low(g, ctx)], |src|, |dst|).1 == j
  {
    var lo := Low(g, ctx);
    assert acts[lo..][0] == acts[lo] && Fits(acts[lo], src, dst, i, j);
  }

  /** The hunks of consecutive groups, applied from action `k` on, produce the rest of the new
      text if every header is anchored, and are refused otherwise. */
  lemma {:induction false} HunksApply<T>(hunks: seq<Hunk<T>>, groups: seq<Group>, acts: seq<LineAction>, k: nat,
                                         ctx: nat,
                                         src: seq<T>, dst: seq<T>, i: nat, j: nat)
    requires At(acts, k, src, dst, i, j) && Covers(groups, acts, k, ctx)
    requires WithinActions(groups, |acts|) && AllInRange(acts, src, dst)
    requires HunksOf(hunks, groups, acts, src, dst, ctx)
    ensures Patch(hunks, src, i, j) == if AllAnchored(groups, acts, src, dst, ctx) then Some(dst[j..]) else None
    decreases |groups|
  {
    hide Walks, OldCount, NewCount, Cost, Patch, ApplyLines, Render, InRange, StartsOf, Anchored, At,
      HunkAt, HunksOf, AllInRange, WithinActions, AllAnchored;
    if groups == [] {
      NoHunks(hunks, groups, acts, src, dst, ctx);
      RestIsKept(acts, k, src, dst, i, j);
    } else {
      var g := groups[0];
      var lo, hi := Low(g, ctx), High(g, ctx, |acts|);
      var slice := acts[lo..hi];
      FirstHunk(hunks, groups, acts, src, dst, ctx);
      var n := ApproachHunk(acts, k, lo, src, dst, i, j);
      StartIsExact(g, acts, src, dst, ctx, i + n, j + n);
      Advance(acts, lo, hi, src, dst, i + n, j + n);
      Bounds(acts, hi, src, dst, i + n + OldCount(slice), j + n + NewCount(slice));
      RenderedApplies(slice, src, dst, i + n, j + n);
      HunksApply(hunks[1..], groups[1..], acts, hi, ctx, src, dst, i + n + OldCount(slice), j + n + NewCount(slice));
      hide Covers;
      if Anchored(g, acts, src, dst, ctx) {
        PatchAccepts(hunks, src, i, j, n, dst[j + n..j + n + NewCount(slice)], i + n + OldCount(slice));
        Slices.Join(dst, j, j + n, j + n + NewCount(slice));
        Slices.JoinRest(dst, j, j + n + NewCount(slice));
      } else {
        PatchRefuses(hunks, src, i, j, n);
      }
    }
  }

  lemma RestIsKept<T>(acts: seq<LineAction>, k: nat, src: seq<T>, dst: seq<T>, i: nat, j: nat)
    requires At(acts, k, src, dst, i, j) && AllKept(acts, k, |acts|)
    ensures Patch([], src, i, j) == Some(dst[j..])
  {
    KeptRun(acts[k..], src, dst, i, j);
    assert src[i..|src|] == src[i..] && dst[j..|dst|] == dst[j..];
  }

  /** The kept actions before a hunk, which the patch copies. */
  lemma ApproachHunk<T>(acts: seq<LineAction>, k: nat, lo: nat, src: seq<T>, dst: seq<T>, i: nat, j: nat)
    returns (n: nat)
    requires At(acts, k, src, dst, i, j) && k <= lo <= |acts| && AllKept(acts, k, lo)
    ensures At(acts, lo, src, dst, i + n, j + n)
    ensures i + n <= |src| && j + n <= |dst| && src[i..i + n] == dst[j..j + n]
  {
    Advance(acts, k, lo, src, dst, i, j);
    KeptRun(acts[k..lo], src, dst, i, j);
    n := OldCount(acts[k..lo]);
  }

  lemma Bounds<T>(acts: seq<LineAction>, k: nat, src: seq<T>, dst: seq<T>, i: nat, j: nat)
    requires At(acts, k, src, dst, i, j)
    ensures i <= |src| && j <= |dst|
  {
  }

  lemma NoHunks<T>(hunks: seq<Hunk<T>>, groups: seq<Group>, acts: seq<LineAction>, src: seq<T>, dst: seq<T>, ctx: nat)
    requires WithinActions(groups, |acts|) && AllInRange(acts, src, dst)
    requires HunksOf(hunks, groups, acts, src, dst, ctx) && groups == []
    ensures hunks == [] && AllAnchored(groups, acts, src, dst, ctx)
  {
  }

  lemma FirstHunk<T>(hunks: seq<Hunk<T>>, groups: seq<Group>, acts: seq<LineAction>, src: seq<T>, dst: seq<T>, ctx: nat)
    requires WithinActions(groups, |acts|) && AllInRange(acts, src, dst)
    requires HunksOf(hunks, groups, acts, src, dst, ctx) && groups != []
    ensures WithinActions(groups[1..], |acts|)
    ensures hunks != [] && HunksOf(hunks[1..], groups[1..], acts, src, dst, ctx)
    ensures groups[0].start <= groups[0].end < |acts|
    ensures var lo, hi := Low(groups[0], ctx), High(groups[0], ctx, |acts|);
      && AllInRange(acts[lo..hi], src, dst)
      && hunks[0] == Hunk(StartsOf(acts[lo], |src|, |dst|).0 + 1, OldCount(acts[lo..hi]),
                          StartsOf(acts[lo], |src|, |dst|).1 + 1, NewCount(acts[lo..hi]),
                          Render(acts[lo..hi], src, dst))
    ensures AllAnchored(groups, acts, src, dst, ctx)
       <==> Anchored(groups[0], acts, src, dst, ctx) && AllAnchored(groups[1..], acts, src, dst, ctx)
  {
    assert forall k :: 0 < k < |groups| ==> groups[k] == groups[1..][k - 1];
    assert hunks[0] == HunkAt(groups[0], acts, src, dst, ctx);
  }

  lemma PatchAccepts<T>(hunks: seq<Hunk<T>>, src: seq<T>, i: nat, j: nat, n: nat, out: seq<T>, p: nat)
    requires hunks != [] && i + n <= |src|
    requires hunks[0].oldStart == i + n + 1 && hunks[0].newStart == j + n + 1
    requires ApplyLines(hunks[0].lines, src, i + n) == Some((out, p))
    requires hunks[0].oldCount == p - (i + n) && hunks[0].newCount == |out|
    ensures Patch(hunks, src, i, j)
         == match Patch(hunks[1..], src, p, j + n + |out|)
            case None => None
            case Some(rest) => Some(src[i..i + n] + out + rest)
  {
  }

  /** A header with one start right and the other wrong is refused. */
  lemma PatchRefuses<T>(hunks: seq<Hunk<T>>, src: seq<T>, i: nat, j: nat, n: nat)
    requires hunks != []
    requires hunks[0].oldStart == i + n + 1 <==> hunks[0].newStart != j + n + 1
    requires hunks[0].newStart > 0
    ensures Patch(hunks, src, i, j) == None
  {
  }

  // ---------------------------------------------------------------- the whole pipeline

  /** Lines added and deleted by a list of hunks. */
  ghost function ChangedLines<T>(lines: seq<HunkLine<T>>): nat {
    if lines == [] then 0 else (if lines[0].Context? then 0 else 1) + ChangedLines(lines[1..])
  }

  ghost function Changes<T>(hunks: seq<Hunk<T>>): nat {
    if hunks == [] then 0 else ChangedLines(hunks[0].lines) + Changes(hunks[1..])
  }

  lemma {:induction false} RenderedCost<T>(acts: seq<LineAction>, src: seq<T>, dst: seq<T>)
    requires AllInRange(acts, src, dst)
    ensures ChangedLines(Render(acts, src, dst)) == Cost(acts)
    decreases |acts|
  {
    if acts != [] {
      RenderedCost(acts[1..], src, dst);
      assert Render(acts, src, dst)[0] == RenderOne(acts[0], src, dst);
      assert Render(acts, src, dst)[1..] == Render(acts[1..], src, dst);
    }
  }

  lemma {:induction false} KeptIsFree(acts: seq<LineAction>)
    requires AllKept(acts, 0, |acts|)
    ensures Cost(acts) == 0
    decreases |acts|
  {
    if acts != [] {
      assert AllKept(acts[1..], 0, |acts[1..]|);
      KeptIsFree(acts[1..]);
    }
  }

  /** No change is lost or repeated: the hunks change as many lines as the script does. */
  lemma {:induction false} HunksCarryCost<T>(hunks: seq<Hunk<T>>, groups: seq<Group>, acts: seq<LineAction>, k: nat,
                                             ctx: nat,
                                             src: seq<T>, dst: seq<T>)
    requires k <= |acts| && Covers(groups, acts, k, ctx)
    requires WithinActions(groups, |acts|) && AllInRange(acts, src, dst)
    requires HunksOf(hunks, groups, acts, src, dst, ctx)
    ensures Changes(hunks) == Cost(acts[k..])
    decreases |groups|
  {
    hide Cost, Render, AllInRange, WithinActions, HunksOf, OldCount, NewCount, StartsOf, AllAnchored;
    if groups == [] {
      NoHunks(hunks, groups, acts, src, dst, ctx);
      KeptIsFree(acts[k..]);
    } else {
      var lo, hi := Low(groups[0], ctx), High(groups[0], ctx, |acts|);
      FirstHunk(hunks, groups, acts, src, dst, ctx);
      HunksCarryCost(hunks[1..], groups[1..], acts, hi, ctx, src, dst);
      RenderedCost(acts[lo..hi], src, dst);
      KeptIsFree(acts[k..lo]);
      assert acts[k..] == acts[k..lo] + acts[lo..hi] + acts[hi..];
      CountsConcat(acts[k..lo] + acts[lo..hi], acts[hi..]);
      CountsConcat(acts[k..lo], acts[lo..hi]);
    }
  }

  lemma {:induction false} GroupsWithin(acts: seq<LineAction>, groups: seq<Group>, k: nat, ctx: nat)
    requires Covers(groups, acts, k, ctx)
    ensures WithinActions(groups, |acts|)
    decreases |groups|
  {
    if groups != [] {
      GroupsWithin(acts, groups[1..], High(groups[0], ctx, |acts|), ctx);
      assert forall q :: 0 < q < |groups| ==> groups[q] == groups[1..][q - 1];
    }
  }

  lemma {:induction false} WalksInRange<T>(acts: seq<LineAction>, src: seq<T>, dst: seq<T>, i: nat, j: nat)
    requires Walks(acts, src, dst, i, j)
    ensures AllInRange(acts, src, dst)
    decreases |acts|
  {
    if acts != [] {
      WalksInRange(acts[1..], src, dst, i + OldStep(acts[0]), j + NewStep(acts[0]));
      assert forall q :: 0 < q < |acts| ==> acts[q] == acts[1..][q - 1];
    }
  }

  /** The grouping `diff_to_hunks` uses for a list of actions that changes something. */
  ghost function AllGroups(acts: seq<LineAction>, ctx: nat): seq<Group> {
    var changes := ChangesFrom(acts, 0);
    if changes == [] then [] else GroupsFrom(changes[0], changes[0], changes[1..], ctx)
  }

  lemma AllGroupsCover(acts: seq<LineAction>, ctx: nat)
    ensures Covers(AllGroups(acts, ctx), acts, 0, ctx) && WithinActions(AllGroups(acts, ctx), |acts|)
  {
    NextChange(acts, 0);
    var changes := ChangesFrom(acts, 0);
    if changes != [] {
      GroupsCover(acts, 0, changes[0], changes[0], ctx);
    }
    GroupsWithin(acts, AllGroups(acts, ctx), 0, ctx);
  }

  /** A script cut into hunks with any context: what applying the hunks gives, and how many
      lines they change. */
  lemma ScriptAsHunks<T>(acts: seq<LineAction>, src: seq<T>, dst: seq<T>, hunks: seq<Hunk<T>>, ctx: nat)
    requires Walks(acts, src, dst, 0, 0) && OldCount(acts) == |src| && NewCount(acts) == |dst|
    requires WithinActions(AllGroups(acts, ctx), |acts|) && AllInRange(acts, src, dst)
    requires HunksOf(hunks, AllGroups(acts, ctx), acts, src, dst, ctx)
    ensures Patch(hunks, src, 0, 0)
         == if AllAnchored(AllGroups(acts, ctx), acts, src, dst, ctx) then Some(dst) else None
    ensures ctx > 0 ==> Patch(hunks, src, 0, 0) == Some(dst)
    ensures Changes(hunks) == Cost(acts)
  {
    AllGroupsCover(acts, ctx);
    assert acts[0..] == acts && acts[..0] == [] && dst[0..] == dst;
    HunksApply(hunks, AllGroups(acts, ctx), acts, 0, ctx, src, dst, 0, 0);
    HunksCarryCost(hunks, AllGroups(acts, ctx), acts, 0, ctx, src, dst);
  }

  /** With the first and the last change of its group, a hunk shows exactly `ctx` lines before and
      after, or as many as there are, and everything in between. */
  ghost predicate ShowsContext<T>(h: Hunk<T>, g: Group, acts: seq<LineAction>, src: seq<T>, dst: seq<T>, ctx: nat)
    requires g.start <= g.end < |acts| && AllInRange(acts, src, dst)
  {
    var lead, trail := Min(ctx, g.start), Min(ctx, |acts| - 1 - g.end);
    var changes := g.end - g.start + 1;
    && h.lines == Render(acts[g.start - lead..g.end + 1 + trail], src, dst)
    && |h.lines| == lead + changes + trail
    && !h.lines[lead].Context? && !h.lines[lead + changes - 1].Context?
    && forall i :: 0 <= i < lead || lead + changes <= i < |h.lines| ==> h.lines[i].Context?
  }

  ghost predicate AllShowContext<T>(hunks: seq<Hunk<T>>, groups: seq<Group>, acts: seq<LineAction>, src: seq<T>,
                                    dst: seq<T>, ctx: nat)
    requires WithinActions(groups, |acts|) && AllInRange(acts, src, dst)
  {
    |hunks| == |groups| && forall k :: 0 <= k < |groups| ==> ShowsContext(hunks[k], groups[k], acts, src, dst, ctx)
  }

  lemma HunkShowsContext<T>(g: Group, acts: seq<LineAction>, src: seq<T>, dst: seq<T>, ctx: nat)
    requires AllInRange(acts, src, dst) && KeptAround(g, acts, ctx)
    ensures ShowsContext(HunkAt(g, acts, src, dst, ctx), g, acts, src, dst, ctx)
  {
    var lead, trail := Min(ctx, g.start), Min(ctx, |acts| - 1 - g.end);
    var lo, hi := g.start - lead, g.end + 1 + trail;
    hide Render, HunkAt, AllInRange;
    RenderedKinds(acts, lo, hi, src, dst);
    HunkLines(g, acts, src, dst, ctx);
  }

  lemma RenderedKinds<T>(acts: seq<LineAction>, lo: nat, hi: nat, src: seq<T>, dst: seq<T>)
    requires lo <= hi <= |acts| && AllInRange(acts, src, dst)
    ensures AllInRange(acts[lo..hi], src, dst)
    ensures forall i :: 0 <= i < hi - lo ==> (Render(acts[lo..hi], src, dst)[i].Context? <==> acts[lo + i].kind == Kept)
  {
    assert forall i :: 0 <= i < hi - lo ==> acts[lo..hi][i] == acts[lo + i];
  }

  lemma HunksShowContext<T>(hunks: seq<Hunk<T>>, acts: seq<LineAction>, src: seq<T>, dst: seq<T>, ctx: nat)
    requires WithinActions(AllGroups(acts, ctx), |acts|) && AllInRange(acts, src, dst)
    requires HunksOf(hunks, AllGroups(acts, ctx), acts, src, dst, ctx)
    ensures AllShowContext(hunks, AllGroups(acts, ctx), acts, src, dst, ctx)
  {
    var groups := AllGroups(acts, ctx);
    NextChange(acts, 0);
    var changes := ChangesFrom(acts, 0);
    if changes != [] {
      GroupsAreConsecutive(acts, 0, changes[0], changes[0], ctx);
    }
    AllGroupsAreWellMade(acts, ctx);
    hide ChangesFrom, AllGroups, Consecutive, WellGrouped, ShowsContext, HunkAt;
    forall k | 0 <= k < |groups|
      ensures ShowsContext(hunks[k], groups[k], acts, src, dst, ctx)
    {
      GroupIsKeptAround(groups, acts, 0, ctx, k);
      HunkShowsContext(groups[k], acts, src, dst, ctx);
    }
  }

  /** What `diff_to_hunks` promises within the size limit. With at least one context line the
      hunks are an exact patch; without, they are exactly when every hunk is anchored, and
      otherwise some header is wrong and the patch is refused. Either way they change as few
      lines as possible, and each shows one group of changes with its context. */
  ghost predicate IsPatch<T>(hunks: seq<Hunk<T>>, src: seq<T>, dst: seq<T>, acts: seq<LineAction>, ctx: nat) {
    && Walks(acts, src, dst, 0, 0) && OldCount(acts) == |src| && NewCount(acts) == |dst|
    && AllInRange(acts, src, dst)
    && (ctx > 0 ==> Patch(hunks, src, 0, 0) == Some(dst))
    && WithinActions(AllGroups(acts, ctx), |acts|) && WellGrouped(AllGroups(acts, ctx), acts, ctx)
    && HunksOf(hunks, AllGroups(acts, ctx), acts, src, dst, ctx)
    && AllShowContext(hunks, AllGroups(acts, ctx), acts, src, dst, ctx)
    && (Patch(hunks, src, 0, 0) == Some(dst) <==> AllAnchored(AllGroups(acts, ctx), acts, src, dst, ctx))
    && Changes(hunks) == Dist(src, dst, |src|, |dst|)
    && (hunks == [] <==> src == dst)
  }

  /** `diff_to_hunks`. */
  method DiffToHunks(oldText: seq<Byte>, newText: seq<Byte>, ctx: nat)
    returns (hunks: seq<Hunk<Line>>)
    ensures var src, dst := LinesOf(oldText), LinesOf(newText);
      if |src| > MAX_DIFF_LINES || |dst| > MAX_DIFF_LINES then hunks == []
      else exists acts :: IsPatch(hunks, src, dst, acts, ctx)
  {
    var src := SplitLines(oldText);
    var dst := SplitLines(newText);
    if |src| > MAX_DIFF_LINES || |dst| > MAX_DIFF_LINES {
      return [];
    }
    var ops := MyersDiff(src, dst);
    var actions := ExpandOps(ops);
    hunks := HunksOfActions(actions, src, dst, ctx);
  }

  method HunksOfActions<T>(acts: seq<LineAction>, src: seq<T>, dst: seq<T>, ctx: nat) returns (hunks: seq<Hunk<T>>)
    requires Walks(acts, src, dst, 0, 0) && OldCount(acts) == |src| && NewCount(acts) == |dst|
    requires Cost(acts) == Dist(src, dst, |src|, |dst|)
    requires |src| <= MAX_DIFF_LINES && |dst| <= MAX_DIFF_LINES
    ensures IsPatch(hunks, src, dst, acts, ctx)
  {
    WalksInRange(acts, src, dst, 0, 0);
    AllGroupsCover(acts, ctx);
    var changes := ChangesFrom(acts, 0);
    if changes == [] {
      hunks := [];
    } else {
      var groups := GroupChanges(changes, ctx);
      hunks := BuildHunks(groups, acts, src, dst, ctx);
    }
    AllGroupsAreWellMade(acts, ctx);
    HunksShowContext(hunks, acts, src, dst, ctx);
    ScriptAsHunks(acts, src, dst, hunks, ctx);
    EqualTextsCostNothing(src, dst);
    if src == dst {
      ZeroCostChangesNothing(acts);
    }
    assert src[0..] == src;
  }

  lemma AllGroupsAreWellMade(acts: seq<LineAction>, ctx: nat)
    ensures WellGrouped(AllGroups(acts, ctx), acts, ctx)
  {
    NextChange(acts, 0);
    var changes := ChangesFrom(acts, 0);
    if changes != [] {
      OneChange(changes[0], acts, ctx);
      GroupsAreWellMade(acts, changes[0], changes[0], ctx);
    }
  }

  lemma ZeroCostChangesNothing(acts: seq<LineAction>)
    requires Cost(acts) == 0
    ensures ChangesFrom(acts, 0) == []
  {
    NextChange(acts, 0);
    if ChangesFrom(acts, 0) != [] {
      var c := ChangesFrom(acts, 0)[0];
      assert acts == acts[..c] + acts[c..];
      CountsConcat(acts[..c], acts[c..]);
    }
  }

  lemma EqualTextsCostNothing<T>(src: seq<T>, dst: seq<T>)
    ensures src == dst ==> Dist(src, dst, |src|, |dst|) == 0
  {
    if src == dst {
      EqualRunIsFree(src, dst, 0, 0, |src|);
    }
  }

  // ---------------------------------------------------------------- hunks without context

  /** Old p, q and new r, p, t, all of them different: p is all that the two have in common. */
  ghost predicate SharesOne<T>(src: seq<T>, dst: seq<T>) {
    && |src| == 2 && |dst| == 3 && src[0] == dst[1]
    && src[0] != src[1] && src[0] != dst[0] && src[0] != dst[2] && src[1] != dst[0] && src[1] != dst[2]
  }

  lemma SharesOneCosts<T>(src: seq<T>, dst: seq<T>)
    requires SharesOne(src, dst)
    ensures Dist(src, dst, 2, 3) == 3
  {
    assert Dist(src, dst, 1, 1) == 2 && Dist(src, dst, 1, 2) == 1;
    assert Dist(src, dst, 1, 3) == 2 && Dist(src, dst, 2, 1) == 3;
    assert Dist(src, dst, 2, 2) == 2;
  }

  /** Past the common line on either side nothing can be kept. */
  lemma {:induction false} NothingMoreKept<T>(acts: seq<LineAction>, src: seq<T>, dst: seq<T>, i: nat, j: nat)
    requires SharesOne(src, dst) && Walks(acts, src, dst, i, j) && (i >= 1 || j >= 2)
    ensures Cost(acts) == OldCount(acts) + NewCount(acts)
    ensures AllChanged(acts)
    decreases |acts|
  {
    if acts != [] {
      NothingMoreKept(acts[1..], src, dst, i + OldStep(acts[0]), j + NewStep(acts[0]));
    }
  }

  ghost predicate AllChanged(acts: seq<LineAction>) {
    acts == [] || (acts[0].kind != Kept && AllChanged(acts[1..]))
  }

  /** So there are only two shortest scripts: insert r, keep p, and then q and t in either order. */
  lemma ShortestKeepsTheLine<T>(acts: seq<LineAction>, src: seq<T>, dst: seq<T>)
    requires SharesOne(src, dst) && Walks(acts, src, dst, 0, 0)
    requires OldCount(acts) == 2 && NewCount(acts) == 3 && Cost(acts) == 3
    ensures |acts| > 2 && acts[0] == LineAction(Added, 0, 0) && acts[1] == LineAction(Kept, 0, 1)
    ensures Walks(acts[2..], src, dst, 1, 2) && OldCount(acts[2..]) == 1 && NewCount(acts[2..]) == 1
    ensures AllChanged(acts[2..])
  {
    if acts[0].kind == Removed {
      NothingMoreKept(acts[1..], src, dst, 1, 0);
    }
    var rest := acts[1..];
    assert Walks(rest, src, dst, 0, 1) && rest != [];
    if rest[0].kind != Kept {
      NothingMoreKept(rest[1..], src, dst, OldStep(rest[0]), 1 + NewStep(rest[0]));
    }
    assert acts[2..] == rest[1..];
    NothingMoreKept(acts[2..], src, dst, 1, 2);
  }

  lemma LastTwo<T>(acts: seq<LineAction>, src: seq<T>, dst: seq<T>)
    requires Walks(acts, src, dst, 1, 2) && OldCount(acts) == 1 && NewCount(acts) == 1 && AllChanged(acts)
    ensures |acts| == 2 && acts[0].kind != Kept && acts[1].kind != Kept
    ensures acts[0] == LineAction(Added, 0, 2) || acts[0] == LineAction(Removed, 1, 0)
  {
    assert acts != [] && acts[1..] != [];
    assert acts[1..][1..] == acts[2..];
    if acts[2..] != [] {
      assert OldCount(acts[2..]) + NewCount(acts[2..]) > 0;
    }
  }

  lemma FourActions(acts: seq<LineAction>)
    requires |acts| == 4 && acts[0].kind != Kept && acts[1].kind == Kept && acts[2].kind != Kept && acts[3].kind != Kept
    ensures AllGroups(acts, 0) == [Group(0, 0), Group(2, 3)]
  {
    assert ChangesFrom(acts, 4) == [] && ChangesFrom(acts, 3) == [3] && ChangesFrom(acts, 2) == [2, 3];
    assert ChangesFrom(acts, 0) == [0, 2, 3] && [0, 2, 3][1..] == [2, 3] && [2, 3][1..] == [3];
  }

  /** Without context a start can be wrong, in whatever way the lines are told apart: every
      shortest script of two such texts gives a second hunk that replaces q by t and is refused. */
  lemma ZeroContextMisplaces<T>(src: seq<T>, dst: seq<T>, hunks: seq<Hunk<T>>, acts: seq<LineAction>)
    requires SharesOne(src, dst) && IsPatch(hunks, src, dst, acts, 0)
    ensures |hunks| == 2 && hunks[1].oldCount == 1 && hunks[1].newCount == 1
    ensures Patch(hunks, src, 0, 0) == None
  {
    ScriptAsHunks(acts, src, dst, hunks, 0);
    SharesOneCosts(src, dst);
    ShortestKeepsTheLine(acts, src, dst);
    LastTwo(acts[2..], src, dst);
    FourActions(acts);
    hide Walks, Patch, ChangesFrom, IsPatch, Dist;
    assert OldCount(acts[..2]) == 1 && NewCount(acts[..2]) == 2 by { TwoActions(acts); }
    assert !Anchored(AllGroups(acts, 0)[1], acts, src, dst, 0);
    assert acts[2..4] == acts[2..];
  }

  lemma TwoActions(acts: seq<LineAction>)
    requires |acts| >= 2 && acts[0].kind == Added && acts[1].kind == Kept
    ensures acts[..2] == [acts[0], acts[1]] && OldCount(acts[..2]) == 1 && NewCount(acts[..2]) == 2
  {
    var last := [acts[1]];
    assert last[1..] == [] && OldCount(last) == 1 && NewCount(last) == 1 && acts[..2][1..] == last;
  }

  ghost predicate WholeLine(line: Line) {
    IsLine(line) && line[|line| - 1] == NEWLINE
  }

  /** And so does the code, on the bytes of any four such lines. */
  method MisplacedHunks(p: Line, q: Line, r: Line, t: Line) returns (hunks: seq<Hunk<Line>>)
    requires WholeLine(p) && WholeLine(q) && WholeLine(r) && WholeLine(t) && SharesOne([p, q], [r, p, t])
    ensures Patch(hunks, [p, q], 0, 0) == None
  {
    hunks := DiffToHunks(p + q, r + p + t, 0);
    JoinTwo(p, q);
    JoinThree(r, p, t);
    assert exists acts :: IsPatch(hunks, [p, q], [r, p, t], acts, 0);
    ghost var acts :| IsPatch(hunks, [p, q], [r, p, t], acts, 0);
    ZeroContextMisplaces([p, q], [r, p, t], hunks, acts);
  }

  lemma JoinTwo(p: Line, q: Line)
    requires WholeLine(p) && WholeLine(q)
    ensures LinesOf(p + q) == [p, q]
  {
    assert [q] + [] == [q] && [p] + [q] == [p, q] && q + [] == q && Join([]) == [];
    FirstLine(q, []);
    FirstLine(p, [q]);
    SplitIsUnique([p, q]);
  }

  lemma JoinThree(r: Line, p: Line, t: Line)
    requires WholeLine(r) && WholeLine(p) && WholeLine(t)
    ensures LinesOf(r + p + t) == [r, p, t]
  {
    assert [t] + [] == [t] && [p] + [t] == [p, t] && [r] + [p, t] == [r, p, t] && t + [] == t && Join([]) == [];
    FirstLine(t, []);
    FirstLine(p, [t]);
    FirstLine(r, [p, t]);
    Slices.Assoc(r, p, t);
    hide Join, WellSplit;
    SplitIsUnique([r, p, t]);
  }
}
