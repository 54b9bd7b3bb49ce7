/** Edit scripts: the diff operations, their per-line expansion and what they do.

A script is read line by line: `Actions` lists one action a line, `Walks` says that the
actions name consecutive positions of both sequences and keep only equal lines, and
`Rebuild`/`Recover` replay them forwards and backwards. */
module EditScript {
  import Slices

  datatype DiffOp =
    | Equal(oldStart: nat, newStart: nat, count: nat)
    | Insert(newStart: nat, count: nat)
    | Delete(oldStart: nat, count: nat)

  datatype ActionKind = Kept | Added | Removed

  /** One line of a script. The index of the side an action does not touch is 0. */
  datatype LineAction = LineAction(kind: ActionKind, oldIdx: nat, newIdx: nat)

  // ---------------------------------------------------------------- expansion

  function OpAction(op: DiffOp, k: nat): LineAction {
    match op
    case Equal(o, n, _) => LineAction(Kept, o + k, n + k)
    case Insert(n, _) => LineAction(Added, 0, n + k)
    case Delete(o, _) => LineAction(Removed, o + k, 0)
  }

  function OpActions(op: DiffOp): (r: seq<LineAction>)
    ensures |r| == op.count
  {
    seq(op.count, k requires 0 <= k => OpAction(op, k))
  }

  function Actions(ops: seq<DiffOp>): seq<LineAction> {
    if ops == [] then [] else Actions(ops[..|ops| - 1]) + OpActions(ops[|ops| - 1])
  }

  lemma ActionsAppend(ops: seq<DiffOp>, op: DiffOp)
    ensures Actions(ops + [op]) == Actions(ops) + OpActions(op)
  {
    assert (ops + [op])[..|ops|] == ops;
  }

  lemma {:induction false} ActionsConcat(a: seq<DiffOp>, b: seq<DiffOp>)
    ensures Actions(a + b) == Actions(a) + Actions(b)
  {
    if b == [] {
      assert a + b == a;
    } else {
      var front, last := b[..|b| - 1], b[|b| - 1];
      ActionsConcat(a, front);
      assert b == front + [last] && a + b == (a + front) + [last];
      ActionsAppend(a + front, last);
      ActionsAppend(front, last);
      Slices.Assoc(Actions(a), Actions(front), OpActions(last));
    }
  }

  /** `expand_ops_to_actions`: a loop over the operations and, in each, over its lines. */
  method ExpandOps(ops: seq<DiffOp>) returns (actions: seq<LineAction>)
    ensures actions == Actions(ops)
  {
    actions := [];
    for i := 0 to |ops|
      invariant actions == Actions(ops[..i])
    {
      ghost var before := actions;
      var op := ops[i];
      for k := 0 to op.count
        invariant actions == before + OpActions(op)[..k]
      {
        actions := actions + [OpAction(op, k)];
      }
      assert ops[..i + 1][..i] == ops[..i];
    }
    assert ops[..|ops|] == ops;
  }

  // ---------------------------------------------------------------- meaning

  /** How far one action advances in the old and in the new sequence, and what it costs. */
  ghost function OldStep(act: LineAction): nat { if act.kind == Added then 0 else 1 }
  ghost function NewStep(act: LineAction): nat { if act.kind == Removed then 0 else 1 }
  ghost function StepCost(act: LineAction): nat { if act.kind == Kept then 0 else 1 }

  ghost function OldCount(acts: seq<LineAction>): nat {
    if acts == [] then 0 else OldStep(acts[0]) + OldCount(acts[1..])
  }

  ghost function NewCount(acts: seq<LineAction>): nat {
    if acts == [] then 0 else NewStep(acts[0]) + NewCount(acts[1..])
  }

  /** Lines inserted plus lines deleted. */
  ghost function Cost(acts: seq<LineAction>): nat {
    if acts == [] then 0 else StepCost(acts[0]) + Cost(acts[1..])
  }

  /** The action performed at position (i, j), and that it may be performed there. */
  ghost predicate Fits<T>(a: LineAction, src: seq<T>, dst: seq<T>, i: nat, j: nat) {
    match a.kind
    case Kept => i < |src| && j < |dst| && src[i] == dst[j] && a.oldIdx == i && a.newIdx == j
    case Added => j < |dst| && a.oldIdx == 0 && a.newIdx == j
    case Removed => i < |src| && a.oldIdx == i && a.newIdx == 0
  }

  /** The actions walk through both sequences without gap or overlap, starting at (i, j). */
  ghost predicate Walks<T>(acts: seq<LineAction>, src: seq<T>, dst: seq<T>, i: nat, j: nat)
    decreases |acts|
  {
    acts == [] ||
    (Fits(acts[0], src, dst, i, j) &&
     Walks(acts[1..], src, dst,
           i + OldStep(acts[0]), j + NewStep(acts[0])))
  }

  ghost predicate IsScript<T>(ops: seq<DiffOp>, src: seq<T>, dst: seq<T>) {
    var acts := Actions(ops);
    && (forall op <- ops :: op.count > 0)
    && Walks(acts, src, dst, 0, 0)
    && OldCount(acts) == |src|
    && NewCount(acts) == |dst|
  }

  lemma {:induction false} CountsConcat(a: seq<LineAction>, b: seq<LineAction>)
    ensures OldCount(a + b) == OldCount(a) + OldCount(b)
    ensures NewCount(a + b) == NewCount(a) + NewCount(b)
    ensures Cost(a + b) == Cost(a) + Cost(b)
  {
    if a == [] {
      assert a + b == b;
    } else {
      CountsConcat(a[1..], b);
      assert (a + b)[1..] == a[1..] + b;
    }
  }

  lemma {:induction false} WalksConcat<T>(a: seq<LineAction>, b: seq<LineAction>,
                                         src: seq<T>, dst: seq<T>, i: nat, j: nat)
    ensures Walks(a + b, src, dst, i, j)
       <==> Walks(a, src, dst, i, j) && Walks(b, src, dst, i + OldCount(a), j + NewCount(a))
    decreases |a|
  {
    if a == [] {
      assert a + b == b;
    } else {
      assert (a + b)[1..] == a[1..] + b;
      WalksConcat(a[1..], b, src, dst,
                  i + OldStep(a[0]), j + NewStep(a[0]));
    }
  }

  ghost predicate InRange<T>(act: LineAction, src: seq<T>, dst: seq<T>) {
    (act.kind != Added ==> act.oldIdx < |src|) && (act.kind != Removed ==> act.newIdx < |dst|)
  }

  ghost predicate Indexed<T>(acts: seq<LineAction>, src: seq<T>, dst: seq<T>) {
    acts == [] || (InRange(acts[0], src, dst) && Indexed(acts[1..], src, dst))
  }

  /** What one action contributes to the new text: kept lines come from `src`, added ones from `dst`. */
  ghost function Emitted<T>(act: LineAction, src: seq<T>, dst: seq<T>): seq<T>
    requires InRange(act, src, dst)
  {
    match act.kind
    case Kept => [src[act.oldIdx]]
    case Added => [dst[act.newIdx]]
    case Removed => []
  }

  /** Replaying a script on `src`. */
  ghost function Rebuild<T>(acts: seq<LineAction>, src: seq<T>, dst: seq<T>): seq<T>
    requires Indexed(acts, src, dst)
  {
    if acts == [] then [] else Emitted(acts[0], src, dst) + Rebuild(acts[1..], src, dst)
  }

  /** What one action contributes read backwards: kept lines come from `dst`, removed ones from `src`. */
  ghost function Restored<T>(act: LineAction, src: seq<T>, dst: seq<T>): seq<T>
    requires InRange(act, src, dst)
  {
    match act.kind
    case Kept => [dst[act.newIdx]]
    case Added => []
    case Removed => [src[act.oldIdx]]
  }

  /** Replaying a script backwards on `dst`. */
  ghost function Recover<T>(acts: seq<LineAction>, src: seq<T>, dst: seq<T>): seq<T>
    requires Indexed(acts, src, dst)
  {
    if acts == [] then [] else Restored(acts[0], src, dst) + Recover(acts[1..], src, dst)
  }

  /** The positions reached, and so the indices named, never leave the two sequences. */
  lemma {:induction false} WalkStaysInside<T>(acts: seq<LineAction>, src: seq<T>, dst: seq<T>, i: nat, j: nat)
    requires Walks(acts, src, dst, i, j) && i <= |src| && j <= |dst|
    ensures Indexed(acts, src, dst)
    ensures i + OldCount(acts) <= |src| && j + NewCount(acts) <= |dst|
    decreases |acts|
  {
    if acts != [] {
      WalkStaysInside(acts[1..], src, dst,
                      i + OldStep(acts[0]), j + NewStep(acts[0]));
    }
  }

  lemma ContributionOfOne<T>(act: LineAction, src: seq<T>, dst: seq<T>, i: nat, j: nat)
    requires Fits(act, src, dst, i, j) && i <= |src| && j <= |dst|
    ensures InRange(act, src, dst)
    ensures i + OldStep(act) <= |src| && j + NewStep(act) <= |dst|
    ensures Emitted(act, src, dst) == dst[j..j + NewStep(act)]
    ensures Restored(act, src, dst) == src[i..i + OldStep(act)]
  {
  }

  lemma {:induction false} RebuildWalk<T>(acts: seq<LineAction>, src: seq<T>, dst: seq<T>, i: nat, j: nat)
    requires Walks(acts, src, dst, i, j) && Indexed(acts, src, dst)
    requires i <= |src| && j + NewCount(acts) <= |dst|
    ensures Rebuild(acts, src, dst) == dst[j..j + NewCount(acts)]
    decreases |acts|
  {
    hide Fits, InRange, Emitted, Restored, OldStep, NewStep;
    if acts != [] {
      var i' := i + OldStep(acts[0]);
      var j' := j + NewStep(acts[0]);
      ContributionOfOne(acts[0], src, dst, i, j);
      RebuildWalk(acts[1..], src, dst, i', j');
      Slices.Join(dst, j, j', j + NewCount(acts));
    }
  }

  lemma {:induction false} RecoverWalk<T>(acts: seq<LineAction>, src: seq<T>, dst: seq<T>, i: nat, j: nat)
    requires Walks(acts, src, dst, i, j) && Indexed(acts, src, dst)
    requires j <= |dst| && i + OldCount(acts) <= |src|
    ensures Recover(acts, src, dst) == src[i..i + OldCount(acts)]
    decreases |acts|
  {
    hide Fits, InRange, Emitted, Restored, OldStep, NewStep;
    if acts != [] {
      var i' := i + OldStep(acts[0]);
      var j' := j + NewStep(acts[0]);
      ContributionOfOne(acts[0], src, dst, i, j);
      RecoverWalk(acts[1..], src, dst, i', j');
      Slices.Join(src, i, i', i + OldCount(acts));
    }
  }

  /** A script turns `src` into `dst`, and read backwards turns `dst` into `src`. */
  lemma ScriptTransforms<T>(ops: seq<DiffOp>, src: seq<T>, dst: seq<T>)
    requires IsScript(ops, src, dst)
    ensures Indexed(Actions(ops), src, dst)
    ensures Rebuild(Actions(ops), src, dst) == dst
    ensures Recover(Actions(ops), src, dst) == src
  {
    WalkStaysInside(Actions(ops), src, dst, 0, 0);
    RebuildWalk(Actions(ops), src, dst, 0, 0);
    RecoverWalk(Actions(ops), src, dst, 0, 0);
  }

  // ---------------------------------------------------------------- whole operations

  /** The actions of one operation, started where it says, form a walk over its range. */
  lemma {:induction false} OpWalks<T>(op: DiffOp, src: seq<T>, dst: seq<T>, i: nat, j: nat)
    requires op.Equal? ==> op.oldStart == i && op.newStart == j && i + op.count <= |src| && j + op.count <= |dst|
                           && src[i..i + op.count] == dst[j..j + op.count]
    requires op.Insert? ==> op.newStart == j && j + op.count <= |dst|
    requires op.Delete? ==> op.oldStart == i && i + op.count <= |src|
    ensures Walks(OpActions(op), src, dst, i, j)
    ensures OldCount(OpActions(op)) == if op.Insert? then 0 else op.count
    ensures NewCount(OpActions(op)) == if op.Delete? then 0 else op.count
    ensures Cost(OpActions(op)) == if op.Equal? then 0 else op.count
    decreases op.count
  {
    if op.count > 0 {
      var rest := match op
        case Equal(o, n, c) => Equal(o + 1, n + 1, c - 1)
        case Insert(n, c) => Insert(n + 1, c - 1)
        case Delete(o, c) => Delete(o + 1, c - 1);
      assert OpActions(op)[1..] == OpActions(rest);
      if op.Equal? {
        assert src[i..i + op.count][1..] == src[i + 1..i + op.count];
        assert dst[j..j + op.count][1..] == dst[j + 1..j + op.count];
        assert src[i] == src[i..i + op.count][0] == dst[j..j + op.count][0];
      }
      OpWalks(rest, src, dst,
              if op.Insert? then i else i + 1, if op.Delete? then j else j + 1);
    }
  }

  // ---------------------------------------------------------------- merging

  predicate Mergeable(last: DiffOp, op: DiffOp) {
    match (last, op)
    case (Equal(po, pn, pc), Equal(o, n, _)) => o == po + pc && n == pn + pc
    case (Insert(pn, pc), Insert(n, _)) => n == pn + pc
    case (Delete(po, pc), Delete(o, _)) => o == po + pc
    case _ => false
  }

  function Joined(last: DiffOp, op: DiffOp): (r: DiffOp)
    ensures r.count == last.count + op.count
    ensures forall next :: Mergeable(next, r) <==> Mergeable(next, last)
  {
    last.(count := last.count + op.count)
  }

  lemma JoinedActions(last: DiffOp, op: DiffOp)
    requires Mergeable(last, op)
    ensures OpActions(Joined(last, op)) == OpActions(last) + OpActions(op)
  {
  }

  lemma JoinKeepsActions(front: seq<DiffOp>, last: DiffOp, op: DiffOp)
    requires Mergeable(last, op)
    ensures Actions(front + [Joined(last, op)]) == Actions(front + [last]) + OpActions(op)
  {
    JoinedActions(last, op);
    hide *;
    ActionsAppend(front, Joined(last, op));
    ActionsAppend(front, last);
    Slices.Assoc(Actions(front), OpActions(last), OpActions(op));
  }

  predicate SameKind(a: DiffOp, b: DiffOp) {
    (a.Equal? && b.Equal?) || (a.Insert? && b.Insert?) || (a.Delete? && b.Delete?)
  }

  /** No two neighbours are of the same kind, and no operation is empty. */
  predicate Alternates(ops: seq<DiffOp>) {
    && (forall k :: 0 <= k < |ops| ==> ops[k].count > 0)
    && (forall k :: 0 < k < |ops| ==> !SameKind(ops[k - 1], ops[k]))
  }

  /** What one operation of a walk says about the place where it begins. */
  lemma {:induction false} OpInWalk<T>(op: DiffOp, src: seq<T>, dst: seq<T>, i: nat, j: nat)
    requires Walks(OpActions(op), src, dst, i, j) && op.count > 0
    ensures (op.Insert? || op.oldStart == i) && (op.Delete? || op.newStart == j)
    ensures OldCount(OpActions(op)) == (if op.Insert? then 0 else op.count)
    ensures NewCount(OpActions(op)) == (if op.Delete? then 0 else op.count)
    ensures op.Equal? ==> i + op.count <= |src| && j + op.count <= |dst|
    ensures op.Equal? ==> src[i] == dst[j] && src[i + op.count - 1] == dst[j + op.count - 1]
    decreases op.count
  {
    var acts := OpActions(op);
    assert acts[0] == OpAction(op, 0);
    if op.count == 1 {
      assert acts[1..] == [];
    } else {
      var rest := match op
        case Equal(o, n, c) => Equal(o + 1, n + 1, c - 1)
        case Insert(n, c) => Insert(n + 1, c - 1)
        case Delete(o, c) => Delete(o + 1, c - 1);
      assert acts[1..] == OpActions(rest);
      OpInWalk(rest, src, dst, i + OldStep(acts[0]), j + NewStep(acts[0]));
    }
  }

  /** In a walk, neighbours of the same kind are always contiguous; so merging leaves none. */
  lemma MergedAlternate<T>(ops: seq<DiffOp>, src: seq<T>, dst: seq<T>, i: nat, j: nat)
    requires Walks(Actions(ops), src, dst, i, j) && forall op <- ops :: op.count > 0
    requires forall k :: 0 < k < |ops| ==> !Mergeable(ops[k - 1], ops[k])
    ensures Alternates(ops)
  {
    hide Walks, Actions;
    forall k | 0 < k < |ops|
      ensures !SameKind(ops[k - 1], ops[k])
    {
      NeighboursTouch(ops, src, dst, i, j, k);
    }
  }

  /** An operation of a walk walks from where those before it end. */
  lemma OpWalksOn<T>(front: seq<DiffOp>, op: DiffOp, rest: seq<DiffOp>, src: seq<T>, dst: seq<T>, i: nat, j: nat)
    requires Walks(Actions(front + [op] + rest), src, dst, i, j)
    ensures Walks(OpActions(op), src, dst, i + OldCount(Actions(front)), j + NewCount(Actions(front)))
    ensures OldCount(Actions(front + [op])) == OldCount(Actions(front)) + OldCount(OpActions(op))
    ensures NewCount(Actions(front + [op])) == NewCount(Actions(front)) + NewCount(OpActions(op))
  {
    hide *;
    ActionsConcat(front + [op], rest);
    ActionsAppend(front, op);
    WalksConcat(Actions(front + [op]), Actions(rest), src, dst, i, j);
    WalksConcat(Actions(front), OpActions(op), src, dst, i, j);
    CountsConcat(Actions(front), OpActions(op));
  }

  lemma NeighboursTouch<T>(ops: seq<DiffOp>, src: seq<T>, dst: seq<T>, i: nat, j: nat, k: nat)
    requires Walks(Actions(ops), src, dst, i, j) && 0 < k < |ops|
    requires ops[k - 1].count > 0 && ops[k].count > 0
    ensures SameKind(ops[k - 1], ops[k]) ==> Mergeable(ops[k - 1], ops[k])
  {
    hide Walks, Actions, OldCount, NewCount;
    var front, one, two := ops[..k - 1], ops[k - 1], ops[k];
    assert ops == front + [one] + ops[k..] && ops == front + [one] + [two] + ops[k + 1..];
    OpWalksOn(front, one, ops[k..], src, dst, i, j);
    OpWalksOn(front + [one], two, ops[k + 1..], src, dst, i, j);
    var c, r := i + OldCount(Actions(front)), j + NewCount(Actions(front));
    OpInWalk(one, src, dst, c, r);
    OpInWalk(two, src, dst, c + OldCount(OpActions(one)), r + NewCount(OpActions(one)));
  }

  lemma NothingWalked()
    ensures OldCount(Actions([])) == 0 && NewCount(Actions([])) == 0
  {
  }

  /** An equal run at the beginning or at the end of a walk pairs the lines there. */
  lemma EqualAtTheStart<T>(ops: seq<DiffOp>, src: seq<T>, dst: seq<T>, i: nat, j: nat)
    requires Walks(Actions(ops), src, dst, i, j) && ops != [] && ops[0].count > 0
    ensures ops[0].Equal? ==> i < |src| && j < |dst| && src[i] == dst[j]
  {
    hide *;
    var none: seq<DiffOp> := [];
    NothingWalked();
    FirstAndRest(ops);
    OpWalksOn(none, ops[0], ops[1..], src, dst, i, j);
    OpInWalk(ops[0], src, dst, i, j);
  }

  lemma FirstAndRest(ops: seq<DiffOp>)
    requires ops != []
    ensures ops == [] + [ops[0]] + ops[1..]
  {
  }

  lemma EqualAtTheEnd<T>(ops: seq<DiffOp>, src: seq<T>, dst: seq<T>, i: nat, j: nat)
    requires Walks(Actions(ops), src, dst, i, j) && ops != [] && ops[|ops| - 1].count > 0
    ensures var c, r := OldCount(Actions(ops)), NewCount(Actions(ops));
      ops[|ops| - 1].Equal? ==>
        0 < c && i + c <= |src| && 0 < r && j + r <= |dst| && src[i + c - 1] == dst[j + r - 1]
  {
    hide Walks, Actions, OldCount, NewCount;
    var front, last := ops[..|ops| - 1], ops[|ops| - 1];
    assert ops == front + [last] + [] && ops == front + [last];
    OpWalksOn(front, last, [], src, dst, i, j);
    OpInWalk(last, src, dst, i + OldCount(Actions(front)), j + NewCount(Actions(front)));
  }

  /** `merge_ops`: for every list of operations, the merged list expands to the same lines
      and leaves no two neighbours that could still be joined. */
  method MergeOps(ops: seq<DiffOp>) returns (merged: seq<DiffOp>)
    ensures Actions(merged) == Actions(ops)
    ensures forall k :: 0 < k < |merged| ==> !Mergeable(merged[k - 1], merged[k])
    ensures (forall op <- ops :: op.count > 0) ==> forall op <- merged :: op.count > 0
    ensures |merged| <= |ops|
  {
    hide Actions, OpActions, Mergeable, Joined;
    merged := [];
    assert ops[..0] == merged;
    for i := 0 to |ops|
      invariant Actions(merged) == Actions(ops[..i])
      invariant forall k :: 0 < k < |merged| ==> !Mergeable(merged[k - 1], merged[k])
      invariant (forall op <- ops :: op.count > 0) ==> forall op <- merged :: op.count > 0
      invariant |merged| <= i
    {
      var op := ops[i];
      assert ops[..i + 1] == ops[..i] + [op];
      ActionsAppend(ops[..i], op);
      if |merged| > 0 && Mergeable(merged[|merged| - 1], op) {
        var front, last := merged[..|merged| - 1], merged[|merged| - 1];
        JoinKeepsActions(front, last, op);
        assert merged == front + [last];
        merged := front + [Joined(last, op)];
      } else {
        ActionsAppend(merged, op);
        merged := merged + [op];
      }
    }
    assert ops[..|ops|] == ops;
  }
}
