/** The greedy furthest-reaching search of Myers' O(ND) difference algorithm, its
backtracking pass. */
module Myers {
  import opened Slices
  import opened EditScript
  import opened EditDistance

  // ---------------------------------------------------------------- one round of the search

  /** The diagonals visited in round `depth`. */
  predicate OnRound(diag: int, depth: int) {
    -depth <= diag <= depth && (diag + depth) % 2 == 0
  }

  function ToUsize(x: int): nat { if x < 0 then 0 else x }

  /** Whether diagonal `diag` is entered from `diag + 1` (an insertion) rather than `diag - 1`. */
  predicate FromAbove(frontier: seq<nat>, maxEdit: nat, depth: nat, diag: int)
    requires |frontier| == 2 * maxEdit + 1 && OnRound(diag, depth) && depth <= maxEdit
  {
    diag + depth == 0 || (diag != depth && frontier[diag - 1 + maxEdit] < frontier[diag + 1 + maxEdit])
  }

  function EntryCol(frontier: seq<nat>, maxEdit: nat, depth: nat, diag: int): nat
    requires |frontier| == 2 * maxEdit + 1 && OnRound(diag, depth) && depth <= maxEdit && maxEdit > 0
  {
    if FromAbove(frontier, maxEdit, depth, diag) then frontier[diag + 1 + maxEdit]
    else frontier[diag - 1 + maxEdit] + 1
  }

  /** Column where the run of equal lines starting at (col, row) ends. */
  ghost function Slide<T>(src: seq<T>, dst: seq<T>, col: nat, row: nat): (c: nat)
    ensures c >= col
    decreases |src| - col
  {
    if Match(src, dst, col, row) then Slide(src, dst, col + 1, row + 1) else col
  }

  ghost function ExitCol<T>(src: seq<T>, dst: seq<T>, frontier: seq<nat>, maxEdit: nat, depth: nat, diag: int): nat
    requires |frontier| == 2 * maxEdit + 1 && OnRound(diag, depth) && depth <= maxEdit && maxEdit > 0
  {
    var col := EntryCol(frontier, maxEdit, depth, diag);
    Slide(src, dst, col, ToUsize(col - diag))
  }

  // ---------------------------------------------------------------- furthest reaching points

  /** On diagonal `k`, column `x` is the last one within `d` edits. */
  ghost predicate Furthest<T>(src: seq<T>, dst: seq<T>, x: int, k: int, d: int) {
    0 <= x && k <= x && Dist(src, dst, x, x - k) <= d < Dist(src, dst, x + 1, x + 1 - k)
  }

  /** The frontier as it stands when round `depth` begins. */
  ghost predicate Frontier<T>(src: seq<T>, dst: seq<T>, frontier: seq<nat>, maxEdit: nat, depth: nat) {
    && |frontier| == 2 * maxEdit + 1
    && 0 < maxEdit
    && depth <= maxEdit + 1
    && (depth == 0 ==> frontier[maxEdit + 1] == 0)
    && (depth > 0 ==> AfterRound(src, dst, frontier, maxEdit, depth - 1))
  }

  ghost predicate AfterRound<T>(src: seq<T>, dst: seq<T>, frontier: seq<nat>, maxEdit: nat, depth: nat)
    requires |frontier| == 2 * maxEdit + 1 && depth <= maxEdit
  {
    forall k :: OnRound(k, depth) ==> Furthest(src, dst, frontier[k + maxEdit], k, depth)
  }

  lemma {:induction false} SlideIsFree<T>(src: seq<T>, dst: seq<T>, col: nat, row: nat)
    ensures var c := Slide(src, dst, col, row);
      Dist(src, dst, c, row + (c - col)) == Dist(src, dst, col, row) && !Match(src, dst, c, row + (c - col))
    decreases |src| - col
  {
    if Match(src, dst, col, row) {
      SlideIsFree(src, dst, col + 1, row + 1);
    }
  }

  /** The entry point of a round is within the round's budget. */
  lemma EntryWithinBudget<T>(src: seq<T>, dst: seq<T>, f: seq<nat>, maxEdit: nat, depth: nat, diag: int)
    requires Frontier(src, dst, f, maxEdit, depth) && depth <= maxEdit && OnRound(diag, depth)
    ensures var c := EntryCol(f, maxEdit, depth, diag);
      diag <= c && Dist(src, dst, c, c - diag) <= depth
  {
    if depth == 0 {
      assert Dist(src, dst, 0, 0) == 0;
    }
    hide Dist;
    if depth > 0 {
      if FromAbove(f, maxEdit, depth, diag) {
        assert OnRound(diag + 1, depth - 1);
        var x := f[diag + 1 + maxEdit];
        assert Furthest(src, dst, f[(diag + 1) + maxEdit], diag + 1, depth - 1);
        Neighbours(src, dst, x, x - diag - 1);
      } else {
        assert OnRound(diag - 1, depth - 1);
        var x := f[diag - 1 + maxEdit];
        assert Furthest(src, dst, f[(diag - 1) + maxEdit], diag - 1, depth - 1);
        Neighbours(src, dst, x, x - diag + 1);
      }
    }
  }

  /** Beyond the entry point both neighbouring diagonals are out of the previous round's budget. */
  lemma NeighboursOutOfBudget<T>(src: seq<T>, dst: seq<T>, f: seq<nat>, maxEdit: nat, depth: nat, diag: int, c: nat)
    requires Frontier(src, dst, f, maxEdit, depth) && depth <= maxEdit && OnRound(diag, depth)
    requires EntryCol(f, maxEdit, depth, diag) <= c && diag <= c
    ensures Dist(src, dst, c, c - diag + 1) >= depth
    ensures Dist(src, dst, c + 1, c - diag) >= depth
  {
    hide Dist;
    if diag + depth == 0 {
      AtLeastOffset(src, dst, c, c - diag + 1);
    } else {
      assert OnRound(diag - 1, depth - 1);
      var x := f[diag - 1 + maxEdit];
      assert Furthest(src, dst, f[(diag - 1) + maxEdit], diag - 1, depth - 1);
      DiagonalRises(src, dst, x + 1, x + 1 - (diag - 1), c - (x + 1));
    }
    if diag == depth {
      AtLeastOffset(src, dst, c + 1, c - diag);
    } else {
      assert OnRound(diag + 1, depth - 1);
      var x := f[diag + 1 + maxEdit];
      assert Furthest(src, dst, f[(diag + 1) + maxEdit], diag + 1, depth - 1);
      DiagonalRises(src, dst, x + 1, x + 1 - (diag + 1), c - x);
    }
  }

  lemma NoMatchCosts<T>(src: seq<T>, dst: seq<T>, i: nat, j: nat, depth: nat)
    requires !Match(src, dst, i, j)
    requires Dist(src, dst, i, j + 1) >= depth && Dist(src, dst, i + 1, j) >= depth
    ensures Dist(src, dst, i + 1, j + 1) > depth
  {
  }

  /** The greedy step finds the furthest reaching point of every diagonal of the round. */
  lemma ExitIsFurthest<T>(src: seq<T>, dst: seq<T>, f: seq<nat>, maxEdit: nat, depth: nat, diag: int)
    requires Frontier(src, dst, f, maxEdit, depth) && depth <= maxEdit && OnRound(diag, depth)
    ensures EntryCol(f, maxEdit, depth, diag) >= diag
    ensures Furthest(src, dst, ExitCol(src, dst, f, maxEdit, depth, diag), diag, depth)
  {
    hide Dist;
    EntryWithinBudget(src, dst, f, maxEdit, depth, diag);
    var c := EntryCol(f, maxEdit, depth, diag);
    var x := Slide(src, dst, c, c - diag);
    SlideIsFree(src, dst, c, c - diag);
    NeighboursOutOfBudget(src, dst, f, maxEdit, depth, diag, x);
    NoMatchCosts(src, dst, x, x - diag, depth);
  }

  /** A point at or beyond both ends can only be the end itself, while the end is not yet in reach. */
  lemma ExitAtTheEnd<T>(src: seq<T>, dst: seq<T>, col: nat, diag: int, depth: nat)
    requires Furthest(src, dst, col, diag, depth)
    requires col >= |src| && col - diag >= |dst|
    requires Dist(src, dst, |src|, |dst|) >= depth
    ensures col == |src| && col - diag == |dst| && Dist(src, dst, |src|, |dst|) == depth
  {
    Beyond(src, dst, col, col - diag);
  }

  /** A full round that never met the end puts it out of the round's budget. */
  lemma RoundMissesEnd<T>(src: seq<T>, dst: seq<T>, f: seq<nat>, maxEdit: nat, depth: nat)
    requires Frontier(src, dst, f, maxEdit, depth + 1)
    requires Dist(src, dst, |src|, |dst|) >= depth
    requires forall k :: OnRound(k, depth) ==> f[k + maxEdit] < |src| || f[k + maxEdit] - k < |dst|
    ensures Dist(src, dst, |src|, |dst|) > depth
  {
    hide Dist;
    if Dist(src, dst, |src|, |dst|) == depth {
      EndOnRound(src, dst, depth);
      var k := |src| - |dst|;
      var x := f[k + maxEdit];
      assert Furthest(src, dst, x, k, depth) && x < |src|;
      DiagonalRises(src, dst, x + 1, x + 1 - k, |src| - (x + 1));
    }
  }

  lemma EndOnRound<T>(src: seq<T>, dst: seq<T>, depth: nat)
    requires Dist(src, dst, |src|, |dst|) == depth
    ensures OnRound(|src| - |dst|, depth)
  {
    AtLeastOffset(src, dst, |src|, |dst|);
    Parity(src, dst, |src|, |dst|);
  }

  // ---------------------------------------------------------------- the saved trace

  /** `after` is the frontier one full round after `before`. */
  ghost predicate Advances<T>(src: seq<T>, dst: seq<T>, before: seq<nat>, after: seq<nat>, maxEdit: nat, depth: nat)
    requires |before| == 2 * maxEdit + 1 && depth <= maxEdit && maxEdit > 0
  {
    && |after| == 2 * maxEdit + 1
    && forall k :: OnRound(k, depth) ==> after[k + maxEdit] == ExitCol(src, dst, before, maxEdit, depth, k)
  }

  ghost predicate TraceOk<T>(src: seq<T>, dst: seq<T>, trace: seq<seq<nat>>, maxEdit: nat) {
    && 0 < maxEdit
    && |trace| <= maxEdit + 1
    && (forall d :: 0 <= d < |trace| ==> Frontier(src, dst, trace[d], maxEdit, d))
    && (forall d :: 0 < d < |trace| ==> Advances(src, dst, trace[d - 1], trace[d], maxEdit, d - 1))
  }

  lemma AdvanceKeepsFrontier<T>(src: seq<T>, dst: seq<T>, before: seq<nat>, after: seq<nat>, maxEdit: nat, depth: nat)
    requires depth <= maxEdit && Frontier(src, dst, before, maxEdit, depth)
    requires Advances(src, dst, before, after, maxEdit, depth)
    ensures Frontier(src, dst, after, maxEdit, depth + 1)
  {
    forall k | OnRound(k, depth)
      ensures Furthest(src, dst, after[k + maxEdit], k, depth)
    {
      ExitIsFurthest(src, dst, before, maxEdit, depth, k);
    }
  }

  // ---------------------------------------------------------------- backtracking

  /** The script collected backwards so far, replayed forwards from (i, j) of `a` and `b`,
      consumes `n` and `m` lines at the given cost. */
  ghost predicate Leads<T>(ops: seq<DiffOp>, a: seq<T>, b: seq<T>, i: nat, j: nat, n: int, m: int, cost: int) {
    var acts := Actions(Reversed(ops));
    && Walks(acts, a, b, i, j)
    && OldCount(acts) == n && NewCount(acts) == m && Cost(acts) == cost
    && forall k :: 0 <= k < |ops| ==> ops[k].count == 1
  }

  lemma LeadsNowhere<T>(a: seq<T>, b: seq<T>, i: nat, j: nat)
    ensures Leads([], a, b, i, j, 0, 0, 0)
  {
  }

  /** What the collected operations amount to once they are put in order. */
  lemma LeadsThrough<T>(ops: seq<DiffOp>, a: seq<T>, b: seq<T>, i: nat, j: nat, n: int, m: int, cost: int)
    requires Leads(ops, a, b, i, j, n, m, cost)
    ensures var acts := Actions(Reversed(ops));
      Walks(acts, a, b, i, j) && OldCount(acts) == n && NewCount(acts) == m && Cost(acts) == cost
    ensures forall op <- Reversed(ops) :: op.count > 0
  {
  }

  /** Pushing one more single-line operation extends the script at its front. */
  lemma PushExtends<T>(ops: seq<DiffOp>, op: DiffOp, a: seq<T>, b: seq<T>, i: nat, j: nat, n: int, m: int, cost: int)
    requires op.count == 1
    requires op.Equal? ==> op.oldStart == i && op.newStart == j && Match(a, b, i, j)
    requires op.Insert? ==> op.newStart == j && j < |b|
    requires op.Delete? ==> op.oldStart == i && i < |a|
    requires Leads(ops, a, b, if op.Insert? then i else i + 1, if op.Delete? then j else j + 1, n, m, cost)
    ensures Leads(ops + [op], a, b, i, j,
                  if op.Insert? then n else n + 1, if op.Delete? then m else m + 1,
                  if op.Equal? then cost else cost + 1)
  {
    var acts := Actions(Reversed(ops));
    assert (ops + [op])[..|ops|] == ops;
    assert Reversed(ops + [op]) == [op] + Reversed(ops);
    ActionsConcat([op], Reversed(ops));
    assert Actions([op]) == OpActions(op);
    if op.Equal? {
      assert a[i..i + 1] == b[j..j + 1];
    }
    OpWalks(op, a, b, i, j);
    WalksConcat(OpActions(op), acts, a, b, i, j);
    CountsConcat(OpActions(op), acts);
  }

  lemma {:induction false} SlideMatches<T>(src: seq<T>, dst: seq<T>, col: nat, row: nat, q: nat)
    requires col <= q < Slide(src, dst, col, row)
    ensures Match(src, dst, q, row + (q - col))
    decreases q - col
  {
    if q > col {
      SlideMatches(src, dst, col + 1, row + 1, q);
    }
  }

  ghost predicate Inside<T>(src: seq<T>, dst: seq<T>, offset: nat, a: seq<T>, b: seq<T>) {
    && offset + |src| <= |a| && offset + |dst| <= |b|
    && src == a[offset..offset + |src|] && dst == b[offset..offset + |dst|]
  }

  lemma MatchInside<T>(src: seq<T>, dst: seq<T>, offset: nat, a: seq<T>, b: seq<T>, col: nat, row: nat)
    requires Inside(src, dst, offset, a, b) && Match(src, dst, col, row)
    ensures Match(a, b, col + offset, row + offset)
  {
  }

  lemma InsideBounds<T>(src: seq<T>, dst: seq<T>, offset: nat, a: seq<T>, b: seq<T>)
    requires Inside(src, dst, offset, a, b)
    ensures offset + |src| <= |a| && offset + |dst| <= |b|
  {
  }

  /** Where backtracking stands before it looks at round `depth - 1`: on the exit point of
      that round, or at the origin when no round is left. */
  ghost predicate OnTrace<T>(src: seq<T>, dst: seq<T>, trace: seq<seq<nat>>, maxEdit: nat, depth: nat, col: nat,
                             row: nat)
    requires depth <= |trace| && TraceOk(src, dst, trace, maxEdit)
  {
    && col <= |src| && row <= |dst|
    && if depth == 0 then col == row == 0
       else OnRound(col - row, depth - 1)
            && col == ExitCol(src, dst, trace[depth - 1], maxEdit, depth - 1, col - row)
  }

  /** The diagonal chosen backwards is the one the search came from, and its saved column is
      the exit point of the round before. */
  lemma PreviousOnTrace<T>(src: seq<T>, dst: seq<T>, trace: seq<seq<nat>>, maxEdit: nat, depth: nat, diag: int)
    requires TraceOk(src, dst, trace, maxEdit) && depth < |trace| && OnRound(diag, depth)
    ensures depth <= maxEdit && 0 < maxEdit && |trace[depth]| == 2 * maxEdit + 1
    ensures depth == 0 ==> trace[0][1 + maxEdit] == 0
    ensures EntryCol(trace[depth], maxEdit, depth, diag) >= diag
    ensures var entry := EntryCol(trace[depth], maxEdit, depth, diag);
      ExitCol(src, dst, trace[depth], maxEdit, depth, diag) == Slide(src, dst, entry, entry - diag)
    ensures depth == 0 ==> diag == 0 && FromAbove(trace[0], maxEdit, 0, 0) && EntryCol(trace[0], maxEdit, 0, 0) == 0
    ensures depth > 0 ==>
      EntryCol(trace[depth], maxEdit, depth, diag)
        == if FromAbove(trace[depth], maxEdit, depth, diag) then trace[depth][diag + 1 + maxEdit]
           else trace[depth][diag - 1 + maxEdit] + 1
    ensures depth > 0 ==>
      var prevDiag := if FromAbove(trace[depth], maxEdit, depth, diag) then diag + 1 else diag - 1;
      var prevCol := trace[depth][prevDiag + maxEdit];
      && OnRound(prevDiag, depth - 1) && prevDiag <= prevCol
      && prevCol == ExitCol(src, dst, trace[depth - 1], maxEdit, depth - 1, prevDiag)
  {
    assert Frontier(src, dst, trace[depth], maxEdit, depth);
    ExitIsFurthest(src, dst, trace[depth], maxEdit, depth, diag);
    if depth > 0 {
      assert Advances(src, dst, trace[depth - 1], trace[depth], maxEdit, depth - 1);
      assert OnRound(if FromAbove(trace[depth], maxEdit, depth, diag) then diag + 1 else diag - 1, depth - 1);
    }
  }

  /** The equal lines between the exit and the entry point of a round, pushed backwards. */
  method UndoDiagonal<T>(ops0: seq<DiffOp>, col0: nat, row0: nat, prevCol: nat, prevRow: nat, offset: nat,
                         ghost src: seq<T>, ghost dst: seq<T>, ghost a: seq<T>, ghost b: seq<T>,
                         ghost entry: nat, ghost cost: nat)
    returns (col: nat, row: nat, ops: seq<DiffOp>)
    requires col0 <= |src| && row0 <= |dst| && Inside(src, dst, offset, a, b)
    requires entry <= col0 && entry + row0 >= col0 && col0 == Slide(src, dst, entry, entry + row0 - col0)
    requires (prevCol == entry && prevRow < entry + row0 - col0)
          || (prevRow == entry + row0 - col0 && prevCol < entry)
          || (prevRow == entry + row0 - col0 && prevCol == entry)
    requires Leads(ops0, a, b, col0 + offset, row0 + offset, |src| - col0, |dst| - row0, cost)
    ensures col == entry && col - row == col0 - row0
    ensures Leads(ops, a, b, col + offset, row + offset, |src| - col, |dst| - row, cost)
  {
    hide Leads, Slide, Match, Inside;
    col, row, ops := col0, row0, ops0;
    while col > prevCol && row > prevRow
      invariant entry <= col <= col0 && col - row == col0 - row0
      invariant Leads(ops, a, b, col + offset, row + offset, |src| - col, |dst| - row, cost)
      decreases col
    {
      SlideMatches(src, dst, entry, entry + row0 - col0, col - 1);
      col, row := col - 1, row - 1;
      MatchInside(src, dst, offset, a, b, col, row);
      PushExtends(ops, Equal(col + offset, row + offset, 1), a, b, col + offset, row + offset,
                  |src| - col - 1, |dst| - row - 1, cost);
      ops := ops + [Equal(col + offset, row + offset, 1)];
    }
  }

  /** `backtrack`: walks the saved frontiers from the last round to the first. */
  method Backtrack<T>(trace: seq<seq<nat>>, oldLen: nat, newLen: nat, maxEdit: nat, offset: nat,
                      ghost src: seq<T>, ghost dst: seq<T>, ghost a: seq<T>, ghost b: seq<T>)
    returns (r: seq<DiffOp>)
    requires oldLen == |src| && newLen == |dst| && maxEdit == oldLen + newLen
    requires Inside(src, dst, offset, a, b)
    requires TraceOk(src, dst, trace, maxEdit) && |trace| > 0
    requires OnTrace(src, dst, trace, maxEdit, |trace|, oldLen, newLen)
    ensures Walks(Actions(r), a, b, offset, offset)
    ensures OldCount(Actions(r)) == oldLen && NewCount(Actions(r)) == newLen
    ensures Cost(Actions(r)) == |trace| - 1
    ensures forall op <- r :: op.count > 0
    ensures forall k :: 0 < k < |r| ==> !Mergeable(r[k - 1], r[k])
  {
    hide Leads, TraceOk, Slide, Match, Mergeable, Inside, Walks, Actions, OldCount, NewCount, Cost;
    hide FromAbove, EntryCol, ExitCol;
    var col: nat, row: nat := oldLen, newLen;
    var ops: seq<DiffOp> := [];
    LeadsNowhere(a, b, col + offset, row + offset);
    InsideBounds(src, dst, offset, a, b);
    for depth := |trace| downto 0
      invariant OnTrace(src, dst, trace, maxEdit, depth, col, row)
      invariant Leads(ops, a, b, col + offset, row + offset, oldLen - col, newLen - row,
                      if depth > 0 then |trace| - depth else |trace| - 1)
    {
      var frontier := trace[depth];
      var diag := col - row;
      PreviousOnTrace(src, dst, trace, maxEdit, depth, diag);
      ghost var entry := EntryCol(frontier, maxEdit, depth, diag);
      var prevDiag := if FromAbove(frontier, maxEdit, depth, diag) then diag + 1 else diag - 1;
      var prevCol := frontier[prevDiag + maxEdit];
      var prevRow := ToUsize(prevCol - prevDiag);
      col, row, ops :=
        UndoDiagonal(ops, col, row, prevCol, prevRow, offset, src, dst, a, b, entry, |trace| - 1 - depth);
      if depth > 0 {
        if col == prevCol {
          row := row - 1;
          PushExtends(ops, Insert(row + offset, 1), a, b, col + offset, row + offset,
                      oldLen - col, newLen - row - 1, |trace| - 1 - depth);
          ops := ops + [Insert(row + offset, 1)];
        } else {
          col := col - 1;
          PushExtends(ops, Delete(col + offset, 1), a, b, col + offset, row + offset,
                      oldLen - col - 1, newLen - row, |trace| - 1 - depth);
          ops := ops + [Delete(col + offset, 1)];
        }
      }
    }
    LeadsThrough(ops, a, b, offset, offset, oldLen, newLen, |trace| - 1);
    r := MergeOps(Reversed(ops));
  }

  lemma TraceGrows<T>(src: seq<T>, dst: seq<T>, trace: seq<seq<nat>>, f: seq<nat>, maxEdit: nat)
    requires |trace| <= maxEdit && TraceOk(src, dst, trace, maxEdit)
    requires Frontier(src, dst, f, maxEdit, |trace|)
    requires |trace| > 0 ==> Advances(src, dst, trace[|trace| - 1], f, maxEdit, |trace| - 1)
    ensures TraceOk(src, dst, trace + [f], maxEdit)
  {
  }

  /** Follows equal lines from (col, row). */
  method FollowDiagonal<T(==)>(src: seq<T>, dst: seq<T>, col: nat, row: nat) returns (c: nat, r: nat)
    ensures c == Slide(src, dst, col, row) && c - r == col - row
  {
    c, r := col, row;
    while c < |src| && r < |dst| && src[c] == dst[r]
      invariant Slide(src, dst, c, r) == Slide(src, dst, col, row)
      invariant c - r == col - row
      decreases |src| - c
    {
      c, r := c + 1, r + 1;
    }
  }

  lemma EntryReadsNeighbours(f: seq<nat>, g: seq<nat>, maxEdit: nat, depth: nat, diag: int)
    requires |f| == |g| == 2 * maxEdit + 1 && OnRound(diag, depth) && depth <= maxEdit && maxEdit > 0
    requires diag + maxEdit > 0 ==> f[diag - 1 + maxEdit] == g[diag - 1 + maxEdit]
    requires diag < maxEdit ==> f[diag + 1 + maxEdit] == g[diag + 1 + maxEdit]
    ensures EntryCol(f, maxEdit, depth, diag) == EntryCol(g, maxEdit, depth, diag)
  {
  }

  /** Round `depth` of the search; stops as soon as a diagonal reaches both ends. */
  method Round<T(==)>(src: seq<T>, dst: seq<T>, frontier: array<nat>, maxEdit: nat, depth: nat) returns (found: bool)
    requires Frontier(src, dst, frontier[..], maxEdit, depth) && depth <= maxEdit
    requires Dist(src, dst, |src|, |dst|) >= depth
    modifies frontier
    ensures !found ==> Advances(src, dst, old(frontier[..]), frontier[..], maxEdit, depth)
    ensures !found ==> Frontier(src, dst, frontier[..], maxEdit, depth + 1)
    ensures !found ==> Dist(src, dst, |src|, |dst|) > depth
    ensures found ==> Dist(src, dst, |src|, |dst|) == depth && OnRound(|src| - |dst|, depth)
                      && ExitCol(src, dst, old(frontier[..]), maxEdit, depth, |src| - |dst|) == |src|
  {
    hide Dist, AfterRound, Slide, Match, FromAbove, EntryCol;
    ghost var before := frontier[..];
    var diag := 0 - depth;
    while diag <= depth
      invariant 0 - depth <= diag <= depth + 2 && (diag + depth) % 2 == 0
      invariant forall k :: OnRound(k, depth) && k < diag ==>
        && frontier[k + maxEdit] == ExitCol(src, dst, before, maxEdit, depth, k)
        && (frontier[k + maxEdit] < |src| || frontier[k + maxEdit] - k < |dst|)
      invariant forall q :: 0 <= q < frontier.Length && !(OnRound(q - maxEdit, depth) && q - maxEdit < diag) ==>
        frontier[q] == before[q]
    {
      assert OnRound(diag, depth) && !OnRound(diag - 1, depth) && !OnRound(diag + 1, depth);
      ExitIsFurthest(src, dst, before, maxEdit, depth, diag);
      EntryReadsNeighbours(frontier[..], before, maxEdit, depth, diag);
      var start := EntryCol(frontier[..], maxEdit, depth, diag);
      var col, row := FollowDiagonal(src, dst, start, ToUsize(start - diag));
      frontier[diag + maxEdit] := col;
      if col >= |src| && row >= |dst| {
        ExitAtTheEnd(src, dst, col, diag, depth);
        return true;
      }
      diag := diag + 2;
    }
    AdvanceKeepsFrontier(src, dst, before, frontier[..], maxEdit, depth);
    RoundMissesEnd(src, dst, frontier[..], maxEdit, depth);
    found := false;
  }

  /** `myers_core`: forward search, then backtracking.

      `a` and `b` are the untrimmed sequences; the result is stated as a walk through them
      that starts `offset` lines into both. */
  method MyersCore<T(==)>(src: seq<T>, dst: seq<T>, offset: nat, ghost a: seq<T>, ghost b: seq<T>)
    returns (ops: seq<DiffOp>)
    requires |src| + |dst| > 0
    requires Inside(src, dst, offset, a, b)
    ensures Walks(Actions(ops), a, b, offset, offset)
    ensures OldCount(Actions(ops)) == |src| && NewCount(Actions(ops)) == |dst|
    ensures Cost(Actions(ops)) == Dist(src, dst, |src|, |dst|)
    ensures Alternates(ops)
  {
    hide Dist, Advances, AfterRound, Slide, Match, Inside, Walks, Actions, OldCount, NewCount, Cost, Mergeable;
    var maxEdit := |src| + |dst|;
    var frontier := new nat[2 * maxEdit + 1](_ => 0);
    var trace: seq<seq<nat>> := [];
    AtMostSum(src, dst, |src|, |dst|);
    var editDist, found := 0, false;
    while editDist <= maxEdit && !found
      invariant editDist <= maxEdit + 1
      invariant |trace| == if found then editDist + 1 else editDist
      invariant TraceOk(src, dst, trace, maxEdit)
      invariant !found ==> Frontier(src, dst, frontier[..], maxEdit, editDist)
      invariant !found && editDist > 0 ==> Advances(src, dst, trace[editDist - 1], frontier[..], maxEdit, editDist - 1)
      invariant Dist(src, dst, |src|, |dst|) >= editDist
      invariant found ==> Dist(src, dst, |src|, |dst|) == editDist
                          && OnTrace(src, dst, trace, maxEdit, |trace|, |src|, |dst|)
      decreases maxEdit - editDist, !found
    {
      TraceGrows(src, dst, trace, frontier[..], maxEdit);
      trace := trace + [frontier[..]];
      found := Round(src, dst, frontier, maxEdit, editDist);
      if !found {
        editDist := editDist + 1;
      }
    }
    ops := Backtrack(trace, |src|, |dst|, maxEdit, offset, src, dst, a, b);
    MergedAlternate(ops, a, b, offset, offset);
  }
}
