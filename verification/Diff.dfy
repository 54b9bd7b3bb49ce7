/** `diff_lines`: trimming around the search, the size limit, and the meaning of the result. */
module Diff {
  import opened Bytes
  import opened EditScript
  import opened EditDistance
  import opened Lines
  import opened Myers

  // ---------------------------------------------------------------- trimming

  function EqualRun(i: nat, j: nat, n: nat): seq<DiffOp> {
    if n > 0 then [Equal(i, j, n)] else []
  }

  lemma EqualRunWalks<T>(src: seq<T>, dst: seq<T>, i: nat, j: nat, n: nat)
    requires i + n <= |src| && j + n <= |dst| && src[i..i + n] == dst[j..j + n]
    ensures var acts := Actions(EqualRun(i, j, n));
      Walks(acts, src, dst, i, j) && OldCount(acts) == n && NewCount(acts) == n && Cost(acts) == 0
  {
    if n > 0 {
      OneRunWalks(src, dst, i, j, n);
      hide *;
      assert EqualRun(i, j, n) == [Equal(i, j, n)];
    }
  }

  lemma OneRunWalks<T>(src: seq<T>, dst: seq<T>, i: nat, j: nat, n: nat)
    requires i + n <= |src| && j + n <= |dst| && src[i..i + n] == dst[j..j + n]
    ensures var acts := Actions([Equal(i, j, n)]);
      Walks(acts, src, dst, i, j) && OldCount(acts) == n && NewCount(acts) == n && Cost(acts) == 0
  {
    hide *;
    ActionsOfOne(Equal(i, j, n));
    OpWalks(Equal(i, j, n), src, dst, i, j);
  }

  lemma ActionsOfOne(op: DiffOp)
    ensures Actions([op]) == OpActions(op)
  {
    assert [op][..0] == [];
  }

  /** Three walks in a row. */
  lemma WalksThrough<T>(pre: seq<DiffOp>, inner: seq<DiffOp>, post: seq<DiffOp>, src: seq<T>, dst: seq<T>,
                        i: nat, j: nat, n: nat, m: nat)
    requires Walks(Actions(pre), src, dst, 0, 0) && OldCount(Actions(pre)) == i && NewCount(Actions(pre)) == j
    requires Walks(Actions(inner), src, dst, i, j) && OldCount(Actions(inner)) == n && NewCount(Actions(inner)) == m
    requires Walks(Actions(post), src, dst, i + n, j + m)
    ensures var acts := Actions(pre + inner + post);
      && Walks(acts, src, dst, 0, 0)
      && OldCount(acts) == i + n + OldCount(Actions(post))
      && NewCount(acts) == j + m + NewCount(Actions(post))
      && Cost(acts) == Cost(Actions(pre)) + Cost(Actions(inner)) + Cost(Actions(post))
  {
    hide Walks, OldCount, NewCount, Cost, Actions;
    ActionsConcat(pre, inner);
    ActionsConcat(pre + inner, post);
    WalksConcat(Actions(pre), Actions(inner), src, dst, 0, 0);
    CountsConcat(Actions(pre), Actions(inner));
    WalksConcat(Actions(pre) + Actions(inner), Actions(post), src, dst, 0, 0);
    CountsConcat(Actions(pre) + Actions(inner), Actions(post));
  }

  /** One side is empty: a single operation covers the other. */
  lemma OneSided<T>(op: DiffOp, src: seq<T>, dst: seq<T>, i: nat, j: nat)
    requires op.Insert? ==> op.newStart == j && j + op.count <= |dst|
    requires op.Delete? ==> op.oldStart == i && i + op.count <= |src|
    requires !op.Equal?
    ensures var acts := Actions([op]);
      && Walks(acts, src, dst, i, j) && Cost(acts) == op.count
      && OldCount(acts) == (if op.Insert? then 0 else op.count)
      && NewCount(acts) == (if op.Delete? then 0 else op.count)
  {
    ActionsAppend([], op);
    assert [] + [op] == [op] && Actions([]) + OpActions(op) == OpActions(op);
    OpWalks(op, src, dst, i, j);
  }

  /** Trimming a common prefix and suffix keeps the distance. */
  lemma TrimmedDistance<T>(src: seq<T>, dst: seq<T>, p: nat, s: nat)
    requires p + s <= |src| && p + s <= |dst|
    requires src[..p] == dst[..p] && src[|src| - s..] == dst[|dst| - s..]
    ensures Dist(src, dst, |src|, |dst|)
         == Dist(src[p..|src| - s], dst[p..|dst| - s], |src| - s - p, |dst| - s - p)
  {
    TrimKeepsDistance(src, dst, p, |src| - s, |dst| - s, |src| - s - p, |dst| - s - p);
    EqualRunIsFree(src, dst, |src| - s, |dst| - s, s);
  }

  method CommonPrefix<T(==)>(src: seq<T>, dst: seq<T>) returns (n: nat)
    ensures n <= |src| && n <= |dst| && src[..n] == dst[..n]
    ensures n < |src| && n < |dst| ==> src[n] != dst[n]
  {
    n := 0;
    while n < |src| && n < |dst| && src[n] == dst[n]
      invariant n <= |src| && n <= |dst| && src[..n] == dst[..n]
    {
      n := n + 1;
    }
  }

  method CommonSuffix<T(==)>(src: seq<T>, dst: seq<T>, prefixLen: nat) returns (n: nat)
    requires prefixLen <= |src| && prefixLen <= |dst|
    ensures prefixLen + n <= |src| && prefixLen + n <= |dst| && src[|src| - n..] == dst[|dst| - n..]
    ensures prefixLen + n < |src| && prefixLen + n < |dst| ==> src[|src| - 1 - n] != dst[|dst| - 1 - n]
  {
    n := 0;
    while n < |src| - prefixLen && n < |dst| - prefixLen && src[|src| - 1 - n] == dst[|dst| - 1 - n]
      invariant prefixLen + n <= |src| && prefixLen + n <= |dst| && src[|src| - n..] == dst[|dst| - n..]
    {
      ghost var i, j := |src| - 1 - n, |dst| - 1 - n;
      assert src[i..] == [src[i]] + src[i + 1..] && dst[j..] == [dst[j]] + dst[j + 1..];
      n := n + 1;
    }
  }

  /** `myers_diff`: trims the common prefix and suffix, then searches what is left. */
  method MyersDiff<T(==)>(src: seq<T>, dst: seq<T>) returns (ops: seq<DiffOp>)
    ensures IsScript(ops, src, dst) && Alternates(ops)
    ensures Cost(Actions(ops)) == Dist(src, dst, |src|, |dst|)
  {
    hide Walks, Actions, OldCount, NewCount, Cost, Dist, EqualRun, Mergeable;
    var prefixLen := CommonPrefix(src, dst);
    var suffixLen := CommonSuffix(src, dst, prefixLen);
    var srcTrimmed := src[prefixLen..|src| - suffixLen];
    var dstTrimmed := dst[prefixLen..|dst| - suffixLen];
    TrimmedDistance(src, dst, prefixLen, suffixLen);
    var inner := TrimmedDiff(srcTrimmed, dstTrimmed, prefixLen, src, dst);

    assert src[0..0 + prefixLen] == src[..prefixLen] && dst[0..0 + prefixLen] == dst[..prefixLen];
    EqualRunWalks(src, dst, 0, 0, prefixLen);
    assert src[|src| - suffixLen..|src| - suffixLen + suffixLen] == src[|src| - suffixLen..];
    assert dst[|dst| - suffixLen..|dst| - suffixLen + suffixLen] == dst[|dst| - suffixLen..];
    EqualRunWalks(src, dst, |src| - suffixLen, |dst| - suffixLen, suffixLen);
    ops := EqualRun(0, 0, prefixLen) + inner + EqualRun(|src| - suffixLen, |dst| - suffixLen, suffixLen);
    WalksThrough(EqualRun(0, 0, prefixLen), inner, EqualRun(|src| - suffixLen, |dst| - suffixLen, suffixLen),
                 src, dst, prefixLen, prefixLen, |srcTrimmed|, |dstTrimmed|);
    NoEqualInside(src, dst, prefixLen, suffixLen, inner);
    RunsAlternate(prefixLen, inner, |src| - suffixLen, |dst| - suffixLen, suffixLen);
  }

  /** Trimming was complete, so what is left neither begins nor ends with an equal line. */
  lemma NoEqualInside<T>(src: seq<T>, dst: seq<T>, p: nat, s: nat, inner: seq<DiffOp>)
    requires p + s <= |src| && p + s <= |dst|
    requires p < |src| && p < |dst| ==> src[p] != dst[p]
    requires p + s < |src| && p + s < |dst| ==> src[|src| - 1 - s] != dst[|dst| - 1 - s]
    requires src[|src| - s..] == dst[|dst| - s..]
    requires Walks(Actions(inner), src, dst, p, p) && Alternates(inner)
    requires OldCount(Actions(inner)) == |src| - s - p && NewCount(Actions(inner)) == |dst| - s - p
    ensures inner != [] ==> !inner[0].Equal? && !inner[|inner| - 1].Equal?
    ensures inner == [] ==> s == 0
  {
    var x, y := src[|src| - s..], dst[|dst| - s..];
    assert s > 0 ==> x[0] == src[|src| - s] && y[0] == dst[|dst| - s];
    if inner == [] {
      assert Actions(inner) == [];
    } else {
      hide Walks, Actions, OldCount, NewCount;
      EqualAtTheStart(inner, src, dst, p, p);
      EqualAtTheEnd(inner, src, dst, p, p);
    }
  }

  lemma RunsAlternate(p: nat, inner: seq<DiffOp>, i: nat, j: nat, s: nat)
    requires Alternates(inner) && (inner == [] ==> s == 0)
    requires inner != [] ==> !inner[0].Equal? && !inner[|inner| - 1].Equal?
    ensures Alternates(EqualRun(0, 0, p) + inner + EqualRun(i, j, s))
  {
  }

  /** The choice `myers_diff` makes for the trimmed middle. */
  method TrimmedDiff<T(==)>(src: seq<T>, dst: seq<T>, offset: nat, ghost a: seq<T>, ghost b: seq<T>)
    returns (ops: seq<DiffOp>)
    requires Inside(src, dst, offset, a, b)
    ensures Walks(Actions(ops), a, b, offset, offset)
    ensures OldCount(Actions(ops)) == |src| && NewCount(Actions(ops)) == |dst|
    ensures Cost(Actions(ops)) == Dist(src, dst, |src|, |dst|)
    ensures Alternates(ops)
  {
    if src == [] && dst == [] {
      ops := [];
    } else if src == [] {
      ops := [Insert(offset, |dst|)];
      OneSided(ops[0], a, b, offset, offset);
    } else if dst == [] {
      ops := [Delete(offset, |src|)];
      OneSided(ops[0], a, b, offset, offset);
    } else {
      ops := MyersCore(src, dst, offset, a, b);
    }
  }

  const MAX_DIFF_LINES := 50000

  /** What `diff_lines` promises for two texts already cut into lines. */
  ghost predicate IsDiff(ops: seq<DiffOp>, src: seq<Line>, dst: seq<Line>) {
    && IsScript(ops, src, dst) && Alternates(ops)
    && (|src| <= 50_000 && |dst| <= 50_000 ==> IsShortest(ops, src, dst))
    && (|src| > 50_000 || |dst| > 50_000 ==>
          (IsShortest(ops, src, dst) <==> forall line <- src :: line !in dst))
  }

  /** `diff_lines`: always a script; shortest within the limit, and beyond it exactly when
      the two texts share no line. */
  method DiffLines(oldText: seq<Byte>, newText: seq<Byte>) returns (ops: seq<DiffOp>)
    ensures IsDiff(ops, LinesOf(oldText), LinesOf(newText))
  {
    var src := SplitLines(oldText);
    var dst := SplitLines(newText);
    if |src| > MAX_DIFF_LINES || |dst| > MAX_DIFF_LINES {
      ops := ReplaceAll(src, dst);
      ReplacingAllIsShortest(src, dst);
    } else {
      ops := MyersDiff(src, dst);
    }
    ShortestIsDistance(ops, src, dst);
  }

  method ReplaceAll<T>(src: seq<T>, dst: seq<T>) returns (ops: seq<DiffOp>)
    ensures IsScript(ops, src, dst) && Cost(Actions(ops)) == |src| + |dst| && Alternates(ops)
  {
    ops := [];
    if src != [] {
      ops := ops + [Delete(0, |src|)];
      OneSided(Delete(0, |src|), src, dst, 0, 0);
      assert ops == [Delete(0, |src|)];
    }
    ghost var before := ops;
    if dst != [] {
      ops := ops + [Insert(0, |dst|)];
      OneSided(Insert(0, |dst|), src, dst, |src|, 0);
      WalksThrough([], before, [Insert(0, |dst|)], src, dst, 0, 0, |src|, 0);
      assert [] + before + [Insert(0, |dst|)] == ops;
    }
  }

  /** The line counts of the header comment: a shortest script costs both lengths less twice
      the longest common subsequence. */
  lemma ShortestCostsLcs<T(!new)>(ops: seq<DiffOp>, src: seq<T>, dst: seq<T>) returns (n: nat)
    requires IsShortest(ops, src, dst)
    ensures IsLongestCommon(n, src, dst) && Cost(Actions(ops)) == |src| + |dst| - 2 * n
  {
    ShortestIsDistance(ops, src, dst);
    n := DistanceIsLcs(src, dst, |src|, |dst|);
    assert src[..|src|] == src && dst[..|dst|] == dst;
  }

  /** End to end on bytes: replaying the script of two texts gives the new text, and the old
      one when it is read backwards. */
  lemma DiffRebuildsText(ops: seq<DiffOp>, oldText: seq<Byte>, newText: seq<Byte>)
    requires IsDiff(ops, LinesOf(oldText), LinesOf(newText))
    ensures var src, dst := LinesOf(oldText), LinesOf(newText);
      && Indexed(Actions(ops), src, dst)
      && Join(Rebuild(Actions(ops), src, dst)) == newText
      && Join(Recover(Actions(ops), src, dst)) == oldText
  {
    ScriptTransforms(ops, LinesOf(oldText), LinesOf(newText));
    LinesOfSplits(oldText);
    LinesOfSplits(newText);
  }
}
