/** Edit distance, independently of any algorithm.

`Dist` is the textbook recursion for insertions and deletions only, on the quarter plane:
points beyond the ends of the two sequences are allowed, because the furthest-reaching
frontier of the search can step outside the grid. `Lcs` is the longest common subsequence. */
module EditDistance {
  import opened Arithmetic
  import opened EditScript

  ghost predicate Match<T>(src: seq<T>, dst: seq<T>, i: int, j: int) {
    0 <= i < |src| && 0 <= j < |dst| && src[i] == dst[j]
  }

  /** Fewest insertions and deletions that lead from (0, 0) to (i, j). */
  ghost function Dist<T>(src: seq<T>, dst: seq<T>, i: nat, j: nat): nat
    decreases i + j
  {
    if i == 0 then j
    else if j == 0 then i
    else if Match(src, dst, i - 1, j - 1) then Dist(src, dst, i - 1, j - 1)
    else 1 + Min(Dist(src, dst, i - 1, j), Dist(src, dst, i, j - 1))
  }

  /** One step right or down changes the distance by exactly one, a diagonal step never lowers it. */
  lemma {:induction false} Neighbours<T>(src: seq<T>, dst: seq<T>, i: nat, j: nat)
    ensures Dist(src, dst, i + 1, j) in {Dist(src, dst, i, j) - 1, Dist(src, dst, i, j) + 1}
    ensures Dist(src, dst, i, j + 1) in {Dist(src, dst, i, j) - 1, Dist(src, dst, i, j) + 1}
    ensures Dist(src, dst, i, j) <= Dist(src, dst, i + 1, j + 1)
    decreases i + j
  {
    if j > 0 { Neighbours(src, dst, i, j - 1); }
    if i > 0 { Neighbours(src, dst, i - 1, j); }
  }

  lemma {:induction false} Parity<T>(src: seq<T>, dst: seq<T>, i: nat, j: nat)
    ensures (Dist(src, dst, i, j) - i - j) % 2 == 0
    decreases i
  {
    if i > 0 {
      Parity(src, dst, i - 1, j);
      Neighbours(src, dst, i - 1, j);
    }
  }

  /** Along a diagonal the distance never falls. */
  lemma {:induction false} DiagonalRises<T>(src: seq<T>, dst: seq<T>, i: nat, j: nat, n: nat)
    ensures Dist(src, dst, i, j) <= Dist(src, dst, i + n, j + n)
    decreases n
  {
    if n > 0 {
      DiagonalRises(src, dst, i, j, n - 1);
      Neighbours(src, dst, i + n - 1, j + n - 1);
    }
  }

  lemma {:induction false} AtLeastOffset<T>(src: seq<T>, dst: seq<T>, i: nat, j: nat)
    ensures Dist(src, dst, i, j) >= i - j && Dist(src, dst, i, j) >= j - i
  {
    if i >= j {
      DiagonalRises(src, dst, i - j, 0, j);
    } else {
      DiagonalRises(src, dst, 0, j - i, i);
    }
  }

  lemma {:induction false} AtMostSum<T>(src: seq<T>, dst: seq<T>, i: nat, j: nat)
    ensures Dist(src, dst, i, j) <= i + j
    decreases i
  {
    if i > 0 {
      AtMostSum(src, dst, i - 1, j);
      Neighbours(src, dst, i - 1, j);
    }
  }

  /** Past the end of `src` every further column costs one. */
  lemma {:induction false} BeyondColumns<T>(src: seq<T>, dst: seq<T>, a: nat, j: nat)
    ensures Dist(src, dst, |src| + a, j) == Dist(src, dst, |src|, j) + a
    decreases a + j
  {
    if a > 0 && j > 0 {
      BeyondColumns(src, dst, a - 1, j);
      BeyondColumns(src, dst, a, j - 1);
      Neighbours(src, dst, |src|, j - 1);
    }
  }

  lemma {:induction false} BeyondRows<T>(src: seq<T>, dst: seq<T>, i: nat, b: nat)
    ensures Dist(src, dst, i, |dst| + b) == Dist(src, dst, i, |dst|) + b
    decreases i + b
  {
    if b > 0 && i > 0 {
      BeyondRows(src, dst, i, b - 1);
      BeyondRows(src, dst, i - 1, b);
      Neighbours(src, dst, i - 1, |dst|);
    }
  }

  lemma Beyond<T>(src: seq<T>, dst: seq<T>, i: nat, j: nat)
    requires i >= |src| && j >= |dst|
    ensures Dist(src, dst, i, j) == Dist(src, dst, |src|, |dst|) + (i - |src|) + (j - |dst|)
  {
    BeyondRows(src, dst, i, j - |dst|);
    BeyondColumns(src, dst, i - |src|, |dst|);
  }

  // ---------------------------------------------------------------- scripts cannot beat it

  lemma {:induction false} WalkCostsDistance<T>(acts: seq<LineAction>, src: seq<T>, dst: seq<T>, i: nat, j: nat)
    requires Walks(acts, src, dst, i, j)
    ensures Dist(src, dst, i + OldCount(acts), j + NewCount(acts)) <= Dist(src, dst, i, j) + Cost(acts)
    decreases |acts|
  {
    if acts != [] {
      Neighbours(src, dst, i, j);
      WalkCostsDistance(acts[1..], src, dst,
                        i + OldStep(acts[0]), j + NewStep(acts[0]));
    }
  }

  /** No script for the pair costs less than the distance. */
  lemma ScriptCostsDistance<T>(ops: seq<DiffOp>, src: seq<T>, dst: seq<T>)
    requires IsScript(ops, src, dst)
    ensures Dist(src, dst, |src|, |dst|) <= Cost(Actions(ops))
  {
    WalkCostsDistance(Actions(ops), src, dst, 0, 0);
  }

  ghost predicate IsShortest<T>(ops: seq<DiffOp>, src: seq<T>, dst: seq<T>) {
    IsScript(ops, src, dst) && forall o :: IsScript(o, src, dst) ==> Cost(Actions(ops)) <= Cost(Actions(o))
  }

  /** The distance is attained: some script of single-line operations costs exactly that much. */
  lemma {:induction false} DistanceIsAttained<T>(src: seq<T>, dst: seq<T>, i: nat, j: nat) returns (ops: seq<DiffOp>)
    requires i <= |src| && j <= |dst|
    ensures Walks(Actions(ops), src, dst, 0, 0)
    ensures OldCount(Actions(ops)) == i && NewCount(Actions(ops)) == j
    ensures Cost(Actions(ops)) == Dist(src, dst, i, j)
    ensures forall op <- ops :: op.count > 0
    decreases i + j
  {
    hide Walks, Actions, OldCount, NewCount, Cost;
    if i == 0 && j == 0 {
      ops := NoOps(src, dst);
    } else if Match(src, dst, i - 1, j - 1) {
      ops := DistanceIsAttained(src, dst, i - 1, j - 1);
      ops := AppendOne(ops, Equal(i - 1, j - 1, 1), src, dst, i - 1, j - 1);
    } else if j == 0 || (i > 0 && Dist(src, dst, i - 1, j) <= Dist(src, dst, i, j - 1)) {
      ops := DistanceIsAttained(src, dst, i - 1, j);
      ops := AppendOne(ops, Delete(i - 1, 1), src, dst, i - 1, j);
    } else {
      ops := DistanceIsAttained(src, dst, i, j - 1);
      ops := AppendOne(ops, Insert(j - 1, 1), src, dst, i, j - 1);
    }
  }

  lemma NoOps<T>(src: seq<T>, dst: seq<T>) returns (ops: seq<DiffOp>)
    ensures ops == [] && Walks(Actions(ops), src, dst, 0, 0)
    ensures OldCount(Actions(ops)) == 0 && NewCount(Actions(ops)) == 0 && Cost(Actions(ops)) == 0
  {
    ops := [];
  }

  lemma AppendOne<T>(ops: seq<DiffOp>, op: DiffOp, src: seq<T>, dst: seq<T>, i: nat, j: nat) returns (r: seq<DiffOp>)
    requires Walks(Actions(ops), src, dst, 0, 0)
    requires OldCount(Actions(ops)) == i && NewCount(Actions(ops)) == j
    requires op.count == 1
    requires op.Equal? ==> op.oldStart == i && op.newStart == j && Match(src, dst, i, j)
    requires op.Insert? ==> op.newStart == j && j < |dst|
    requires op.Delete? ==> op.oldStart == i && i < |src|
    ensures r == ops + [op]
    ensures Walks(Actions(r), src, dst, 0, 0)
    ensures OldCount(Actions(r)) == if op.Insert? then i else i + 1
    ensures NewCount(Actions(r)) == if op.Delete? then j else j + 1
    ensures Cost(Actions(r)) == Cost(Actions(ops)) + if op.Equal? then 0 else 1
  {
    r := ops + [op];
    ActionsAppend(ops, op);
    if op.Equal? {
      assert src[i..i + 1] == dst[j..j + 1];
    }
    OpWalks(op, src, dst, i, j);
    WalksConcat(Actions(ops), OpActions(op), src, dst, 0, 0);
    CountsConcat(Actions(ops), OpActions(op));
  }

  /** A script is shortest exactly when it costs the distance. */
  lemma ShortestIsDistance<T>(ops: seq<DiffOp>, src: seq<T>, dst: seq<T>)
    requires IsScript(ops, src, dst)
    ensures IsShortest(ops, src, dst) <==> Cost(Actions(ops)) == Dist(src, dst, |src|, |dst|)
  {
    forall o | IsScript(o, src, dst)
      ensures Dist(src, dst, |src|, |dst|) <= Cost(Actions(o))
    {
      ScriptCostsDistance(o, src, dst);
    }
    var best := DistanceIsAttained(src, dst, |src|, |dst|);
    assert IsScript(best, src, dst);
  }

  /** Nothing in common: every line costs one. */
  lemma {:induction false} NothingInCommon<T>(src: seq<T>, dst: seq<T>, i: nat, j: nat)
    requires forall x <- src :: x !in dst
    ensures Dist(src, dst, i, j) == i + j
    decreases i + j
  {
    if i > 0 && j > 0 {
      NothingInCommon(src, dst, i - 1, j);
      NothingInCommon(src, dst, i, j - 1);
      assert i <= |src| ==> src[i - 1] in src;
    }
  }

  /** Replacing everything is shortest exactly when the two sides share no line. */
  lemma ReplacingAllIsShortest<T>(src: seq<T>, dst: seq<T>)
    ensures Dist(src, dst, |src|, |dst|) == |src| + |dst| <==> forall x <- src :: x !in dst
  {
    if forall x <- src :: x !in dst {
      NothingInCommon(src, dst, |src|, |dst|);
    } else {
      var x :| x in src && x in dst;
      var i :| 0 <= i < |src| && src[i] == x;
      var j :| 0 <= j < |dst| && dst[j] == x;
      assert Match(src, dst, i, j);
      AtMostSum(src, dst, i, j);
      DistanceGrowsSlowly(src, dst, i + 1, j + 1, |src| - i - 1, |dst| - j - 1);
    }
  }

  // ---------------------------------------------------------------- trimming

  lemma {:induction false} EqualRunIsFree<T>(src: seq<T>, dst: seq<T>, i: nat, j: nat, n: nat)
    requires i + n <= |src| && j + n <= |dst| && src[i..i + n] == dst[j..j + n]
    ensures Dist(src, dst, i + n, j + n) == Dist(src, dst, i, j)
    decreases n
  {
    if n > 0 {
      assert src[i..i + n][..n - 1] == src[i..i + n - 1] && dst[j..j + n][..n - 1] == dst[j..j + n - 1];
      EqualRunIsFree(src, dst, i, j, n - 1);
      assert src[i + n - 1] == src[i..i + n][n - 1] == dst[j..j + n][n - 1] == dst[j + n - 1];
    }
  }

  lemma {:induction false} DistanceGrowsSlowly<T>(src: seq<T>, dst: seq<T>, i: nat, j: nat, a: nat, b: nat)
    ensures Dist(src, dst, i + a, j + b) <= Dist(src, dst, i, j) + a + b
    decreases a + b
  {
    if a > 0 {
      DistanceGrowsSlowly(src, dst, i, j, a - 1, b);
      Neighbours(src, dst, i + a - 1, j + b);
    } else if b > 0 {
      DistanceGrowsSlowly(src, dst, i, j, a, b - 1);
      Neighbours(src, dst, i + a, j + b - 1);
    }
  }

  lemma PrefixIsFree<T>(src: seq<T>, dst: seq<T>, p: nat, i: nat, j: nat)
    requires p <= |src| && p <= |dst| && src[..p] == dst[..p]
    requires i == 0 || j == 0
    ensures Dist(src, dst, p + i, p + j) == i + j
  {
    assert src[0..0 + p] == src[..p] && dst[0..0 + p] == dst[..p];
    EqualRunIsFree(src, dst, 0, 0, p);
    DistanceGrowsSlowly(src, dst, p, p, i, j);
    AtLeastOffset(src, dst, p + i, p + j);
  }

  /** A common prefix can be cut off, and so can anything beyond the point in question. */
  lemma {:induction false} TrimKeepsDistance<T>(src: seq<T>, dst: seq<T>, p: nat, n: nat, m: nat, i: nat, j: nat)
    requires p <= n <= |src| && p <= m <= |dst| && src[..p] == dst[..p]
    requires i <= n - p && j <= m - p
    ensures Dist(src[p..n], dst[p..m], i, j) == Dist(src, dst, p + i, p + j)
    decreases i + j
  {
    if i == 0 || j == 0 {
      PrefixIsFree(src, dst, p, i, j);
    } else {
      TrimKeepsDistance(src, dst, p, n, m, i - 1, j - 1);
      TrimKeepsDistance(src, dst, p, n, m, i - 1, j);
      TrimKeepsDistance(src, dst, p, n, m, i, j - 1);
      assert src[p..n][i - 1] == src[p + i - 1] && dst[p..m][j - 1] == dst[p + j - 1];
      assert Match(src[p..n], dst[p..m], i - 1, j - 1) <==> Match(src, dst, p + i - 1, p + j - 1);
      hide Match;
    }
  }

  // ---------------------------------------------------------------- longest common subsequence

  /** `s` is obtained from `a` by dropping elements. */
  ghost predicate Subsequence<T>(s: seq<T>, a: seq<T>)
    decreases |a|
  {
    if s == [] then true
    else if a == [] then false
    else (s[|s| - 1] == a[|a| - 1] && Subsequence(s[..|s| - 1], a[..|a| - 1])) || Subsequence(s, a[..|a| - 1])
  }

  ghost predicate IsLongestCommon<T(!new)>(n: nat, a: seq<T>, b: seq<T>) {
    && (exists s :: |s| == n && Subsequence(s, a) && Subsequence(s, b))
    && (forall s :: Subsequence(s, a) && Subsequence(s, b) ==> |s| <= n)
  }

  /** Shortening what is asked for keeps a subsequence. */
  lemma {:induction false} SubsequenceDropsLast<T>(s: seq<T>, a: seq<T>)
    requires s != [] && Subsequence(s, a)
    ensures a != [] && Subsequence(s[..|s| - 1], a[..|a| - 1])
    decreases |a|
  {
    if !(s[|s| - 1] == a[|a| - 1] && Subsequence(s[..|s| - 1], a[..|a| - 1])) {
      SubsequenceDropsLast(s, a[..|a| - 1]);
      SubsequenceOfLonger(s[..|s| - 1], a[..|a| - 1]);
    }
  }

  lemma {:induction false} SubsequenceOfLonger<T>(s: seq<T>, a: seq<T>)
    requires a != [] && Subsequence(s, a[..|a| - 1])
    ensures Subsequence(s, a)
  {
  }

  /** The distance counts exactly the lines outside a longest common subsequence. */
  lemma {:induction false} DistanceIsLcs<T(!new)>(src: seq<T>, dst: seq<T>, i: nat, j: nat) returns (n: nat)
    requires i <= |src| && j <= |dst|
    ensures Dist(src, dst, i, j) == i + j - 2 * n
    ensures IsLongestCommon(n, src[..i], dst[..j])
    decreases i + j
  {
    var a, b := src[..i], dst[..j];
    if i == 0 || j == 0 {
      n := 0;
      var none: seq<T> := [];
      assert Subsequence(none, a) && Subsequence(none, b);
    } else {
      assert a[..i - 1] == src[..i - 1] && b[..j - 1] == dst[..j - 1];
      if Match(src, dst, i - 1, j - 1) {
        var k := DistanceIsLcs(src, dst, i - 1, j - 1);
        n := k + 1;
        LcsMatch(a, b, k);
      } else {
        var k := DistanceIsLcs(src, dst, i - 1, j);
        var l := DistanceIsLcs(src, dst, i, j - 1);
        n := if k >= l then k else l;
        LcsSplit(a, b, k, l);
      }
    }
  }

  lemma {:induction false} LcsMatch<T(!new)>(a: seq<T>, b: seq<T>, k: nat)
    requires a != [] && b != [] && a[|a| - 1] == b[|b| - 1]
    requires IsLongestCommon(k, a[..|a| - 1], b[..|b| - 1])
    ensures IsLongestCommon(k + 1, a, b)
  {
    var s :| |s| == k && Subsequence(s, a[..|a| - 1]) && Subsequence(s, b[..|b| - 1]);
    var t := s + [a[|a| - 1]];
    assert t[..|t| - 1] == s;
    assert Subsequence(t, a) && Subsequence(t, b);
    forall s | Subsequence(s, a) && Subsequence(s, b)
      ensures |s| <= k + 1
    {
      if s != [] {
        SubsequenceDropsLast(s, a);
        SubsequenceDropsLast(s, b);
      }
    }
  }

  lemma {:induction false} LcsSplit<T(!new)>(a: seq<T>, b: seq<T>, k: nat, l: nat)
    requires a != [] && b != [] && a[|a| - 1] != b[|b| - 1]
    requires IsLongestCommon(k, a[..|a| - 1], b) && IsLongestCommon(l, a, b[..|b| - 1])
    ensures IsLongestCommon(if k >= l then k else l, a, b)
  {
    if k >= l {
      var s :| |s| == k && Subsequence(s, a[..|a| - 1]) && Subsequence(s, b);
      assert Subsequence(s, a);
    } else {
      var s :| |s| == l && Subsequence(s, a) && Subsequence(s, b[..|b| - 1]);
      assert Subsequence(s, b);
    }
    forall s | Subsequence(s, a) && Subsequence(s, b)
      ensures |s| <= if k >= l then k else l
    {
      assert s == [] || Subsequence(s, a[..|a| - 1]) || Subsequence(s, b[..|b| - 1]);
    }
  }
}
