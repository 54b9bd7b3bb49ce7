/** Ignore patterns: the wildcard matcher, `**` patterns, and rule evaluation. */
module Glob {

  import opened Bytes

  const SLASH: Byte := 47
  const STAR: Byte := 42
  const QUESTION: Byte := 63

  // ---------------------------------------------------------------- meaning of a simple pattern

  /** A pattern byte other than a star against one text byte. */
  predicate MatchesOne(p: Byte, c: Byte) {
    (p == QUESTION && c != SLASH) || p == c
  }

  predicate SlashFree(text: seq<Byte>, i: int, j: int) {
    forall k :: i <= k < j && 0 <= k < |text| ==> text[k] != SLASH
  }

  /** Whether pattern[p..] matches text[t..]: `*` stands for any slash-free run, `?` for one
      byte that is not a slash, any other byte for itself. */
  predicate Matches(pattern: seq<Byte>, text: seq<Byte>, p: nat, t: nat)
    requires p <= |pattern| && t <= |text|
    decreases |pattern| - p
  {
    if p == |pattern| then t == |text|
    else if pattern[p] == STAR then
      exists u :: t <= u <= |text| && SlashFree(text, t, u) && Matches(pattern, text, p + 1, u)
    else t < |text| && MatchesOne(pattern[p], text[t]) && Matches(pattern, text, p + 1, t + 1)
  }

  /** 63 is the question mark, 47 the slash. */
  predicate SameByte(pattern: Byte, text: Byte) {
    pattern == text || (pattern == 63 && text != 47)
  }

  predicate ByteByByte(pattern: seq<Byte>, text: seq<Byte>) {
    |pattern| == |text| && forall k :: 0 <= k < |pattern| ==> SameByte(pattern[k], text[k])
  }

  lemma ByteAndRest(pattern: seq<Byte>, text: seq<Byte>)
    requires pattern != [] && text != []
    ensures ByteByByte(pattern, text) <==> SameByte(pattern[0], text[0]) && ByteByByte(pattern[1..], text[1..])
  {
    var p, t := pattern[1..], text[1..];
    assert forall k :: 0 < k < |pattern| ==> pattern[k] == p[k - 1];
    assert forall k :: 0 < k < |text| ==> text[k] == t[k - 1];
  }

  /** Where the pattern has no star, it matches byte by byte: a question mark any byte other than a
      slash, and every other byte itself. */
  lemma {:induction false} StarFreeMatch(pattern: seq<Byte>, text: seq<Byte>, p: nat, t: nat)
    requires p <= |pattern| && t <= |text| && 42 !in pattern[p..]
    ensures Matches(pattern, text, p, t) <==> ByteByByte(pattern[p..], text[t..])
    decreases |pattern| - p
  {
    if p < |pattern| {
      var a, b := pattern[p..], text[t..];
      assert a[0] == pattern[p] && a[1..] == pattern[p + 1..];
      if t < |text| {
        assert b[1..] == text[t + 1..];
        StarFreeMatch(pattern, text, p + 1, t + 1);
        ByteAndRest(a, b);
      }
    }
  }

  /** The text from `t` on is split at the first star: what is before the star matches byte by byte,
      the star takes the stretch up to `u`, in which there is no slash, and the rest matches from there. */
  ghost predicate SplitAt(pattern: seq<Byte>, text: seq<Byte>, p: nat, t: nat, star: nat, u: int)
    requires p <= star < |pattern|
  {
    var m := t + (star - p);
    && m <= u <= |text| && ByteByByte(pattern[p..star], text[t..m])
    && 47 !in text[m..u] && Matches(pattern, text, star + 1, u)
  }

  lemma {:induction false} MatchSplitsAtStar(pattern: seq<Byte>, text: seq<Byte>, p: nat, t: nat, star: nat)
    requires p <= star < |pattern| && t <= |text| && pattern[star] == 42 && 42 !in pattern[p..star]
    ensures Matches(pattern, text, p, t) <==> exists u :: SplitAt(pattern, text, p, t, star, u)
    decreases star - p
  {
    if p == star {
      forall u
        ensures SplitAt(pattern, text, p, t, star, u) <==>
          t <= u <= |text| && SlashFree(text, t, u) && Matches(pattern, text, p + 1, u)
      {
        if t <= u <= |text| { NoSlashBetween(text, t, u); }
      }
    } else {
      assert pattern[p..star][0] == pattern[p];
      if t < |text| {
        assert pattern[p..star][1..] == pattern[p + 1..star];
        MatchSplitsAtStar(pattern, text, p + 1, t + 1, star);
        forall u
          ensures SplitAt(pattern, text, p, t, star, u) <==>
            MatchesOne(pattern[p], text[t]) && SplitAt(pattern, text, p + 1, t + 1, star, u)
        {
          SplitSteps(pattern, text, p, t, star, u);
        }
        assert pattern[p] != STAR;
        if Matches(pattern, text, p, t) {
          var u :| SplitAt(pattern, text, p + 1, t + 1, star, u);
          assert SplitAt(pattern, text, p, t, star, u);
        }
        if u :| SplitAt(pattern, text, p, t, star, u) {
          assert SplitAt(pattern, text, p + 1, t + 1, star, u);
        }
      }
    }
  }

  lemma NoSlashBetween(text: seq<Byte>, t: nat, u: nat)
    requires t <= u <= |text|
    ensures SlashFree(text, t, u) <==> 47 !in text[t..u]
  {
    assert forall k :: t <= k < u ==> text[k] == text[t..u][k - t];
  }

  lemma SplitSteps(pattern: seq<Byte>, text: seq<Byte>, p: nat, t: nat, star: nat, u: int)
    requires p < star < |pattern| && t < |text|
    ensures SplitAt(pattern, text, p, t, star, u) <==>
      MatchesOne(pattern[p], text[t]) && SplitAt(pattern, text, p + 1, t + 1, star, u)
  {
    var m := t + (star - p);
    if m <= u <= |text| {
      var a, b := pattern[p..star], text[t..m];
      assert a[1..] == pattern[p + 1..star] && b[1..] == text[t + 1..m];
      ByteAndRest(a, b);
    }
    hide Matches;
  }

  /** pattern[p..p + n] holds no star and matches text[t..t + n] byte by byte. */
  ghost predicate Literal(pattern: seq<Byte>, text: seq<Byte>, p: nat, t: nat, n: nat)
    requires p + n <= |pattern| && t + n <= |text|
    decreases n
  {
    n == 0 || (pattern[p] != STAR && MatchesOne(pattern[p], text[t]) && Literal(pattern, text, p + 1, t + 1, n - 1))
  }

  lemma {:induction false} LiteralExtends(pattern: seq<Byte>, text: seq<Byte>, p: nat, t: nat, n: nat)
    requires p + n < |pattern| && t + n < |text| && Literal(pattern, text, p, t, n)
    requires pattern[p + n] != STAR && MatchesOne(pattern[p + n], text[t + n])
    ensures Literal(pattern, text, p, t, n + 1)
    decreases n
  {
    if n > 0 {
      LiteralExtends(pattern, text, p + 1, t + 1, n - 1);
    }
  }

  /** Any other match of the same star-free stretch also runs through it byte by byte. Moved
      right over slash-free text, the stretch leaves slash-free text behind its end as well:
      a slash in it would pin it to the first slash in the text. */
  lemma {:induction false} ShiftedLiteral(pattern: seq<Byte>, text: seq<Byte>, p: nat, s: nat, u: nat, n: nat)
    requires p + n <= |pattern| && s + n <= |text| && s < u <= |text|
    requires Literal(pattern, text, p, s, n) && SlashFree(text, s, u)
    requires Matches(pattern, text, p, u)
    ensures u + n <= |text| && SlashFree(text, s + n, u + n) && Matches(pattern, text, p + n, u + n)
    decreases n
  {
    if n > 0 {
      assert text[s] != SLASH && text[u] != SLASH;
      ShiftedLiteral(pattern, text, p + 1, s + 1, u + 1, n - 1);
    }
  }

  // ---------------------------------------------------------------- the two-pointer matcher

  /** Some longer run for the saved star still leads to a match. */
  ghost predicate RetryMatches(pattern: seq<Byte>, text: seq<Byte>, savedPat: nat, savedTxt: nat)
    requires savedPat < |pattern|
  {
    exists u :: savedTxt < u <= |text| && SlashFree(text, savedTxt, u) && Matches(pattern, text, savedPat + 1, u)
  }

  /** Retrying only the most recent star is enough: whatever an earlier star could reach by
      taking more text, the star met now reaches too. */
  lemma EarlierStarIsCovered(pattern: seq<Byte>, text: seq<Byte>, savedPat: nat, savedTxt: nat, p: nat, t: nat)
    requires savedPat < p < |pattern| && savedTxt <= t <= |text| && p - savedPat - 1 == t - savedTxt
    requires Literal(pattern, text, savedPat + 1, savedTxt, t - savedTxt)
    requires pattern[p] == STAR && RetryMatches(pattern, text, savedPat, savedTxt)
    ensures Matches(pattern, text, p, t)
  {
    var n := t - savedTxt;
    var u :| savedTxt < u <= |text| && SlashFree(text, savedTxt, u) && Matches(pattern, text, savedPat + 1, u);
    ShiftedLiteral(pattern, text, savedPat + 1, savedTxt, u, n);
    // the star at p takes text[t..u + n]; its own rule then gives the match
    assert Matches(pattern, text, p, u + n) ==> Matches(pattern, text, p, t) by {
      if Matches(pattern, text, p, u + n) {
        var v :| u + n <= v <= |text| && SlashFree(text, u + n, v) && Matches(pattern, text, p + 1, v);
        assert SlashFree(text, t, v);
      }
    }
  }

  /** With the text used up, no longer run of the saved star fits any more. */
  lemma NoRoomToRetry(pattern: seq<Byte>, text: seq<Byte>, savedPat: nat, savedTxt: nat, p: nat)
    requires savedPat < p <= |pattern| && savedTxt <= |text| && p - savedPat - 1 == |text| - savedTxt
    requires Literal(pattern, text, savedPat + 1, savedTxt, |text| - savedTxt)
    ensures !RetryMatches(pattern, text, savedPat, savedTxt)
  {
    if RetryMatches(pattern, text, savedPat, savedTxt) {
      var u :| savedTxt < u <= |text| && SlashFree(text, savedTxt, u) && Matches(pattern, text, savedPat + 1, u);
      ShiftedLiteral(pattern, text, savedPat + 1, savedTxt, u, |text| - savedTxt);
    }
  }

  lemma StarSplits(pattern: seq<Byte>, text: seq<Byte>, p: nat, t: nat)
    requires p < |pattern| && t <= |text| && pattern[p] == STAR
    ensures Matches(pattern, text, p, t) <==> Matches(pattern, text, p + 1, t) || RetryMatches(pattern, text, p, t)
  {
    assert SlashFree(text, t, t);
  }

  lemma RetrySplits(pattern: seq<Byte>, text: seq<Byte>, savedPat: nat, savedTxt: nat)
    requires savedPat < |pattern| && savedTxt < |text|
    ensures text[savedTxt] == SLASH ==> !RetryMatches(pattern, text, savedPat, savedTxt)
    ensures text[savedTxt] != SLASH ==>
      (RetryMatches(pattern, text, savedPat, savedTxt) <==>
       Matches(pattern, text, savedPat + 1, savedTxt + 1) || RetryMatches(pattern, text, savedPat, savedTxt + 1))
  {
    if text[savedTxt] != SLASH {
      assert SlashFree(text, savedTxt, savedTxt + 1);
      assert forall u :: SlashFree(text, savedTxt, u) <==> SlashFree(text, savedTxt + 1, u);
      if RetryMatches(pattern, text, savedPat, savedTxt) {
        var u :| savedTxt < u <= |text| && SlashFree(text, savedTxt, u) && Matches(pattern, text, savedPat + 1, u);
        assert u == savedTxt + 1 || RetryMatches(pattern, text, savedPat, savedTxt + 1);
      }
      if RetryMatches(pattern, text, savedPat, savedTxt + 1) {
        var u :| savedTxt + 1 < u <= |text| && SlashFree(text, savedTxt + 1, u)
          && Matches(pattern, text, savedPat + 1, u);
        assert SlashFree(text, savedTxt, u);
      }
    }
  }

  /** `simple_glob_match`: true exactly when the pattern matches the whole text. */
  method SimpleGlobMatch(pattern: seq<Byte>, text: seq<Byte>) returns (matched: bool)
    ensures matched <==> Matches(pattern, text, 0, 0)
  {
    hide RetryMatches, SlashFree;
    var patPos: nat, txtPos: nat := 0, 0;
    var saved := false;
    var savedPat: nat, savedTxt: nat := 0, 0;
    while txtPos < |text|
      invariant patPos <= |pattern| && txtPos <= |text|
      invariant saved ==> savedPat < patPos && savedTxt <= txtPos && patPos - savedPat - 1 == txtPos - savedTxt
                          && pattern[savedPat] == STAR
                          && Literal(pattern, text, savedPat + 1, savedTxt, txtPos - savedTxt)
      invariant Matches(pattern, text, 0, 0)
           <==> Matches(pattern, text, patPos, txtPos) || (saved && RetryMatches(pattern, text, savedPat, savedTxt))
      decreases if saved then |text| - savedTxt else |text| + 1,
                if saved then |pattern| - savedPat else |pattern| + 1,
                |text| - txtPos
    {
      if patPos < |pattern| && pattern[patPos] == STAR {
        if saved && RetryMatches(pattern, text, savedPat, savedTxt) {
          EarlierStarIsCovered(pattern, text, savedPat, savedTxt, patPos, txtPos);
        }
        StarSplits(pattern, text, patPos, txtPos);
        saved, savedPat, savedTxt := true, patPos, txtPos;
        patPos := patPos + 1;
      } else if patPos < |pattern| && MatchesOne(pattern[patPos], text[txtPos]) {
        if saved {
          LiteralExtends(pattern, text, savedPat + 1, savedTxt, txtPos - savedTxt);
        }
        patPos, txtPos := patPos + 1, txtPos + 1;
      } else if saved && text[savedTxt] != SLASH {
        RetrySplits(pattern, text, savedPat, savedTxt);
        savedTxt := savedTxt + 1;
        txtPos := savedTxt;
        patPos := savedPat + 1;
      } else {
        if saved {
          RetrySplits(pattern, text, savedPat, savedTxt);
        }
        return false;
      }
    }
    if saved {
      NoRoomToRetry(pattern, text, savedPat, savedTxt, patPos);
    }
    while patPos < |pattern| && pattern[patPos] == STAR
      invariant patPos <= |pattern|
      invariant Matches(pattern, text, 0, 0) <==> Matches(pattern, text, patPos, |text|)
    {
      StarSplits(pattern, text, patPos, |text|);
      NoTextToRetry(pattern, text, patPos);
      patPos := patPos + 1;
    }
    matched := patPos == |pattern|;
  }

  lemma NoTextToRetry(pattern: seq<Byte>, text: seq<Byte>, p: nat)
    requires p < |pattern|
    ensures !RetryMatches(pattern, text, p, |text|)
  {
  }

  // ---------------------------------------------------------------- patterns with **

  const ANY_PATH: seq<Byte> := [STAR, STAR]
  const ANY_PREFIX: seq<Byte> := [STAR, STAR, SLASH]
  const ANY_SUFFIX: seq<Byte> := [SLASH, STAR, STAR]
  const ANY_MIDDLE: seq<Byte> := [SLASH, STAR, STAR, SLASH]

  predicate MiddleAt(pattern: seq<Byte>, k: int) {
    0 <= k <= |pattern| - 4 && pattern[k..k + 4] == ANY_MIDDLE
  }

  /** `find_double_star`: the first place where the middle form occurs. */
  function FindDoubleStar(pattern: seq<Byte>, from: nat): (r: int)
    requires from <= |pattern|
    ensures r == -1 || (from <= r && MiddleAt(pattern, r))
    ensures forall k :: MiddleAt(pattern, k) && from <= k ==> 0 <= r <= k
    decreases |pattern| - from
  {
    if from + 4 > |pattern| then -1
    else if MiddleAt(pattern, from) then from
    else FindDoubleStar(pattern, from + 1)
  }

  /** The start of the text or the position after a slash. */
  predicate AfterSlash(text: seq<Byte>, s: nat) {
    s <= |text| && (s == 0 || text[s - 1] == SLASH)
  }

  /** The end of the text or the position of a slash. */
  predicate BeforeSlash(text: seq<Byte>, e: nat) {
    e <= |text| && (e == |text| || text[e] == SLASH)
  }

  /** What a pattern with `**` matches: `**` anything; a leading one whole leading components;
      a trailing one whole trailing components; one in the middle a single slash, or nothing
      behind it. */
  ghost predicate Glob(pattern: seq<Byte>, text: seq<Byte>)
    decreases |pattern|
  {
    if pattern == ANY_PATH then true
    else if ANY_PREFIX <= pattern then
      exists s: nat :: AfterSlash(text, s) && Glob(pattern[3..], text[s..])
    else if |pattern| >= 3 && pattern[|pattern| - 3..] == ANY_SUFFIX then
      exists e: nat :: BeforeSlash(text, e) && Glob(pattern[..|pattern| - 3], text[..e])
    else
      var d := FindDoubleStar(pattern, 0);
      if d == -1 then Matches(pattern, text, 0, 0)
      else
        || (exists e: nat ::
              && BeforeSlash(text, e) && e < |text|
              && Glob(pattern[..d], text[..e]) && Glob(pattern[d + 4..], text[e + 1..]))
        || (Glob(pattern[..d], text) && Glob(pattern[d + 4..], []))
  }

  /** `glob_match_bytes`. */
  method GlobMatchBytes(pattern: seq<Byte>, text: seq<Byte>) returns (matched: bool)
    ensures matched <==> Glob(pattern, text)
    decreases |pattern|, 0
  {
    var patLen := |pattern|;
    if pattern == ANY_PATH { return true; }
    if ANY_PREFIX <= pattern {
      matched := MatchAfterPrefix(pattern[3..], text);
      return;
    }
    if patLen >= 3 && pattern[patLen - 3..] == ANY_SUFFIX {
      matched := MatchBeforeSuffix(pattern[..patLen - 3], text);
      return;
    }
    var d := FindDoubleStar(pattern, 0);
    if d != -1 {
      matched := MatchAround(pattern[..d], pattern[d + 4..], text);
      return;
    }
    matched := SimpleGlobMatch(pattern, text);
  }

  method MatchAfterPrefix(rest: seq<Byte>, text: seq<Byte>) returns (matched: bool)
    ensures matched <==> exists s: nat :: AfterSlash(text, s) && Glob(rest, text[s..])
    decreases |rest|, 1
  {
    assert text[0..] == text && AfterSlash(text, 0);
    matched := GlobMatchBytes(rest, text);
    if matched { return; }
    for pos := 0 to |text|
      invariant forall s: nat :: AfterSlash(text, s) && s <= pos ==> !Glob(rest, text[s..])
    {
      if text[pos] == SLASH {
        matched := GlobMatchBytes(rest, text[pos + 1..]);
        if matched {
          assert AfterSlash(text, pos + 1);
          return;
        }
      }
    }
    matched := false;
  }

  method MatchBeforeSuffix(prefix: seq<Byte>, text: seq<Byte>) returns (matched: bool)
    ensures matched <==> exists e: nat :: BeforeSlash(text, e) && Glob(prefix, text[..e])
    decreases |prefix|, 1
  {
    assert text[..|text|] == text && BeforeSlash(text, |text|);
    matched := GlobMatchBytes(prefix, text);
    if matched { return; }
    for pos := 0 to |text|
      invariant forall e: nat :: BeforeSlash(text, e) && e < pos ==> !Glob(prefix, text[..e])
    {
      if text[pos] == SLASH {
        matched := GlobMatchBytes(prefix, text[..pos]);
        if matched {
          assert BeforeSlash(text, pos);
          return;
        }
      }
    }
    matched := false;
  }

  method MatchAround(before: seq<Byte>, after: seq<Byte>, text: seq<Byte>) returns (matched: bool)
    ensures matched <==>
      || (exists e: nat :: BeforeSlash(text, e) && e < |text| && Glob(before, text[..e]) && Glob(after, text[e + 1..]))
      || (Glob(before, text) && Glob(after, []))
    decreases |before| + |after| + 1, 1
  {
    for pos := 0 to |text|
      invariant forall e: nat :: BeforeSlash(text, e) && e < pos ==>
        !(Glob(before, text[..e]) && Glob(after, text[e + 1..]))
    {
      if text[pos] == SLASH {
        var left := GlobMatchBytes(before, text[..pos]);
        if left {
          var right := GlobMatchBytes(after, text[pos + 1..]);
          if right {
            assert BeforeSlash(text, pos);
            return true;
          }
        }
      }
    }
    var whole := GlobMatchBytes(before, text);
    if !whole { return false; }
    matched := GlobMatchBytes(after, []);
  }

  // ---------------------------------------------------------------- rules

  datatype IgnorePattern = IgnorePattern(pattern: seq<Byte>, negated: bool, dirOnly: bool, anchored: bool)

  const NOT: Byte := 33

  /** One pattern line, already trimmed and neither empty nor a comment. */
  function ParseLine(line: seq<Byte>): IgnorePattern {
    var (negated, raw) := StripMark(line);
    var (dirOnly, pattern) := StripSlash(raw);
    IgnorePattern(pattern, negated, dirOnly, SLASH in pattern)
  }

  function StripMark(line: seq<Byte>): (bool, seq<Byte>) {
    if line != [] && line[0] == NOT then (true, line[1..]) else (false, line)
  }

  function StripSlash(raw: seq<Byte>): (bool, seq<Byte>) {
    if raw != [] && raw[|raw| - 1] == SLASH then (true, raw[..|raw| - 1]) else (false, raw)
  }

  predicate IsComponent(path: seq<Byte>, s: nat, e: nat) {
    s <= e && AfterSlash(path, s) && BeforeSlash(path, e) && SlashFree(path, s, e)
  }

  ghost predicate AnyComponent(pattern: seq<Byte>, path: seq<Byte>) {
    exists s: nat, e: nat :: IsComponent(path, s, e) && Glob(pattern, path[s..e])
  }

  /** An exclamation mark in front and a slash at the end are the flags, and what is between them is
      the pattern: every line that is put together like this reads back as it was. */
  lemma ParseReadsBack(pattern: seq<Byte>, negated: bool, dirOnly: bool)
    requires negated || pattern == [] || pattern[0] != 33
    requires dirOnly || pattern == [] || pattern[|pattern| - 1] != 47
    ensures ParseLine((if negated then [33] else []) + pattern + (if dirOnly then [47] else []))
         == IgnorePattern(pattern, negated, dirOnly, 47 in pattern)
  {
    var tail: seq<Byte> := if dirOnly then [47] else [];
    TrailingSlash(pattern, tail);
    LeadingMark(pattern, tail, negated);
    hide StripMark, StripSlash;
  }

  lemma TrailingSlash(pattern: seq<Byte>, tail: seq<Byte>)
    requires tail == [47] || (tail == [] && (pattern == [] || pattern[|pattern| - 1] != 47))
    ensures StripSlash(pattern + tail) == (tail == [47], pattern)
  {
    var raw := pattern + tail;
    if tail == [] {
      assert raw == pattern;
    } else {
      assert raw[|raw| - 1] == 47 && raw[..|raw| - 1] == pattern;
    }
  }

  lemma LeadingMark(pattern: seq<Byte>, tail: seq<Byte>, negated: bool)
    requires negated || pattern == [] || pattern[0] != 33
    requires tail == [] || tail == [47]
    ensures StripMark((if negated then [33] else []) + pattern + tail) == (negated, pattern + tail)
  {
    var mark: seq<Byte> := if negated then [33] else [];
    var raw := pattern + tail;
    assert mark + pattern + tail == mark + raw;
    if negated {
      assert (mark + raw)[0] == 33 && (mark + raw)[1..] == raw;
    } else {
      assert mark + raw == raw && (raw != [] ==> raw[0] == if pattern == [] then 47 else pattern[0]);
    }
  }

  ghost predicate AnchoredMatch(pattern: seq<Byte>, path: seq<Byte>) {
    Glob(pattern, path) || pattern + [SLASH] <= path || Glob(pattern + ANY_SUFFIX, path)
  }

  /** Whether one rule applies to a path, as `check_ignored` decides it. */
  ghost predicate Applies(rule: IgnorePattern, path: seq<Byte>, isDirectory: bool) {
    if rule.anchored then AnchoredMatch(rule.pattern, path)
    else (if rule.dirOnly && !isDirectory then false else Glob(rule.pattern, path)) || AnyComponent(rule.pattern, path)
  }

  method MatchAnyComponent(pattern: seq<Byte>, path: seq<Byte>) returns (matched: bool)
    ensures matched <==> AnyComponent(pattern, path)
  {
    var start: nat := 0;
    for pos := 0 to |path| + 1
      invariant if pos <= |path| then start <= pos && AfterSlash(path, start) && SlashFree(path, start, pos)
                                      && forall s: nat :: AfterSlash(path, s) && s <= pos ==> s <= start
                else true
      invariant forall s: nat, e: nat :: IsComponent(path, s, e) && e < pos ==> !Glob(pattern, path[s..e])
    {
      if pos == |path| || path[pos] == SLASH {
        matched := GlobMatchBytes(pattern, path[start..pos]);
        assert IsComponent(path, start, pos);
        if matched { return; }
        assert forall s: nat :: IsComponent(path, s, pos) ==> s == start by { OneComponent(path, start, pos); }
        start := pos + 1;
      }
    }
    matched := false;
  }

  /** Only one component ends at a given position. */
  lemma OneComponent(path: seq<Byte>, start: nat, pos: nat)
    requires IsComponent(path, start, pos)
    ensures forall s: nat :: IsComponent(path, s, pos) ==> s == start
  {
    forall s: nat | IsComponent(path, s, pos)
      ensures s == start
    {
    }
  }

  /** `check_ignored`: the last rule that applies decides. */
  method CheckIgnored(rules: seq<IgnorePattern>, path: seq<Byte>, isDirectory: bool) returns (ignored: bool)
    ensures ignored <==> exists i :: 0 <= i < |rules| && Applies(rules[i], path, isDirectory) && !rules[i].negated
                                     && forall j :: i < j < |rules| ==> !Applies(rules[j], path, isDirectory)
  {
    ignored := false;
    for k := 0 to |rules|
      invariant ignored <==> exists i :: 0 <= i < k && Applies(rules[i], path, isDirectory) && !rules[i].negated
                                         && forall j :: i < j < k ==> !Applies(rules[j], path, isDirectory)
    {
      var rule := rules[k];
      var matches := RuleMatches(rule, path, isDirectory);
      if matches {
        ignored := !rule.negated;
      }
    }
  }

  method RuleMatches(rule: IgnorePattern, path: seq<Byte>, isDirectory: bool) returns (matches: bool)
    ensures matches <==> Applies(rule, path, isDirectory)
  {
    if rule.anchored {
      matches := GlobMatchBytes(rule.pattern, path);
      if !matches && !(rule.pattern + [SLASH] <= path) {
        matches := GlobMatchBytes(rule.pattern + ANY_SUFFIX, path);
      } else {
        matches := true;
      }
    } else {
      matches := false;
      if !(rule.dirOnly && !isDirectory) {
        matches := GlobMatchBytes(rule.pattern, path);
      }
      if !matches {
        matches := MatchAnyComponent(rule.pattern, path);
      }
    }
  }

  // ---------------------------------------------------------------- a matched directory prunes its subtree

  function Below(path: seq<Byte>, name: seq<Byte>): seq<Byte> { path + [SLASH] + name }

  lemma BelowSlices(path: seq<Byte>, name: seq<Byte>, s: nat)
    requires s <= |path|
    ensures Below(path, name)[s..] == Below(path[s..], name) && Below(path, name)[..s] == path[..s]
    ensures AfterSlash(path, s) ==> AfterSlash(Below(path, name), s)
    ensures BeforeSlash(path, s) ==> BeforeSlash(Below(path, name), s)
  {
  }

  /** Which form a pattern takes once the trailing double star is added to it. */
  lemma SuffixedForms(p: seq<Byte>)
    ensures var q := p + ANY_SUFFIX;
      && q != ANY_PATH && q[|q| - 3..] == ANY_SUFFIX && q[..|q| - 3] == p
      && (ANY_PREFIX <= q <==> p == ANY_PATH || ANY_PREFIX <= p)
      && (p == ANY_PATH ==> q[3..] == ANY_PATH)
      && (ANY_PREFIX <= p ==> q[3..] == p[3..] + ANY_SUFFIX)
  {
    var q := p + ANY_SUFFIX;
    assert |p| < 2 ==> q[|p|] == SLASH;
    assert forall k :: 0 <= k < |p| ==> q[k] == p[k];
    if |p| == 2 {
      assert q[2] == SLASH;
    }
  }

  /** Whatever `p` matches, `p` with a trailing `**` matches everything below it. */
  lemma {:induction false} MatchedPrunes(p: seq<Byte>, path: seq<Byte>, name: seq<Byte>)
    requires Glob(p, path) || Glob(p + ANY_SUFFIX, path)
    ensures Glob(p + ANY_SUFFIX, Below(path, name))
    decreases |p|
  {
    var q, target := p + ANY_SUFFIX, Below(path, name);
    SuffixedForms(p);
    if p == ANY_PATH {
      assert AfterSlash(target, 0) && Glob(q[3..], target[0..]);
    } else if ANY_PREFIX <= p {
      var s: nat :| AfterSlash(path, s) && (Glob(p[3..], path[s..]) || Glob(q[3..], path[s..]));
      MatchedPrunes(p[3..], path[s..], name);
      BelowSlices(path, name, s);
    } else {
      assert path[..|path|] == path && BeforeSlash(path, |path|);
      assert Glob(p, path[..|path|]) || Glob(q, path);
      var e: nat :| e <= |path| && BeforeSlash(path, e) && Glob(p, path[..e]);
      BelowSlices(path, name, e);
    }
  }

  lemma {:induction false} SlashFreeMatch(pattern: seq<Byte>, text: seq<Byte>, p: nat, t: nat)
    requires p <= |pattern| && t <= |text| && SLASH !in pattern && Matches(pattern, text, p, t)
    ensures SlashFree(text, t, |text|)
    decreases |pattern| - p
  {
    if p < |pattern| {
      if pattern[p] == STAR {
        var u :| t <= u <= |text| && SlashFree(text, t, u) && Matches(pattern, text, p + 1, u);
        SlashFreeMatch(pattern, text, p + 1, u);
      } else {
        SlashFreeMatch(pattern, text, p + 1, t + 1);
      }
    }
  }

  lemma FormsHaveSlash(pattern: seq<Byte>)
    ensures ANY_PREFIX <= pattern ==> SLASH in pattern
    ensures |pattern| >= 3 && pattern[|pattern| - 3..] == ANY_SUFFIX ==> SLASH in pattern
    ensures FindDoubleStar(pattern, 0) != -1 ==> SLASH in pattern
  {
    if ANY_PREFIX <= pattern {
      assert pattern[2] == ANY_PREFIX[2];
    }
    if |pattern| >= 3 && pattern[|pattern| - 3..] == ANY_SUFFIX {
      assert pattern[|pattern| - 3] == pattern[|pattern| - 3..][0];
    }
    var d := FindDoubleStar(pattern, 0);
    if d != -1 {
      assert pattern[d] == pattern[d..d + 4][0];
    }
  }

  lemma PlainGlobMatches(pattern: seq<Byte>, text: seq<Byte>)
    requires SLASH !in pattern && pattern != ANY_PATH && Glob(pattern, text)
    ensures Matches(pattern, text, 0, 0)
  {
    FormsHaveSlash(pattern);
  }

  /** Every path has a first component. */
  lemma {:induction false} FirstComponent(path: seq<Byte>, n: nat) returns (e: nat)
    requires n <= |path| && SlashFree(path, 0, n)
    ensures IsComponent(path, 0, e)
    decreases |path| - n
  {
    if n == |path| || path[n] == SLASH {
      e := n;
    } else {
      e := FirstComponent(path, n + 1);
    }
  }

  /** A slash-free pattern that matches a path matches one of its components. */
  lemma SlashFreeGlobIsComponent(pattern: seq<Byte>, path: seq<Byte>)
    requires SLASH !in pattern && Glob(pattern, path)
    ensures AnyComponent(pattern, path)
  {
    if pattern == ANY_PATH {
      var e := FirstComponent(path, 0);
      assert Glob(pattern, path[0..e]);
    } else {
      PlainGlobMatches(pattern, path);
      SlashFreeMatch(pattern, path, 0, 0);
      assert path[0..|path|] == path && IsComponent(path, 0, |path|);
    }
  }

  /** And then one of the components of every path below. */
  lemma PlainPatternPrunes(pattern: seq<Byte>, path: seq<Byte>, name: seq<Byte>)
    requires SLASH !in pattern && (Glob(pattern, path) || AnyComponent(pattern, path))
    ensures AnyComponent(pattern, Below(path, name))
  {
    if Glob(pattern, path) {
      SlashFreeGlobIsComponent(pattern, path);
    }
    hide Glob;
    var target := Below(path, name);
    var s: nat, e: nat :| IsComponent(path, s, e) && Glob(pattern, path[s..e]);
    assert target[s..e] == path[s..e] && IsComponent(target, s, e);
  }

  /** Every rule that was parsed: if it applies to a directory, it applies to everything below,
      file or directory, anchored or not. */
  lemma RulePrunesSubtree(line: seq<Byte>, path: seq<Byte>, name: seq<Byte>, isDirectory: bool)
    requires Applies(ParseLine(line), path, true)
    ensures Applies(ParseLine(line), Below(path, name), isDirectory)
  {
    var rule := ParseLine(line);
    if rule.anchored {
      if rule.pattern + [SLASH] <= path {
        assert rule.pattern + [SLASH] <= Below(path, name);
      } else {
        MatchedPrunes(rule.pattern, path, name);
      }
    } else {
      PlainPatternPrunes(rule.pattern, path, name);
    }
  }

  // ---------------------------------------------------------------- rules for directories, literal rules

  /** A slash at the end of a line changes nothing: a rule for directories applies to exactly the
      paths, files included, that the same rule without the slash applies to. */
  lemma DirectoryRuleMatchesFiles(line: seq<Byte>, path: seq<Byte>, isDirectory: bool)
    requires line == [] || line[|line| - 1] != 47
    ensures Applies(ParseLine(line + [47]), path, isDirectory) <==> Applies(ParseLine(line), path, false)
    ensures Applies(ParseLine(line), path, true) <==> Applies(ParseLine(line), path, false)
  {
    var plain, marked := ParseLine(line), ParseLine(line + [47]);
    if line != [] {
      assert (line + [47])[0] == line[0] && (line + [47])[1..] == line[1..] + [47];
    }
    TrailingSlash(StripMark(line).1, [47]);
    TrailingSlash(StripMark(line).1, []);
    assert StripMark(line).1 + [] == StripMark(line).1;
    assert marked == plain.(dirOnly := true);
    hide StripMark, StripSlash, AnyComponent, Glob;
    if !plain.anchored && Glob(plain.pattern, path) {
      SlashFreeGlobIsComponent(plain.pattern, path);
    }
  }

  lemma FormsHaveStar(pattern: seq<Byte>)
    ensures pattern == ANY_PATH || ANY_PREFIX <= pattern ==> STAR in pattern
    ensures |pattern| >= 3 && pattern[|pattern| - 3..] == ANY_SUFFIX ==> STAR in pattern
    ensures FindDoubleStar(pattern, 0) != -1 ==> STAR in pattern
  {
    if pattern == ANY_PATH || ANY_PREFIX <= pattern {
      assert pattern[0] == STAR;
    }
    if |pattern| >= 3 && pattern[|pattern| - 3..] == ANY_SUFFIX {
      assert pattern[|pattern| - 2] == pattern[|pattern| - 3..][1];
    }
    var d := FindDoubleStar(pattern, 0);
    if d != -1 {
      assert pattern[d + 1] == pattern[d..d + 4][1];
    }
  }

  lemma StarFreeGlobMatches(pattern: seq<Byte>, text: seq<Byte>)
    requires STAR !in pattern
    ensures Glob(pattern, text) <==> Matches(pattern, text, 0, 0)
  {
    FormsHaveStar(pattern);
    hide FindDoubleStar, Matches;
  }

  lemma LiteralGlob(pattern: seq<Byte>, text: seq<Byte>)
    requires 42 !in pattern && 63 !in pattern
    ensures Glob(pattern, text) <==> text == pattern
  {
    StarFreeGlobMatches(pattern, text);
    hide Glob, Matches;
    assert pattern[0..] == pattern && text[0..] == text;
    StarFreeMatch(pattern, text, 0, 0);
    LiteralBytes(pattern, text);
  }

  lemma LiteralBytes(pattern: seq<Byte>, text: seq<Byte>)
    requires 63 !in pattern
    ensures ByteByByte(pattern, text) <==> text == pattern
  {
  }

  /** A pattern without wildcards: with a slash inside it names one path and everything below it,
      otherwise every path with such a component. */
  lemma LiteralRule(pattern: seq<Byte>, negated: bool, dirOnly: bool, path: seq<Byte>, isDirectory: bool)
    requires 42 !in pattern && 63 !in pattern
    ensures Applies(IgnorePattern(pattern, negated, dirOnly, 47 in pattern), path, isDirectory) <==>
      if 47 in pattern then path == pattern || pattern + [47] <= path
      else exists s: nat, e: nat :: IsComponent(path, s, e) && path[s..e] == pattern
  {
    LiteralGlob(pattern, path);
    if 47 in pattern {
      LiteralBelow(pattern, path);
    } else {
      forall s: nat, e: nat | IsComponent(path, s, e)
        ensures Glob(pattern, path[s..e]) <==> path[s..e] == pattern
      {
        LiteralGlob(pattern, path[s..e]);
      }
      if path == pattern {
        SlashFreeGlobIsComponent(pattern, path);
      }
    }
  }

  lemma TrailingUnfolds(pattern: seq<Byte>, text: seq<Byte>)
    requires pattern != ANY_PATH && !(ANY_PREFIX <= pattern)
    ensures Glob(pattern + ANY_SUFFIX, text) <==> exists e: nat :: BeforeSlash(text, e) && Glob(pattern, text[..e])
  {
    SuffixedForms(pattern);
    hide FindDoubleStar, Matches;
  }

  lemma LiteralBelow(pattern: seq<Byte>, path: seq<Byte>)
    requires 42 !in pattern && 63 !in pattern
    ensures Glob(pattern + ANY_SUFFIX, path) <==> path == pattern || pattern + [47] <= path
  {
    FormsHaveStar(pattern);
    TrailingUnfolds(pattern, path);
    hide Glob, FindDoubleStar;
    forall e: nat | BeforeSlash(path, e)
      ensures Glob(pattern, path[..e]) <==> path[..e] == pattern
    {
      LiteralGlob(pattern, path[..e]);
    }
    LiteralStart(pattern, path);
  }

  lemma LiteralStart(pattern: seq<Byte>, path: seq<Byte>)
    ensures path == pattern || pattern + [47] <= path <==> exists e: nat :: BeforeSlash(path, e) && path[..e] == pattern
  {
    var n := |pattern|;
    if path == pattern {
      assert BeforeSlash(path, n) && path[..n] == pattern;
    }
    if pattern + [47] <= path {
      assert path[n] == (pattern + [47])[n] && path[..n] == pattern;
      assert BeforeSlash(path, n);
    }
    if e: nat :| BeforeSlash(path, e) && path[..e] == pattern {
      assert e == n && (e < |path| ==> path[..n + 1] == pattern + [47]);
    }
  }

  // ---------------------------------------------------------------- the middle form

  ghost function Slashes(text: seq<Byte>): nat {
    if text == [] then 0 else (if text[0] == SLASH then 1 else 0) + Slashes(text[1..])
  }

  lemma {:induction false} SlashesAdd(a: seq<Byte>, b: seq<Byte>)
    ensures Slashes(a + b) == Slashes(a) + Slashes(b)
    decreases |a|
  {
    if a == [] {
      assert a + b == b;
    } else {
      assert (a + b)[1..] == a[1..] + b;
      SlashesAdd(a[1..], b);
    }
  }

  lemma {:induction false} NoSlashes(text: seq<Byte>)
    requires SlashFree(text, 0, |text|)
    ensures Slashes(text) == 0
    decreases |text|
  {
    if text != [] {
      NoSlashes(text[1..]);
    }
  }

  /** Without `**` a pattern matches only texts with as many slashes as it has itself. */
  lemma {:induction false} MatchKeepsSlashes(pattern: seq<Byte>, text: seq<Byte>, p: nat, t: nat)
    requires p <= |pattern| && t <= |text| && Matches(pattern, text, p, t)
    ensures Slashes(pattern[p..]) == Slashes(text[t..])
    decreases |pattern| - p
  {
    if p < |pattern| {
      assert pattern[p..] == [pattern[p]] + pattern[p + 1..];
      SlashesAdd([pattern[p]], pattern[p + 1..]);
      if pattern[p] == STAR {
        var u :| t <= u <= |text| && SlashFree(text, t, u) && Matches(pattern, text, p + 1, u);
        MatchKeepsSlashes(pattern, text, p + 1, u);
        assert text[t..] == text[t..u] + text[u..];
        SlashesAdd(text[t..u], text[u..]);
        NoSlashes(text[t..u]);
      } else {
        MatchKeepsSlashes(pattern, text, p + 1, t + 1);
        assert text[t..] == [text[t]] + text[t + 1..];
        SlashesAdd([text[t]], text[t + 1..]);
      }
    }
  }

  /** A pattern in which no form of `**` is recognised. */
  predicate Plain(pattern: seq<Byte>) {
    && pattern != ANY_PATH && !(ANY_PREFIX <= pattern) && FindDoubleStar(pattern, 0) == -1
    && !(|pattern| >= 3 && pattern[|pattern| - 3..] == ANY_SUFFIX)
  }

  /** A pattern that is recognised as two plain sides around the middle form. */
  predicate AroundMiddle(pattern: seq<Byte>, before: seq<Byte>, after: seq<Byte>) {
    && pattern == before + ANY_MIDDLE + after && FindDoubleStar(pattern, 0) == |before|
    && !(ANY_PREFIX <= pattern) && !(pattern[|pattern| - 3..] == ANY_SUFFIX)
    && Plain(before) && Plain(after)
  }

  /** The usual reading of the middle form: any number of whole directories, or nothing behind it. */
  ghost predicate Spans(before: seq<Byte>, after: seq<Byte>, text: seq<Byte>) {
    || (exists i: nat, j: nat :: SpansAt(before, after, text, i, j))
    || (Glob(before, text) && Glob(after, []))
  }

  ghost predicate SpansAt(before: seq<Byte>, after: seq<Byte>, text: seq<Byte>, i: nat, j: nat) {
    i <= j < |text| && text[i] == SLASH && text[j] == SLASH && Glob(before, text[..i]) && Glob(after, text[j + 1..])
  }

  lemma PlainKeepsSlashes(pattern: seq<Byte>, text: seq<Byte>)
    requires Plain(pattern) && Glob(pattern, text)
    ensures Slashes(text) == Slashes(pattern)
  {
    MatchKeepsSlashes(pattern, text, 0, 0);
    assert pattern[0..] == pattern && text[0..] == text;
  }

  lemma MiddleUnfolds(pattern: seq<Byte>, before: seq<Byte>, after: seq<Byte>, text: seq<Byte>)
    requires AroundMiddle(pattern, before, after)
    ensures Glob(pattern, text) <==>
      || (exists e: nat ::
            BeforeSlash(text, e) && e < |text| && Glob(before, text[..e]) && Glob(after, text[e + 1..]))
      || (Glob(before, text) && Glob(after, []))
  {
    var d := |before|;
    assert pattern[..d] == before && pattern[d + 4..] == after && pattern != ANY_PATH;
    hide FindDoubleStar, Matches, Plain;
  }

  /** The code's reading: both slashes are the same one. */
  lemma MiddleIsOneSlash(pattern: seq<Byte>, before: seq<Byte>, after: seq<Byte>, text: seq<Byte>)
    requires AroundMiddle(pattern, before, after)
    ensures Glob(pattern, text) <==>
      (exists i: nat :: SpansAt(before, after, text, i, i)) || (Glob(before, text) && Glob(after, []))
  {
    MiddleUnfolds(pattern, before, after, text);
    hide Glob, AroundMiddle;
    if e: nat :| BeforeSlash(text, e) && e < |text| && Glob(before, text[..e]) && Glob(after, text[e + 1..]) {
      assert SpansAt(before, after, text, e, e);
    }
    if i: nat :| SpansAt(before, after, text, i, i) {
      assert BeforeSlash(text, i);
    }
  }

  lemma SpanSlashes(before: seq<Byte>, after: seq<Byte>, text: seq<Byte>, i: nat, j: nat)
    requires Plain(before) && Plain(after) && SpansAt(before, after, text, i, j)
    ensures Slashes(text) >= Slashes(before) + Slashes(after) + 1
    ensures Slashes(text) == Slashes(before) + Slashes(after) + 1 <==> i == j
  {
    hide Glob, Slashes, Plain;
    PlainKeepsSlashes(before, text[..i]);
    PlainKeepsSlashes(after, text[j + 1..]);
    SplitAtSlash(text, i);
    if i < j {
      var rest := text[i + 1..];
      assert rest[j - i - 1] == SLASH && rest[j - i..] == text[j + 1..];
      SplitAtSlash(rest, j - i - 1);
    }
  }

  lemma SplitAtSlash(text: seq<Byte>, i: nat)
    requires i < |text| && text[i] == SLASH
    ensures Slashes(text) == Slashes(text[..i]) + 1 + Slashes(text[i + 1..])
  {
    assert text == text[..i] + text[i..] && text[i..][1..] == text[i + 1..];
    SlashesAdd(text[..i], text[i..]);
  }

  lemma EmptySideHasNoSlash(before: seq<Byte>, after: seq<Byte>, text: seq<Byte>)
    requires Plain(before) && Plain(after) && Glob(before, text) && Glob(after, [])
    ensures Slashes(text) == Slashes(before) && Slashes(after) == 0
  {
    PlainKeepsSlashes(before, text);
    PlainKeepsSlashes(after, []);
  }

  /** The code's reading of the middle form agrees with the usual one on a text exactly when the
      text is no deeper than the pattern with a single slash for the form, or the usual reading
      does not match it either. In particular it never spans a directory. */
  lemma MiddleAgreesExactly(pattern: seq<Byte>, before: seq<Byte>, after: seq<Byte>, text: seq<Byte>)
    requires AroundMiddle(pattern, before, after)
    ensures Glob(pattern, text) ==> Spans(before, after, text)
    ensures Glob(pattern, text) ==> Slashes(text) <= Slashes(before) + Slashes(after) + 1
    ensures (Glob(pattern, text) <==> Spans(before, after, text)) <==>
      Slashes(text) <= Slashes(before) + Slashes(after) + 1 || !Spans(before, after, text)
  {
    MiddleIsOneSlash(pattern, before, after, text);
    hide Glob, Slashes, AroundMiddle;
    assert Plain(before) && Plain(after) by { SidesArePlain(pattern, before, after); }
    if Glob(before, text) && Glob(after, []) {
      EmptySideHasNoSlash(before, after, text);
    }
    forall i: nat, j: nat | SpansAt(before, after, text, i, j)
      ensures Slashes(text) >= Slashes(before) + Slashes(after) + 1
      ensures Slashes(text) == Slashes(before) + Slashes(after) + 1 <==> i == j
    {
      SpanSlashes(before, after, text, i, j);
    }
  }

  lemma NoPrefix(before: seq<Byte>, rest: seq<Byte>)
    requires SLASH !in before && before != ANY_PATH && |rest| >= 1 && rest[0] == SLASH
    ensures !(ANY_PREFIX <= before + rest)
  {
    var pattern, n := before + rest, |before|;
    assert pattern[n] == SLASH && forall k :: 0 <= k < n ==> pattern[k] == before[k] != SLASH;
    assert n >= 3 ==> pattern[2] != SLASH;
    assert n == 2 ==> before == [pattern[0], pattern[1]];
    assert n == 1 ==> pattern[1] == SLASH;
    assert ANY_PREFIX[0] == STAR && ANY_PREFIX[1] == STAR && ANY_PREFIX[2] == SLASH;
  }

  lemma NoSuffix(front: seq<Byte>, after: seq<Byte>)
    requires SLASH !in after && after != ANY_PATH && |front| >= 3 && front[|front| - 1] == SLASH
    ensures var pattern := front + after; pattern[|pattern| - 3..] != ANY_SUFFIX
  {
    var pattern, n := front + after, |front|;
    var tail := pattern[|pattern| - 3..];
    assert pattern[n - 1] == SLASH && forall k :: n <= k < |pattern| ==> pattern[k] == after[k - n] != SLASH;
    assert |after| == 2 ==> after == [tail[1], tail[2]];
    assert |after| >= 3 ==> tail[0] != SLASH;
    assert |after| == 1 ==> tail[1] == SLASH;
    assert |after| == 0 ==> tail[2] == SLASH;
    assert ANY_SUFFIX[0] == SLASH && ANY_SUFFIX[1] == STAR && ANY_SUFFIX[2] == STAR;
  }

  lemma MiddleComesFirst(before: seq<Byte>, after: seq<Byte>)
    requires SLASH !in before
    ensures FindDoubleStar(before + ANY_MIDDLE + after, 0) == |before|
  {
    var pattern, d := before + ANY_MIDDLE + after, |before|;
    assert pattern[d..d + 4] == ANY_MIDDLE && MiddleAt(pattern, d);
    assert forall k :: 0 <= k < d ==> pattern[k] == before[k];
    var found := FindDoubleStar(pattern, 0);
    assert pattern[found..found + 4][0] == SLASH;
  }

  /** Among them are all patterns with sides of one component each. */
  lemma ComponentsAroundMiddle(before: seq<Byte>, after: seq<Byte>)
    requires SLASH !in before && SLASH !in after && before != ANY_PATH && after != ANY_PATH
    ensures AroundMiddle(before + ANY_MIDDLE + after, before, after)
  {
    hide FindDoubleStar;
    FormsHaveSlash(before);
    FormsHaveSlash(after);
    MiddleComesFirst(before, after);
    NoPrefix(before, ANY_MIDDLE + after);
    assert before + (ANY_MIDDLE + after) == before + ANY_MIDDLE + after;
    NoSuffix(before + ANY_MIDDLE, after);
  }

  lemma SidesArePlain(pattern: seq<Byte>, before: seq<Byte>, after: seq<Byte>)
    requires AroundMiddle(pattern, before, after)
    ensures Plain(before) && Plain(after)
  {
  }

  /** So whatever the two sides match, with a directory in between it is missed. */
  lemma DeeperPathIsMissed(pattern: seq<Byte>, before: seq<Byte>, after: seq<Byte>,
                           left: seq<Byte>, directory: seq<Byte>, right: seq<Byte>)
    requires AroundMiddle(pattern, before, after) && Glob(before, left) && Glob(after, right)
    ensures var text := left + [SLASH] + directory + [SLASH] + right;
      Spans(before, after, text) && !Glob(pattern, text)
  {
    var text := left + [SLASH] + directory + [SLASH] + right;
    var i, j := |left|, |left| + 1 + |directory|;
    assert text[..i] == left && text[j + 1..] == right && text[i] == SLASH && text[j] == SLASH;
    assert SpansAt(before, after, text, i, j);
    SidesArePlain(pattern, before, after);
    SpanSlashes(before, after, text, i, j);
    MiddleAgreesExactly(pattern, before, after, text);
  }
}
