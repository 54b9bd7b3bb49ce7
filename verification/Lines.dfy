/** The division of a text into lines. */
module Lines {
  import Slices
  import opened Bytes

  const NEWLINE: Byte := 10

  type Line = seq<Byte>

  /** Position just after the first line of `data`. */
  function LineEnd(data: seq<Byte>): (n: nat)
    requires data != []
    ensures 1 <= n <= |data|
    ensures forall k :: 0 <= k < n - 1 ==> data[k] != NEWLINE
    ensures n < |data| ==> data[n - 1] == NEWLINE
  {
    if data[0] == NEWLINE || |data| == 1 then 1 else 1 + LineEnd(data[1..])
  }

  function LinesOf(data: seq<Byte>): seq<Line> {
    if data == [] then [] else [data[..LineEnd(data)]] + LinesOf(data[LineEnd(data)..])
  }

  ghost function Join(lines: seq<Line>): seq<Byte> {
    if lines == [] then [] else lines[0] + Join(lines[1..])
  }

  /** A line is not empty and has a newline only at its end. */
  ghost predicate IsLine(line: Line) {
    line != [] && forall k :: 0 <= k < |line| - 1 ==> line[k] != NEWLINE
  }

  /** All lines but the last end in a newline. */
  ghost predicate WellSplit(lines: seq<Line>) {
    lines == [] ||
    (IsLine(lines[0]) && (|lines| > 1 ==> lines[0][|lines[0]| - 1] == NEWLINE) && WellSplit(lines[1..]))
  }

  lemma {:induction false} LinesOfSplits(data: seq<Byte>)
    ensures Join(LinesOf(data)) == data && WellSplit(LinesOf(data))
  {
    if data != [] {
      var n := LineEnd(data);
      var line, rest := data[..n], data[n..];
      LinesOfSplits(rest);
      assert line + rest == data;
      assert IsLine(line) && (rest != [] ==> line[|line| - 1] == NEWLINE);
      assert LinesOf(data) == [line] + LinesOf(rest) && (rest == [] ==> LinesOf(rest) == []);
      hide LinesOf, IsLine;
      FirstLine(line, LinesOf(rest));
    }
  }

  lemma FirstLine(line: Line, rest: seq<Line>)
    ensures Join([line] + rest) == line + Join(rest)
    ensures IsLine(line) && (rest != [] ==> line[|line| - 1] == NEWLINE) && WellSplit(rest) ==> WellSplit([line] + rest)
  {
    hide IsLine;
    Slices.Tail([line], rest);
  }

  lemma LineEndOfJoin(line: Line, rest: seq<Byte>)
    requires IsLine(line)
    requires rest != [] ==> line[|line| - 1] == NEWLINE
    ensures LineEnd(line + rest) == |line|
  {
    var data := line + rest;
    var n := LineEnd(data);
    assert forall k :: 0 <= k < |line| ==> data[k] == line[k];
  }

  /** There is only one way to split: joining and splitting again gives the lines back. */
  lemma {:induction false} SplitIsUnique(lines: seq<Line>)
    requires WellSplit(lines)
    ensures LinesOf(Join(lines)) == lines
  {
    if lines != [] {
      var line, rest := lines[0], Join(lines[1..]);
      SplitIsUnique(lines[1..]);
      LineEndOfJoin(line, rest);
      assert (line + rest)[..|line|] == line && (line + rest)[|line|..] == rest;
    }
  }

  /** Cutting one more line off what remains. */
  lemma TakeLine(data: seq<Byte>, start: nat, n: nat)
    requires start < n <= |data|
    requires forall q :: start <= q < n - 1 ==> data[q] != NEWLINE
    requires n < |data| ==> data[n - 1] == NEWLINE
    ensures LinesOf(data[start..]) == [data[start..n]] + LinesOf(data[n..])
  {
    var line := data[start..n];
    assert data[start..] == line + data[n..];
    LineEndOfJoin(line, data[n..]);
    assert (line + data[n..])[..|line|] == line && (line + data[n..])[|line|..] == data[n..];
  }

  ghost predicate SplitSoFar(data: seq<Byte>, lines: seq<Line>, start: nat) {
    start <= |data| && lines + LinesOf(data[start..]) == LinesOf(data)
  }

  ghost predicate NoNewline(data: seq<Byte>, from: nat, to: nat) {
    from <= to <= |data| && forall q :: from <= q < to ==> data[q] != NEWLINE
  }

  lemma OneMoreLine(data: seq<Byte>, lines: seq<Line>, start: nat, n: nat)
    requires SplitSoFar(data, lines, start) && start < n <= |data|
    requires NoNewline(data, start, n - 1) && (n < |data| ==> data[n - 1] == NEWLINE)
    ensures SplitSoFar(data, lines + [data[start..n]], n)
  {
    TakeLine(data, start, n);
    hide LinesOf;
    Slices.Assoc(lines, [data[start..n]], LinesOf(data[n..]));
  }

  lemma NextByte(data: seq<Byte>, start: nat, idx: nat)
    requires idx < |data| && start <= idx
    ensures NoNewline(data, idx + 1, idx + 1)
    ensures NoNewline(data, start, idx + 1) ==> NoNewline(data, start, idx)
    ensures NoNewline(data, start, idx) && data[idx] != NEWLINE ==> NoNewline(data, start, idx + 1)
  {
  }

  lemma SplitStarts(data: seq<Byte>)
    ensures SplitSoFar(data, [], 0)
  {
    assert data[0..] == data;
  }

  lemma SplitEnds(data: seq<Byte>, lines: seq<Line>)
    requires SplitSoFar(data, lines, |data|)
    ensures lines == LinesOf(data)
  {
    assert data[|data|..] == [];
  }

  lemma LastLine(data: seq<Byte>, lines: seq<Line>, start: nat)
    requires start < |data| && SplitSoFar(data, lines, start) && NoNewline(data, start, |data|)
    ensures lines + [data[start..]] == LinesOf(data)
  {
    assert data[start..] == data[start..|data|];
    OneMoreLine(data, lines, start, |data|);
    hide LinesOf;
    SplitEnds(data, lines + [data[start..|data|]]);
  }

  /** `split_lines`. */
  method SplitLines(data: seq<Byte>) returns (lines: seq<Line>)
    ensures lines == LinesOf(data)
  {
    assert NoNewline(data, 0, 0);
    hide LinesOf, SplitSoFar, NoNewline;
    lines := [];
    SplitStarts(data);
    if data == [] { SplitEnds(data, lines); return; }
    var start := 0;
    for idx := 0 to |data|
      invariant 0 <= start <= idx && SplitSoFar(data, lines, start) && NoNewline(data, start, idx)
    {
      NextByte(data, start, idx);
      if data[idx] == NEWLINE {
        OneMoreLine(data, lines, start, idx + 1);
        lines := lines + [data[start..idx + 1]];
        start := idx + 1;
      }
    }
    if start < |data| {
      LastLine(data, lines, start);
      lines := lines + [data[start..]];
    } else {
      SplitEnds(data, lines);
    }
  }
}
