/** Text as lines: the newline-terminated lines the printers write, and str.splitlines. */
module TextLines {
  import opened Regex

  /** Each line followed by a newline. */
  function Print(lines: seq<string>): string {
    if lines == [] then "" else lines[0] + "\n" + Print(lines[1..])
  }

  /** str.splitlines, where a carriage return and the newline after it end one line. */
  function SplitLines(s: string): seq<string> {
    SplitFrom(s, 0, 0)
  }

  function SplitFrom(s: string, start: nat, i: nat): seq<string>
    requires start <= i <= |s|
    decreases |s| - i
  {
    if i == |s| then (if start < i then [s[start..i]] else [])
    else if !IsBoundary(s[i]) then SplitFrom(s, start, i + 1)
    else
      var after := if s[i] == '\r' && i + 1 < |s| && s[i + 1] == '\n' then i + 2 else i + 1;
      [s[start..i]] + SplitFrom(s, after, after)
  }

  predicate NoBoundary(line: string) {
    forall k :: 0 <= k < |line| ==> !IsBoundary(line[k])
  }

  predicate Unbroken(lines: seq<string>) {
    forall i :: 0 <= i < |lines| ==> NoBoundary(lines[i])
  }

  /** From position i to its end, the text consists of these lines. */
  predicate LinesAt(s: string, i: nat, lines: seq<string>)
    decreases |lines|
  {
    if lines == [] then i == |s|
    else
      var end := i + |lines[0]|;
      StandsAt(s, i, lines[0]) && end < |s| && s[end] == '\n' && LinesAt(s, end + 1, lines[1..])
  }

  lemma {:induction false} PrintStands(before: string, lines: seq<string>)
    ensures LinesAt(before + Print(lines), |before|, lines)
    decreases |lines|
  {
    if lines != [] {
      var upTo := before + (lines[0] + "\n");
      assert before + Print(lines) == upTo + Print(lines[1..]);
      assert upTo[|before| + |lines[0]|] == '\n';
      PrintStands(upTo, lines[1..]);
    }
  }

  lemma {:induction false} SplitPasses(s: string, start: nat, i: nat, j: nat)
    requires start <= i <= j <= |s| && forall k :: i <= k < j ==> !IsBoundary(s[k])
    ensures SplitFrom(s, start, i) == SplitFrom(s, start, j)
    decreases j - i
  {
    if i < j {
      SplitPasses(s, start, i + 1, j);
    }
  }

  lemma {:induction false} SplitAtLines(s: string, i: nat, lines: seq<string>)
    requires i <= |s| && LinesAt(s, i, lines) && Unbroken(lines)
    ensures SplitFrom(s, i, i) == lines
    decreases |lines|
  {
    if lines != [] {
      var end := i + |lines[0]|;
      forall k | i <= k < end ensures !IsBoundary(s[k]) {
        assert s[i + (k - i)] == lines[0][k - i];
      }
      SplitPasses(s, i, i, end);
      assert s[i..end] == lines[0];
      SplitAtLines(s, end + 1, lines[1..]);
    }
  }

  /** Splitting gives back the lines that were printed. */
  lemma SplitInvertsPrint(lines: seq<string>)
    requires Unbroken(lines)
    ensures SplitLines(Print(lines)) == lines
  {
    PrintStands("", lines);
    assert "" + Print(lines) == Print(lines);
    SplitAtLines(Print(lines), 0, lines);
  }

  // Pieces of a text.

  /** x ends a line, or one of the two is empty, and no line end straddles the two. */
  predicate Breaks(x: string, y: string) {
    x == "" || y == ""
    || (IsBoundary(x[|x| - 1]) && !(x[|x| - 1] == '\r' && y[0] == '\n'))
  }

  /** Splitting depends only on what is still to come. */
  lemma {:induction false} SplitShift(x: string, y: string, start: nat, i: nat)
    requires start <= i <= |y|
    ensures SplitFrom(x + y, |x| + start, |x| + i) == SplitFrom(y, start, i)
    decreases |y| - i
  {
    var s := x + y;
    assert s[|x| + start..|x| + i] == y[start..i];
    if i < |y| {
      assert s[|x| + i] == y[i];
      if IsBoundary(y[i]) {
        assert i + 1 < |y| ==> s[|x| + (i + 1)] == y[i + 1];
        var after := if y[i] == '\r' && i + 1 < |y| && y[i + 1] == '\n' then i + 2 else i + 1;
        SplitShift(x, y, after, after);
      } else {
        SplitShift(x, y, start, i + 1);
      }
    }
  }

  lemma SplitStep(s: string, start: nat, i: nat)
    requires start <= i < |s|
    ensures var after := if s[i] == '\r' && i + 1 < |s| && s[i + 1] == '\n' then i + 2 else i + 1;
            SplitFrom(s, start, i) == if IsBoundary(s[i]) then [s[start..i]] + SplitFrom(s, after, after)
                                      else SplitFrom(s, start, i + 1)
  {}

  lemma {:induction false} SplitFront(x: string, y: string, start: nat, i: nat)
    requires x != "" && y != "" && Breaks(x, y)
    requires start <= i <= |x| && (i == |x| ==> start == |x|)
    ensures SplitFrom(x + y, start, i) == SplitFrom(x, start, i) + SplitLines(y)
    decreases |x| - i
  {
    var s := x + y;
    if i == |x| {
      SplitShift(x, y, 0, 0);
    } else {
      assert s[i] == x[i] && s[start..i] == x[start..i];
      assert s[i + 1] == if i + 1 < |x| then x[i + 1] else y[0];
      var after := if x[i] == '\r' && i + 1 < |x| && x[i + 1] == '\n' then i + 2 else i + 1;
      SplitStep(x, start, i);
      SplitStep(s, start, i);
      assert i == |x| - 1 ==> IsBoundary(x[i]);
      if IsBoundary(x[i]) {
        SplitFront(x, y, after, after);
        hide SplitFrom, SplitLines, IsBoundary;
        assert [x[start..i]] + SplitFrom(x, after, after) + SplitLines(y)
               == [x[start..i]] + (SplitFrom(x, after, after) + SplitLines(y));
      } else {
        SplitFront(x, y, start, i + 1);
      }
    }
  }

  /** A text that ends its last line contributes its lines, whatever follows. */
  lemma SplitConcat(x: string, y: string)
    requires Breaks(x, y)
    ensures SplitLines(x + y) == SplitLines(x) + SplitLines(y)
  {
    if x == "" {
      assert x + y == y;
    } else if y == "" {
      assert x + y == x;
    } else {
      SplitFront(x, y, 0, 0);
    }
  }

  /** Where the last, unfinished line of a text begins. */
  function LastLine(s: string): (i: nat)
    ensures i <= |s| && (i > 0 ==> IsBoundary(s[i - 1]))
    ensures NoBoundary(s[i..])
  {
    if s == "" || IsBoundary(s[|s| - 1]) then |s|
    else
      var i := LastLine(s[..|s| - 1]);
      assert s[i..] == s[..|s| - 1][i..] + [s[|s| - 1]];
      i
  }

  /** How long the line end is with which a text begins. */
  function EndLength(s: string): (n: nat)
    ensures n <= |s|
  {
    if s == "" then 0 else if s[0] == '\r' && |s| > 1 && s[1] == '\n' then 2 else 1
  }

  /** A line that the text behind it ends. */
  lemma SplitFirst(line: string, rest: string)
    requires NoBoundary(line) && (rest != "" ==> IsBoundary(rest[0])) && (line != "" || rest != "")
    ensures SplitLines(line + rest) == [line] + SplitLines(rest[EndLength(rest)..])
  {
    var s := line + rest;
    SplitPasses(s, 0, 0, |line|);
    assert s[0..|line|] == line;
    if rest != "" {
      var n := EndLength(rest);
      assert s[|line|] == rest[0] && (|rest| > 1 ==> s[|line| + 1] == rest[1]);
      assert s == (line + rest[..n]) + rest[n..];
      SplitShift(line + rest[..n], rest[n..], 0, 0);
    }
  }

  /** What ends a line: each single line end, and a carriage return with a newline, as one. */
  lemma EachLineEnds(line: string, rest: string)
    requires NoBoundary(line)
    ensures SplitLines(line + "\r\n" + rest) == [line] + SplitLines(rest)
    ensures forall c :: IsBoundary(c) && !(c == '\r' && rest != "" && rest[0] == '\n') ==>
                          SplitLines(line + [c] + rest) == [line] + SplitLines(rest)
    ensures SplitLines(line) == if line == "" then [] else [line]
  {
    var both := "\r\n" + rest;
    assert line + "\r\n" + rest == line + both && both[EndLength(both)..] == rest;
    SplitFirst(line, both);
    forall c | IsBoundary(c) && !(c == '\r' && rest != "" && rest[0] == '\n')
      ensures SplitLines(line + [c] + rest) == [line] + SplitLines(rest)
    {
      var one := [c] + rest;
      assert line + [c] + rest == line + one && one[EndLength(one)..] == rest;
      assert |one| > 1 ==> one[1] == rest[0];
      SplitFirst(line, one);
    }
    if line != "" {
      SplitFirst(line, "");
      assert line + "" == line;
    }
  }

  /** A text whose last line so far is continued up to a line end. */
  lemma SplitAround(head: string, line: string, rest: string)
    requires NoBoundary(line) && (rest != "" ==> IsBoundary(rest[0]))
    requires head != "" ==> IsBoundary(head[|head| - 1])
    requires head != "" && line == "" && rest != "" ==> !(head[|head| - 1] == '\r' && rest[0] == '\n')
    ensures SplitLines(head + line + rest)
            == SplitLines(head) + if line == "" && rest == "" then [] else [line] + SplitLines(rest[EndLength(rest)..])
  {
    assert head + line + rest == head + (line + rest);
    assert line != "" ==> (line + rest)[0] == line[0];
    SplitConcat(head, line + rest);
    if line == "" && rest == "" {
      assert line + rest == "";
    } else {
      hide SplitLines;
      SplitFirst(line, rest);
    }
  }
}
