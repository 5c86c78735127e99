/** Test discovery: the listing scanner (tools/gcnport_tools/dolphin_tests.py) and the printer it
    inverts (tools/test_dolphin_tests.py). */
module Listing {
  import opened Words
  import opened Regex
  import opened TextLines

  /** `(?:#.*)?` and the end of the line, after blanks. */
  const REMARK: Re := Star(Space, Either(One(Only('#'), Star(NotNewline, TextEnd(Done))), TextEnd(Done)))

  /** `([\w/]+\.)\s*(?:#.*)?` */
  const SUITE_LINE: Re := Open(Repeat(WordOrSlash, One(Only('.'), Close(REMARK))))

  /** `\s+([\w/]+)\s*(?:#.*)?` */
  const TEST_LINE: Re := Repeat(Space, Open(Repeat(WordOrSlash, Close(REMARK))))

  // What the two patterns recognise, by looking at each character once.

  predicate RemarkFrom(a: Alphabet, line: string, i: nat)
    requires i <= |line|
  {
    var k := RunEnd(a, Space, line, i);
    k == |line| || (line[k] == '#' && RunEnd(a, NotNewline, line, k) == |line|)
  }

  function SuiteOf(a: Alphabet, line: string): Option<string> {
    var j := RunEnd(a, WordOrSlash, line, 0);
    if 0 < j < |line| && line[j] == '.' && RemarkFrom(a, line, j + 1) then Some(line[..j + 1]) else None
  }

  function TestOf(a: Alphabet, line: string): Option<string> {
    var i := RunEnd(a, Space, line, 0);
    var j := RunEnd(a, WordOrSlash, line, i);
    if 0 < i < j && RemarkFrom(a, line, j) then Some(line[i..j]) else None
  }

  lemma TailMatches(a: Alphabet, line: string, k: nat, g: Group)
    requires g.start <= k <= |line|
    ensures Try(a, Star(NotNewline, TextEnd(Done)), line, k, g)
            == if RunEnd(a, NotNewline, line, k) == |line| then Some(Match(|line|, g.text)) else None
  {
    var j := RunEnd(a, NotNewline, line, k);
    if j == |line| {
      StarIsGreedy(a, NotNewline, TextEnd(Done), line, k, g);
    } else {
      StarTakesAll(a, NotNewline, TextEnd(Done), line, k, g);
    }
  }

  lemma RemarkMatches(a: Alphabet, line: string, i: nat, g: Group)
    requires g.start <= i <= |line|
    ensures Try(a, REMARK, line, i, g)
            == if RemarkFrom(a, line, i) then Some(Match(|line|, g.text)) else None
  {
    var rest := Either(One(Only('#'), Star(NotNewline, TextEnd(Done))), TextEnd(Done));
    var k := RunEnd(a, Space, line, i);
    forall p | i <= p < k ensures Try(a, rest, line, p, g).None? {}
    StarTakesAll(a, Space, rest, line, i, g);
    var remark := One(Only('#'), Star(NotNewline, TextEnd(Done)));
    if k < |line| && line[k] == '#' {
      assert Try(a, remark, line, k, g) == Try(a, Star(NotNewline, TextEnd(Done)), line, k + 1, g);
      TailMatches(a, line, k + 1, g);
      RunIs(a, NotNewline, line, k, RunEnd(a, NotNewline, line, k + 1));
      assert Try(a, TextEnd(Done), line, k, g).None?;
    } else {
      assert Try(a, remark, line, k, g).None?;
      assert Try(a, rest, line, k, g) == Try(a, TextEnd(Done), line, k, g);
      assert Try(a, TextEnd(Done), line, k, g) == if k == |line| then Try(a, Done, line, k, g) else None;
    }
  }

  /** The suite name: the longest run, because the dot is not a name character. */
  lemma SuiteNameMatches(a: Alphabet, line: string)
    requires a.Valid()
    ensures var j := RunEnd(a, WordOrSlash, line, 0);
            MatchAt(a, SUITE_LINE, line, 0) ==
            if j > 0 then Try(a, One(Only('.'), Close(REMARK)), line, j, Group(0, "")) else None
  {
    var dot := One(Only('.'), Close(REMARK));
    var g := Group(0, "");
    var j := RunEnd(a, WordOrSlash, line, 0);
    assert MatchAt(a, SUITE_LINE, line, 0) == Try(a, Repeat(WordOrSlash, dot), line, 0, g);
    if j > 0 {
      RunIs(a, WordOrSlash, line, 1, j);
      forall p | 1 <= p < j ensures Try(a, dot, line, p, g).None? {
        assert !a.word('.');
      }
      StarTakesAll(a, WordOrSlash, dot, line, 1, g);
      assert Try(a, Repeat(WordOrSlash, dot), line, 0, g) == Try(a, Star(WordOrSlash, dot), line, 1, g);
    } else {
      assert Try(a, Repeat(WordOrSlash, dot), line, 0, g).None?;
    }
  }

  lemma SuiteLineMatches(a: Alphabet, line: string)
    requires a.Valid()
    ensures FullMatch(a, SUITE_LINE, line) == SuiteOf(a, line)
  {
    SuiteNameMatches(a, line);
    var j := RunEnd(a, WordOrSlash, line, 0);
    if 0 < j < |line| && line[j] == '.' {
      var closed := Group(0, line[..j + 1]);
      assert line[0..j + 1] == line[..j + 1];
      assert Try(a, Close(REMARK), line, j + 1, Group(0, "")) == Try(a, REMARK, line, j + 1, closed);
      RemarkMatches(a, line, j + 1, closed);
    }
  }

  lemma TestLineMatches(a: Alphabet, line: string)
    requires a.Valid()
    ensures FullMatch(a, TEST_LINE, line) == TestOf(a, line)
  {
    var name := Open(Repeat(WordOrSlash, Close(REMARK)));
    var g := Group(0, "");
    var i := RunEnd(a, Space, line, 0);
    if i > 0 {
      RunIs(a, Space, line, 1, i);
      forall p | 1 <= p < i ensures Try(a, name, line, p, g).None? {
        assert !WordOrSlash.Has(a, line[p]);
        assert Try(a, name, line, p, g) == Try(a, Repeat(WordOrSlash, Close(REMARK)), line, p, Group(p, ""));
      }
      StarTakesAll(a, Space, name, line, 1, g);
      assert MatchAt(a, TEST_LINE, line, 0) == Try(a, name, line, i, g);
      NameMatches(a, line, i);
    }
  }

  lemma NoRemarkInName(a: Alphabet, line: string, p: nat)
    requires a.Valid() && p < |line| && WordOrSlash.Has(a, line[p])
    ensures !RemarkFrom(a, line, p)
  {
    RunIs(a, Space, line, p, p);
    assert !a.word('#');
  }

  /** The name of a test line: the longest run, because a shorter one leaves a name character over. */
  lemma NameMatches(a: Alphabet, line: string, i: nat)
    requires a.Valid() && i <= |line|
    ensures var j := RunEnd(a, WordOrSlash, line, i);
            var m := Try(a, Open(Repeat(WordOrSlash, Close(REMARK))), line, i, Group(0, ""));
            m == if i < j && RemarkFrom(a, line, j) then Some(Match(|line|, line[i..j])) else None
  {
    var g := Group(i, "");
    var j := RunEnd(a, WordOrSlash, line, i);
    assert Try(a, Open(Repeat(WordOrSlash, Close(REMARK))), line, i, Group(0, ""))
           == Try(a, Repeat(WordOrSlash, Close(REMARK)), line, i, g);
    if i < j {
      RunIs(a, WordOrSlash, line, i + 1, j);
      hide RemarkFrom, RunEnd;
      forall p | i + 1 <= p < j ensures Try(a, Close(REMARK), line, p, g).None? {
        NoRemarkInName(a, line, p);
        RemarkMatches(a, line, p, Group(i, line[i..p]));
      }
      StarTakesAll(a, WordOrSlash, Close(REMARK), line, i + 1, g);
      RemarkMatches(a, line, j, Group(i, line[i..j]));
      assert Try(a, Repeat(WordOrSlash, Close(REMARK)), line, i, g)
             == Try(a, Star(WordOrSlash, Close(REMARK)), line, i + 1, g);
    }
  }

  /** No line has both shapes. */
  lemma ShapesDisjoint(a: Alphabet, line: string)
    requires a.Valid()
    ensures FullMatch(a, SUITE_LINE, line).None? || FullMatch(a, TEST_LINE, line).None?
  {
    SuiteLineMatches(a, line);
    TestLineMatches(a, line);
    if line != "" {
      assert IsSpace(line[0]) ==> !WordOrSlash.Has(a, line[0]);
    }
  }

  /** The scanner's state after a line. */
  datatype Scan = Scan(suite: string, found: multiset<string>)

  const START: Scan := Scan("", multiset{})

  function ScanLine(a: Alphabet, scan: Scan, line: string): Scan {
    match FullMatch(a, SUITE_LINE, line)
    case Some(suite) => scan.(suite := suite)
    case None =>
      if scan.suite == "" then scan
      else
        match FullMatch(a, TEST_LINE, line)
        case Some(test) => scan.(found := scan.found + multiset{scan.suite + test})
        case None => scan
  }

  function ScanLines(a: Alphabet, scan: Scan, lines: seq<string>): Scan
    decreases |lines|
  {
    if lines == [] then scan else ScanLines(a, ScanLine(a, scan, lines[0]), lines[1..])
  }

  /** The names counted in a listing. */
  function Found(a: Alphabet, listing: string): multiset<string> {
    ScanLines(a, START, SplitLines(listing)).found
  }

  /** One iteration of the scanner's loop. */
  lemma ScanNext(a: Alphabet, scan: Scan, lines: seq<string>, i: nat)
    requires i < |lines|
    ensures ScanLines(a, scan, lines[i..]) == ScanLines(a, ScanLine(a, scan, lines[i]), lines[i + 1..])
  {
    assert lines[i..][1..] == lines[i + 1..];
  }

  /** Whether the listing is accepted: every expected name counted exactly once. */
  method ValidateListing(a: Alphabet, listing: string, expected: seq<string>) returns (accepted: bool)
    ensures accepted <==> forall name :: name in expected ==> Found(a, listing)[name] == 1
  {
    hide ScanLines, SplitLines, FullMatch;
    var suite := "";
    var found: multiset<string> := multiset{};
    var lines := SplitLines(listing);
    assert lines[0..] == lines;
    for i := 0 to |lines|
      invariant ScanLines(a, START, lines) == ScanLines(a, Scan(suite, found), lines[i..])
    {
      ScanNext(a, Scan(suite, found), lines, i);
      var header := FullMatch(a, SUITE_LINE, lines[i]);
      if header.Some? {
        suite := header.value;
      } else if suite != "" {
        var test := FullMatch(a, TEST_LINE, lines[i]);
        if test.Some? {
          found := found + multiset{suite + test.value};
        }
      }
    }
    ScanNothing(a, Scan(suite, found), lines);
    assert found == Found(a, listing);
    accepted := true;
    for i := 0 to |expected|
      invariant accepted <==> forall j :: 0 <= j < i ==> found[expected[j]] == 1
    {
      if found[expected[i]] != 1 {
        accepted := false;
      }
    }
  }

  lemma ScanNothing(a: Alphabet, scan: Scan, lines: seq<string>)
    ensures ScanLines(a, scan, lines[|lines|..]) == scan
  {}

  /** Scanning two pieces in turn. */
  lemma {:induction false} ScanConcat(a: Alphabet, scan: Scan, front: seq<string>, back: seq<string>)
    ensures ScanLines(a, scan, front + back) == ScanLines(a, ScanLines(a, scan, front), back)
    decreases |front|
  {
    if front == [] {
      assert front + back == back;
    } else {
      assert (front + back)[1..] == front[1..] + back;
      ScanConcat(a, ScanLine(a, scan, front[0]), front[1..], back);
    }
  }

  /** What was counted before does not influence what is counted next. */
  lemma {:induction false} ScanAdds(a: Alphabet, scan: Scan, lines: seq<string>)
    ensures var alone := ScanLines(a, scan.(found := multiset{}), lines);
            ScanLines(a, scan, lines) == alone.(found := scan.found + alone.found)
    decreases |lines|
  {
    if lines != [] {
      var next := ScanLine(a, scan, lines[0]);
      var nextAlone := ScanLine(a, scan.(found := multiset{}), lines[0]);
      ScanAdds(a, next, lines[1..]);
      ScanAdds(a, nextAlone, lines[1..]);
      assert next.(found := multiset{}) == nextAlone.(found := multiset{});
      assert next.found == scan.found + nextAlone.found;
    }
  }

  /** A listing whose second part opens with a suite header counts the sum of its parts. */
  lemma ListingIsCompositional(a: Alphabet, front: seq<string>, back: seq<string>)
    requires back != [] && FullMatch(a, SUITE_LINE, back[0]).Some?
    ensures ScanLines(a, START, front + back).found
            == ScanLines(a, START, front).found + ScanLines(a, START, back).found
  {
    ScanConcat(a, START, front, back);
    var middle := ScanLines(a, START, front);
    ScanAdds(a, middle, back);
    assert ScanLine(a, middle.(found := multiset{}), back[0]) == ScanLine(a, START, back[0]);
  }

  /** A line of neither shape can stand anywhere without changing the counts. */
  lemma NoiseIsIgnored(a: Alphabet, front: seq<string>, noise: string, back: seq<string>)
    requires FullMatch(a, SUITE_LINE, noise).None? && FullMatch(a, TEST_LINE, noise).None?
    ensures ScanLines(a, START, front + [noise] + back) == ScanLines(a, START, front + back)
  {
    ScanConcat(a, START, front + [noise], back);
    ScanConcat(a, START, front, [noise]);
    ScanConcat(a, START, front, back);
  }

  /** Blanks, a comment, or both. */
  predicate IsRemark(a: Alphabet, text: string) {
    RemarkFrom(a, text, 0) && RunEnd(a, NotNewline, text, 0) == |text|
  }

  /** Appended to a line, it is a remark from any position from which the rest of the line was one. */
  lemma RemarkExtends(a: Alphabet, line: string, i: nat, remark: string)
    requires i <= |line| && IsRemark(a, remark)
    ensures RemarkFrom(a, line + remark, i) <==> RemarkFrom(a, line, i)
  {
    var whole := line + remark;
    var (k, r) := (RunEnd(a, Space, line, i), RunEnd(a, Space, remark, 0));
    assert forall p :: 0 <= p < |line| ==> whole[p] == line[p];
    assert forall p :: |line| <= p < |whole| ==> whole[p] == remark[p - |line|];
    if k < |line| {
      RunIs(a, Space, whole, i, k);
      if RunEnd(a, NotNewline, line, k) == |line| {
        RunIs(a, NotNewline, whole, k, |whole|);
      } else {
        RunIs(a, NotNewline, whole, k, RunEnd(a, NotNewline, line, k));
      }
    } else {
      RunIs(a, Space, whole, i, |line| + r);
      if r < |remark| {
        RunIs(a, NotNewline, whole, |line| + r, |whole|);
      }
    }
  }

  /** A run of name characters does not reach into a remark. */
  lemma NameEnds(a: Alphabet, line: string, i: nat, remark: string)
    requires a.Valid() && i <= |line| && IsRemark(a, remark)
    ensures RunEnd(a, WordOrSlash, line + remark, i) == RunEnd(a, WordOrSlash, line, i)
  {
    var (whole, j) := (line + remark, RunEnd(a, WordOrSlash, line, i));
    assert !a.word('#') && forall c :: IsSpace(c) ==> !WordOrSlash.Has(a, c);
    assert remark != "" ==> IsSpace(remark[0]) || remark[0] == '#';
    assert forall p :: 0 <= p < |line| ==> whole[p] == line[p];
    assert j == |line| && remark != "" ==> whole[j] == remark[0];
    RunIs(a, WordOrSlash, whole, i, j);
  }

  lemma SuiteExtends(a: Alphabet, line: string, remark: string)
    requires a.Valid() && IsRemark(a, remark)
    ensures SuiteOf(a, line + remark) == SuiteOf(a, line)
  {
    var (whole, j) := (line + remark, RunEnd(a, WordOrSlash, line, 0));
    NameEnds(a, line, 0, remark);
    assert remark != "" ==> remark[0] != '.';
    if j < |line| {
      RemarkExtends(a, line, j + 1, remark);
      hide RemarkFrom, IsRemark;
      assert whole[..j + 1] == line[..j + 1] && whole[j] == line[j];
    } else {
      hide RemarkFrom, IsRemark;
      assert j < |whole| ==> whole[j] == remark[0];
    }
  }

  lemma TestExtends(a: Alphabet, line: string, remark: string)
    requires a.Valid() && IsRemark(a, remark)
    ensures TestOf(a, line + remark) == TestOf(a, line)
  {
    var (whole, i) := (line + remark, RunEnd(a, Space, line, 0));
    assert forall p :: 0 <= p < |line| ==> whole[p] == line[p];
    if i < |line| {
      var j := RunEnd(a, WordOrSlash, line, i);
      RunIs(a, Space, whole, 0, i);
      NameEnds(a, line, i, remark);
      RemarkExtends(a, line, j, remark);
      assert whole[i..j] == line[i..j];
    } else {
      BlankExtends(a, line, remark);
    }
  }

  /** A blank line stays without a name. */
  lemma BlankExtends(a: Alphabet, line: string, remark: string)
    requires a.Valid() && IsRemark(a, remark) && RunEnd(a, Space, line, 0) == |line|
    ensures TestOf(a, line + remark) == None == TestOf(a, line)
  {
    var (whole, r) := (line + remark, RunEnd(a, Space, remark, 0));
    assert forall p :: 0 <= p < |line| ==> whole[p] == line[p];
    assert forall p :: |line| <= p < |whole| ==> whole[p] == remark[p - |line|];
    RunIs(a, Space, whole, 0, |line| + r);
    assert !a.word('#');
    RunIs(a, WordOrSlash, whole, |line| + r, |line| + r);
  }

  /** Appending blanks and a comment to any line, of either shape or neither, changes nothing in the
      scan. */
  lemma RemarkIsIgnored(a: Alphabet, scan: Scan, line: string, remark: string)
    requires a.Valid() && IsRemark(a, remark)
    ensures ScanLine(a, scan, line + remark) == ScanLine(a, scan, line)
  {
    SuiteLineMatches(a, line);
    TestLineMatches(a, line);
    SuiteLineMatches(a, line + remark);
    TestLineMatches(a, line + remark);
    hide SuiteOf, TestOf, FullMatch, IsRemark;
    SuiteExtends(a, line, remark);
    TestExtends(a, line, remark);
  }

  /** n blanks, and then the end of the text or a hash. */
  predicate BlanksUpTo(text: string, n: nat) {
    n <= |text| && (forall k :: 0 <= k < n ==> IsSpace(text[k])) && (n == |text| || text[n] == '#')
  }

  /** A remark, character by character: no newline, and after blanks the end or a hash. */
  lemma RemarkShape(a: Alphabet, text: string)
    ensures IsRemark(a, text) <==> '\n' !in text && exists n: nat :: BlanksUpTo(text, n)
  {
    if IsRemark(a, text) {
      assert BlanksUpTo(text, RunEnd(a, Space, text, 0));
      assert forall k :: 0 <= k < |text| ==> NotNewline.Has(a, text[k]);
    }
    if '\n' !in text && exists n: nat :: BlanksUpTo(text, n) {
      var n: nat :| BlanksUpTo(text, n);
      assert !IsSpace('#');
      RunIs(a, Space, text, 0, n);
      RunIs(a, NotNewline, text, 0, |text|);
      RunIs(a, NotNewline, text, n, |text|);
    }
  }

  /** A header: any plain name, a dot and a remark; the name and the dot are captured. */
  lemma HeaderShape(a: Alphabet, suite: string, remark: string)
    requires a.Valid() && PlainPart(a, suite) && IsRemark(a, remark)
    ensures FullMatch(a, SUITE_LINE, suite + "." + remark) == Some(suite + ".")
  {
    HeaderLine(a, suite);
    SuiteLineMatches(a, suite + ".");
    SuiteLineMatches(a, suite + "." + remark);
    SuiteExtends(a, suite + ".", remark);
  }

  /** An entry: blanks, any plain name and a remark; the name is captured. */
  lemma EntryShape(a: Alphabet, blanks: string, test: string, remark: string)
    requires a.Valid() && PlainPart(a, test) && IsRemark(a, remark)
    requires blanks != "" && forall k :: 0 <= k < |blanks| ==> IsSpace(blanks[k])
    ensures FullMatch(a, TEST_LINE, blanks + test + remark) == Some(test)
  {
    var line := blanks + test;
    assert forall k :: 0 <= k < |blanks| ==> line[k] == blanks[k];
    assert forall k :: |blanks| <= k < |line| ==> line[k] == test[k - |blanks|];
    forall k | |blanks| <= k < |line| ensures WordOrSlash.Has(a, line[k]) {
      assert a.word(test[k - |blanks|]) || test[k - |blanks|] == '/';
    }
    assert test[0] == line[|blanks|] && !IsSpace(line[|blanks|]);
    RunIs(a, Space, line, 0, |blanks|);
    RunIs(a, WordOrSlash, line, |blanks|, |line|);
    RunIs(a, Space, line, |line|, |line|);
    assert line[|blanks|..|line|] == test;
    assert TestOf(a, line) == Some(test);
    hide TestOf, RunEnd, IsSpace, Class.Has, FullMatch;
    TestLineMatches(a, line + remark);
    TestExtends(a, line, remark);
  }

  /** What may follow a name: blanks, and then the end or a hash with the rest of its line. */
  ghost predicate Trails(rest: string) {
    exists n: nat :: BlanksUpTo(rest, n) && forall k :: n <= k < |rest| ==> rest[k] != '\n'
  }

  lemma RemarkTrails(a: Alphabet, line: string, i: nat)
    requires i <= |line| && RemarkFrom(a, line, i)
    ensures Trails(line[i..])
  {
    var (rest, n) := (line[i..], RunEnd(a, Space, line, i) - i);
    forall k | 0 <= k < n ensures IsSpace(rest[k]) {
      assert Space.Has(a, line[i + k]);
    }
    forall k | n <= k < |rest| ensures rest[k] != '\n' {
      assert NotNewline.Has(a, line[i + k]);
    }
    assert BlanksUpTo(rest, n);
  }

  /** Nothing else is a header: the capture is a plain name and a dot, it begins the line, and only
      blanks and a comment follow it. */
  lemma HeaderOnly(a: Alphabet, line: string)
    requires a.Valid() && FullMatch(a, SUITE_LINE, line).Some?
    ensures var header := FullMatch(a, SUITE_LINE, line).value;
            && |header| > 0 && header[|header| - 1] == '.' && PlainPart(a, header[..|header| - 1])
            && header <= line && Trails(line[|header|..])
  {
    SuiteLineMatches(a, line);
    var j := RunEnd(a, WordOrSlash, line, 0);
    forall k | 0 <= k < j ensures a.word(line[k]) || line[k] == '/' {
      assert WordOrSlash.Has(a, line[k]);
    }
    RemarkTrails(a, line, j + 1);
  }

  /** The test stands at i, behind at least one blank and nothing but blanks. */
  predicate IndentedAt(line: string, test: string, i: nat) {
    0 < i && i + |test| <= |line| && line[i..i + |test|] == test && forall k :: 0 <= k < i ==> IsSpace(line[k])
  }

  /** Nothing else is an entry. */
  lemma EntryOnly(a: Alphabet, line: string)
    requires a.Valid() && FullMatch(a, TEST_LINE, line).Some?
    ensures var test := FullMatch(a, TEST_LINE, line).value;
            && PlainPart(a, test)
            && exists i: nat :: IndentedAt(line, test, i) && Trails(line[i + |test|..])
  {
    TestLineMatches(a, line);
    var i := RunEnd(a, Space, line, 0);
    var j := RunEnd(a, WordOrSlash, line, i);
    forall k | 0 <= k < i ensures IsSpace(line[k]) {
      assert Space.Has(a, line[k]);
    }
    forall k | i <= k < j ensures a.word(line[k]) || line[k] == '/' {
      assert WordOrSlash.Has(a, line[k]);
    }
    RemarkTrails(a, line, j);
    assert IndentedAt(line, line[i..j], i);
  }

  /** Entries before the first header are not counted. */
  lemma {:induction false} NothingBeforeHeader(a: Alphabet, lines: seq<string>)
    requires forall i :: 0 <= i < |lines| ==> FullMatch(a, SUITE_LINE, lines[i]).None?
    ensures ScanLines(a, START, lines) == START
    decreases |lines|
  {
    if lines != [] {
      hide FullMatch;
      assert ScanLine(a, START, lines[0]) == START;
      NothingBeforeHeader(a, lines[1..]);
    }
  }

  // Whole listings as text.

  /** Two listings, one behind the other: if the second opens with a suite header, their counts add. */
  lemma ListingsAdd(a: Alphabet, front: string, back: string)
    requires Breaks(front, back)
    requires SplitLines(back) != [] && FullMatch(a, SUITE_LINE, SplitLines(back)[0]).Some?
    ensures Found(a, front + back) == Found(a, front) + Found(a, back)
  {
    SplitConcat(front, back);
    ListingIsCompositional(a, SplitLines(front), SplitLines(back));
  }

  predicate AllNoise(a: Alphabet, lines: seq<string>) {
    forall i :: 0 <= i < |lines| ==> FullMatch(a, SUITE_LINE, lines[i]).None? && FullMatch(a, TEST_LINE, lines[i]).None?
  }

  lemma {:induction false} NoiseKeeps(a: Alphabet, scan: Scan, noise: seq<string>)
    requires AllNoise(a, noise)
    ensures ScanLines(a, scan, noise) == scan
    decreases |noise|
  {
    if noise != [] {
      hide FullMatch;
      assert ScanLine(a, scan, noise[0]) == scan;
      NoiseKeeps(a, scan, noise[1..]);
    }
  }

  /** A piece of text none of whose lines has a shape can be inserted between lines anywhere. */
  lemma NoiseInText(a: Alphabet, front: string, noise: string, back: string)
    requires Breaks(front, noise + back) && Breaks(noise, back) && Breaks(front, back)
    requires AllNoise(a, SplitLines(noise))
    ensures Found(a, front + (noise + back)) == Found(a, front + back)
  {
    hide SplitLines;
    SplitConcat(front, noise + back);
    SplitConcat(noise, back);
    SplitConcat(front, back);
    var (before, between, behind) := (SplitLines(front), SplitLines(noise), SplitLines(back));
    NoiseKeeps(a, ScanLines(a, START, before), between);
    ScanConcat(a, START, before, between + behind);
    ScanConcat(a, ScanLines(a, START, before), between, behind);
    ScanConcat(a, START, before, behind);
  }

  /** Trailing blanks and comments never change the counts: a remark can be inserted at the end of any
      line of any listing. */
  lemma RemarkInText(a: Alphabet, front: string, remark: string, back: string)
    requires a.Valid() && IsRemark(a, remark) && NoBoundary(remark)
    requires back != "" ==> IsBoundary(back[0])
    requires front != "" && back != "" ==> !(front[|front| - 1] == '\r' && back[0] == '\n')
    ensures Found(a, front + remark + back) == Found(a, front + back)
  {
    var (head, line) := (front[..LastLine(front)], front[LastLine(front)..]);
    assert front == head + line && front + remark == head + (line + remark);
    RemarkAround(a, head, line, remark, back);
  }

  lemma RemarkAround(a: Alphabet, head: string, line: string, remark: string, back: string)
    requires a.Valid() && IsRemark(a, remark) && NoBoundary(line) && NoBoundary(remark)
    requires back != "" ==> IsBoundary(back[0])
    requires head != "" ==> IsBoundary(head[|head| - 1])
    requires head != "" && line == "" && back != "" ==> !(head[|head| - 1] == '\r' && back[0] == '\n')
    ensures Found(a, head + (line + remark) + back) == Found(a, head + line + back)
  {
    hide SplitLines, IsRemark, IsBoundary, ScanLines, EndLength;
    assert NoBoundary(line + remark);
    SplitAround(head, line, back);
    SplitAround(head, line + remark, back);
    if line + remark == "" {
      assert line + remark == line;
    } else if line == "" && back == "" {
      assert line + remark == remark && SplitLines(head) + [] == SplitLines(head);
      NothingSplits();
      assert [remark] + [] == [remark];
      assert SplitLines(head + (line + remark) + back) == SplitLines(head) + [remark];
      RemarkAlone(a, SplitLines(head), remark);
    } else {
      RemarkOnLine(a, SplitLines(head), line, remark, SplitLines(back[EndLength(back)..]));
    }
  }

  lemma NothingSplits()
    ensures SplitLines(""[EndLength("")..]) == []
  {}

  lemma RemarkOnLine(a: Alphabet, front: seq<string>, line: string, remark: string, back: seq<string>)
    requires a.Valid() && IsRemark(a, remark)
    ensures ScanLines(a, START, front + ([line + remark] + back)) == ScanLines(a, START, front + ([line] + back))
  {
    var scan := ScanLines(a, START, front);
    ScanConcat(a, START, front, [line + remark] + back);
    ScanConcat(a, START, front, [line] + back);
    RemarkIsIgnored(a, scan, line, remark);
    hide ScanLine, IsRemark;
    assert ([line + remark] + back)[1..] == back == ([line] + back)[1..];
  }

  /** A remark that becomes a line of its own. */
  lemma RemarkAlone(a: Alphabet, front: seq<string>, remark: string)
    requires a.Valid() && IsRemark(a, remark)
    ensures ScanLines(a, START, front + [remark]) == ScanLines(a, START, front)
  {
    var scan := ScanLines(a, START, front);
    ScanConcat(a, START, front, [remark]);
    assert [remark][1..] == [] && "" + remark == remark;
    RemarkIsIgnored(a, scan, "", remark);
    SuiteLineMatches(a, "");
    TestLineMatches(a, "");
  }

  // The printer.

  /** A name as the inventory writes it. */
  datatype TestName = TestName(suite: string, test: string) {
    function Text(): string {
      suite + "." + test
    }

    predicate Plain(a: Alphabet) {
      PlainPart(a, suite) && PlainPart(a, test)
    }
  }

  /** Nonempty and made of word characters and slashes. */
  predicate PlainPart(a: Alphabet, part: string) {
    part != "" && forall k :: 0 <= k < |part| ==> a.word(part[k]) || part[k] == '/'
  }

  /** The position of the first dot; the length if there is none. */
  function FirstDot(name: string): (i: nat)
    ensures i <= |name| && (i < |name| ==> name[i] == '.') && forall k :: 0 <= k < i ==> name[k] != '.'
  {
    if name == "" || name[0] == '.' then 0 else 1 + FirstDot(name[1..])
  }

  /** name.split(".", 1), which fails to unpack when there is no dot. */
  function SplitName(name: string): Option<TestName> {
    var i := FirstDot(name);
    if i == |name| then None else Some(TestName(name[..i], name[i + 1..]))
  }

  /** A name is split at its first dot, whatever follows it, and cannot be split without one. */
  lemma SplitAtFirstDot(suite: string, rest: string)
    requires '.' !in suite
    ensures SplitName(suite + "." + rest) == Some(TestName(suite, rest))
    ensures SplitName(suite) == None
  {
    var text := suite + "." + rest;
    assert text[|suite|] == '.' && forall k :: 0 <= k < |suite| ==> text[k] == suite[k];
    assert FirstDot(text) == |suite|;
    assert text[..|suite|] == suite && text[|suite| + 1..] == rest;
  }

  lemma SplitInvertsText(a: Alphabet, name: TestName)
    requires a.Valid() && name.Plain(a)
    ensures SplitName(name.Text()) == Some(name)
  {
    var (text, i) := (name.Text(), FirstDot(name.Text()));
    assert !a.word('.');
    assert text[|name.suite|] == '.';
    assert forall k :: 0 <= k < |name.suite| ==> text[k] == name.suite[k] && text[k] != '.';
    assert text[..|name.suite|] == name.suite && text[|name.suite| + 1..] == name.test;
  }

  /** An insertion-ordered dictionary of lists. */
  type Suites = seq<(string, seq<string>)>

  /** suites.setdefault(suite, []).append(test) */
  function Append(suites: Suites, name: TestName): Suites {
    if suites == [] then [(name.suite, [name.test])]
    else if suites[0].0 == name.suite then [(name.suite, suites[0].1 + [name.test])] + suites[1..]
    else [suites[0]] + Append(suites[1..], name)
  }

  function Grouped(names: seq<TestName>): Suites {
    if names == [] then [] else Append(Grouped(names[..|names| - 1]), names[|names| - 1])
  }

  function TestLines(tests: seq<string>): seq<string> {
    if tests == [] then [] else ["  " + tests[0]] + TestLines(tests[1..])
  }

  function SuiteLines(suites: Suites): seq<string> {
    if suites == [] then []
    else [suites[0].0 + "."] + TestLines(suites[0].1) + SuiteLines(suites[1..])
  }

  function Texts(names: seq<TestName>): seq<string> {
    seq(|names|, i requires 0 <= i < |names| => names[i].Text())
  }

  function PrintedListing(names: seq<TestName>): string {
    Print(SuiteLines(Grouped(names)))
  }

  /** The dictionary lookup of the printer: the first entry with this suite. */
  function IndexOf(suites: Suites, suite: string): (i: nat)
    ensures i <= |suites| && (i < |suites| ==> suites[i].0 == suite)
  {
    if suites == [] || suites[0].0 == suite then 0 else 1 + IndexOf(suites[1..], suite)
  }

  lemma {:induction false} AppendAtIndex(suites: Suites, name: TestName)
    ensures var i := IndexOf(suites, name.suite);
            Append(suites, name) == if i < |suites| then suites[i := (name.suite, suites[i].1 + [name.test])]
                                    else suites + [(name.suite, [name.test])]
    decreases |suites|
  {
    if suites != [] && suites[0].0 != name.suite {
      AppendAtIndex(suites[1..], name);
      var (i, rest) := (IndexOf(suites[1..], name.suite), Append(suites[1..], name));
      if i < |suites| - 1 {
        assert [suites[0]] + rest == suites[i + 1 := rest[i]];
      } else {
        assert [suites[0]] + rest == suites + [rest[i]];
      }
    }
  }

  /** The names split, if all of them can be. */
  function SplitAll(names: seq<string>): Option<seq<TestName>> {
    if names == [] then Some([])
    else
      match (SplitAll(names[..|names| - 1]), SplitName(names[|names| - 1]))
      case (Some(front), Some(last)) => Some(front + [last])
      case _ => None
  }

  /** The printer. None stands for the exception raised by a name without a dot. */
  method ListingFor(names: seq<string>) returns (listing: Option<string>)
    ensures listing == match SplitAll(names)
                       case Some(parts) => Some(PrintedListing(parts))
                       case None => None
  {
    var suites: Suites := [];
    ghost var parts: seq<TestName> := [];
    for n := 0 to |names|
      invariant SplitAll(names[..n]) == Some(parts) && suites == Grouped(parts)
    {
      assert names[..n + 1][..n] == names[..n];
      var split := SplitName(names[n]);
      if split.None? {
        StaysNone(names, n + 1);
        return None;
      }
      var name := split.value;
      var i := IndexOf(suites, name.suite);
      AppendAtIndex(suites, name);
      assert (parts + [name])[..|parts|] == parts;
      if i < |suites| {
        suites := suites[i := (name.suite, suites[i].1 + [name.test])];
      } else {
        suites := suites + [(name.suite, [name.test])];
      }
      parts := parts + [name];
    }
    assert names[..|names|] == names;
    return Some(Print(SuiteLines(suites)));
  }

  lemma {:induction false} StaysNone(names: seq<string>, n: nat)
    requires n <= |names| && SplitAll(names[..n]).None?
    ensures SplitAll(names).None?
    decreases |names| - n
  {
    if n < |names| {
      assert names[..n + 1][..n] == names[..n];
      StaysNone(names, n + 1);
    } else {
      assert names[..n] == names;
    }
  }

  // What the scanner sees of the printer's lines.

  function NamesOf(suite: string, tests: seq<string>): multiset<string> {
    if tests == [] then multiset{} else multiset{suite + "." + tests[0]} + NamesOf(suite, tests[1..])
  }

  function Contents(suites: Suites): multiset<string> {
    if suites == [] then multiset{} else NamesOf(suites[0].0, suites[0].1) + Contents(suites[1..])
  }

  predicate PlainSuites(a: Alphabet, suites: Suites) {
    forall i :: 0 <= i < |suites| ==>
      PlainPart(a, suites[i].0) && forall j :: 0 <= j < |suites[i].1| ==> PlainPart(a, suites[i].1[j])
  }

  lemma {:induction false} NamesAppend(suite: string, tests: seq<string>, test: string)
    ensures NamesOf(suite, tests + [test]) == NamesOf(suite, tests) + multiset{suite + "." + test}
    decreases |tests|
  {
    if tests != [] {
      assert (tests + [test])[1..] == tests[1..] + [test];
      NamesAppend(suite, tests[1..], test);
    }
  }

  /** Grouping adds the name and nothing else. */
  lemma {:induction false} AppendAdds(suites: Suites, name: TestName)
    ensures Contents(Append(suites, name)) == Contents(suites) + multiset{name.Text()}
    decreases |suites|
  {
    if suites == [] {
      NamesAppend(name.suite, [], name.test);
      assert [] + [name.test] == [name.test] && Append(suites, name)[1..] == [];
      assert Contents(Append(suites, name)) == NamesOf(name.suite, [name.test]) + Contents([]);
    } else if suites[0].0 == name.suite {
      NamesAppend(name.suite, suites[0].1, name.test);
      var appended := Append(suites, name);
      assert appended[0] == (name.suite, suites[0].1 + [name.test]) && appended[1..] == suites[1..];
      assert Contents(appended) == NamesOf(name.suite, suites[0].1 + [name.test]) + Contents(suites[1..]);
    } else {
      AppendAdds(suites[1..], name);
      assert Append(suites, name)[1..] == Append(suites[1..], name);
    }
  }

  lemma {:induction false} AppendPlain(a: Alphabet, suites: Suites, name: TestName)
    requires PlainSuites(a, suites) && name.Plain(a)
    ensures PlainSuites(a, Append(suites, name))
    decreases |suites|
  {
    if suites != [] && suites[0].0 != name.suite {
      AppendPlain(a, suites[1..], name);
    }
  }

  predicate AllPlain(a: Alphabet, names: seq<TestName>) {
    forall i :: 0 <= i < |names| ==> names[i].Plain(a)
  }

  lemma TextsLast(names: seq<TestName>)
    requires names != []
    ensures Texts(names) == Texts(names[..|names| - 1]) + [names[|names| - 1].Text()]
  {}

  lemma {:induction false} GroupingConserves(names: seq<TestName>)
    ensures Contents(Grouped(names)) == multiset(Texts(names))
  {
    if names != [] {
      var front, last := names[..|names| - 1], names[|names| - 1];
      GroupingConserves(front);
      AppendAdds(Grouped(front), last);
      TextsLast(names);
      hide Append, Contents, Texts, TestName.Text;
    }
  }

  lemma {:induction false} GroupingPlain(a: Alphabet, names: seq<TestName>)
    requires AllPlain(a, names)
    ensures PlainSuites(a, Grouped(names))
  {
    if names != [] {
      var front, last := names[..|names| - 1], names[|names| - 1];
      GroupingPlain(a, front);
      AppendPlain(a, Grouped(front), last);
    }
  }

  lemma HeaderLine(a: Alphabet, suite: string)
    requires a.Valid() && PlainPart(a, suite)
    ensures FullMatch(a, SUITE_LINE, suite + ".") == Some(suite + ".")
  {
    var line := suite + ".";
    assert !a.word('.');
    RunIs(a, WordOrSlash, line, 0, |suite|);
    RunIs(a, Space, line, |line|, |line|);
    assert line[..|suite| + 1] == line;
    SuiteLineMatches(a, line);
  }

  lemma EntryLine(a: Alphabet, test: string)
    requires a.Valid() && PlainPart(a, test)
    ensures FullMatch(a, TEST_LINE, "  " + test) == Some(test)
    ensures FullMatch(a, SUITE_LINE, "  " + test) == None
  {
    var line := "  " + test;
    forall k | 2 <= k < |line| ensures WordOrSlash.Has(a, line[k]) {
      assert line[k] == test[k - 2];
    }
    assert !IsSpace(line[2]);
    RunIs(a, Space, line, 0, 2);
    RunIs(a, WordOrSlash, line, 2, |line|);
    RunIs(a, Space, line, |line|, |line|);
    assert line[2..|line|] == test;
    TestLineMatches(a, line);
    ShapesDisjoint(a, line);
  }

  lemma {:induction false} TestLinesCounted(a: Alphabet, suite: string, found: multiset<string>, tests: seq<string>)
    requires a.Valid() && suite != ""
    requires forall j :: 0 <= j < |tests| ==> PlainPart(a, tests[j])
    ensures ScanLines(a, Scan(suite + ".", found), TestLines(tests))
            == Scan(suite + ".", found + NamesOf(suite, tests))
    decreases |tests|
  {
    if tests != [] {
      EntryLine(a, tests[0]);
      var counted := found + multiset{suite + "." + tests[0]};
      assert ScanLine(a, Scan(suite + ".", found), "  " + tests[0]) == Scan(suite + ".", counted);
      assert TestLines(tests)[1..] == TestLines(tests[1..]);
      TestLinesCounted(a, suite, counted, tests[1..]);
    }
  }

  lemma {:induction false} SuiteLinesCounted(a: Alphabet, scan: Scan, suites: Suites)
    requires a.Valid() && PlainSuites(a, suites)
    ensures ScanLines(a, scan, SuiteLines(suites)).found == scan.found + Contents(suites)
    decreases |suites|
  {
    if suites != [] {
      var (suite, tests) := suites[0];
      var (header, entries, rest) := ([suite + "."], TestLines(tests), SuiteLines(suites[1..]));
      HeaderLine(a, suite);
      assert SuiteLines(suites) == header + entries + rest;
      ScanConcat(a, scan, header + entries, rest);
      ScanConcat(a, scan, header, entries);
      assert header[1..] == [];
      assert ScanLines(a, scan, header) == scan.(suite := suite + ".");
      TestLinesCounted(a, suite, scan.found, tests);
      var middle := ScanLines(a, scan, header + entries);
      SuiteLinesCounted(a, middle, suites[1..]);
    }
  }

  lemma PlainHasNoBoundary(a: Alphabet, part: string)
    requires a.Valid() && PlainPart(a, part)
    ensures NoBoundary(part) && NoBoundary(part + ".") && NoBoundary("  " + part)
  {
    forall k | 0 <= k < |part| ensures !IsBoundary(part[k]) {
      assert WordOrSlash.Has(a, part[k]);
    }
  }

  lemma {:induction false} TestLinesUnbroken(a: Alphabet, tests: seq<string>)
    requires a.Valid() && forall j :: 0 <= j < |tests| ==> PlainPart(a, tests[j])
    ensures Unbroken(TestLines(tests))
    decreases |tests|
  {
    if tests != [] {
      PlainHasNoBoundary(a, tests[0]);
      TestLinesUnbroken(a, tests[1..]);
    }
  }

  lemma {:induction false} SuiteLinesUnbroken(a: Alphabet, suites: Suites)
    requires a.Valid() && PlainSuites(a, suites)
    ensures Unbroken(SuiteLines(suites))
    decreases |suites|
  {
    if suites != [] {
      PlainHasNoBoundary(a, suites[0].0);
      TestLinesUnbroken(a, suites[0].1);
      SuiteLinesUnbroken(a, suites[1..]);
    }
  }

  /** The listing scanner inverts the printer, character by character: the printed listing of any names
      is scanned back as exactly those names, with their multiplicities, however they were grouped. */
  lemma ScannerInvertsPrinter(a: Alphabet, names: seq<TestName>)
    requires a.Valid() && AllPlain(a, names)
    ensures Found(a, PrintedListing(names)) == multiset(Texts(names))
  {
    GroupingConserves(names);
    GroupingPlain(a, names);
    var lines := SuiteLines(Grouped(names));
    SuiteLinesUnbroken(a, Grouped(names));
    SplitInvertsPrint(lines);
    SuiteLinesCounted(a, START, Grouped(names));
  }

  /** So a printed listing is accepted exactly when each expected name occurs once among its names. */
  lemma PrintedListingAcceptedIff(a: Alphabet, names: seq<TestName>, expected: seq<string>)
    requires a.Valid() && AllPlain(a, names)
    ensures (forall name :: name in expected ==> Found(a, PrintedListing(names))[name] == 1)
            <==> (forall name :: name in expected ==> multiset(Texts(names))[name] == 1)
  {
    ScannerInvertsPrinter(a, names);
  }

  /** The printer accepts what it is given as text: splitting the names gives back their parts. */
  lemma {:induction false} PrinterSplitsBack(a: Alphabet, names: seq<TestName>)
    requires a.Valid() && AllPlain(a, names)
    ensures SplitAll(Texts(names)) == Some(names)
  {
    if names != [] {
      var front, last := names[..|names| - 1], names[|names| - 1];
      PrinterSplitsBack(a, front);
      SplitInvertsText(a, last);
      hide SplitName, TestName.Text, TestName.Plain;
      var texts := Texts(names);
      assert texts[..|texts| - 1] == Texts(front) && texts[|texts| - 1] == last.Text();
      assert front + [last] == names;
    }
  }

  // What the printer prints.

  /** The suites in the order in which they first occur. */
  function SuitesOf(names: seq<TestName>): seq<string> {
    if names == [] then []
    else
      var (front, last) := (SuitesOf(names[..|names| - 1]), names[|names| - 1].suite);
      if last in front then front else front + [last]
  }

  /** The tests of one suite, in their own order. */
  function TestsOf(suite: string, names: seq<TestName>): seq<string> {
    if names == [] then []
    else
      var last := names[|names| - 1];
      TestsOf(suite, names[..|names| - 1]) + if last.suite == suite then [last.test] else []
  }

  predicate IsGrouping(suites: Suites, names: seq<TestName>) {
    && |suites| == |SuitesOf(names)|
    && forall i :: 0 <= i < |suites| ==>
         suites[i].0 == SuitesOf(names)[i] && suites[i].1 == TestsOf(suites[i].0, names)
  }

  lemma {:induction false} SuitesDiffer(names: seq<TestName>)
    ensures forall i, j :: 0 <= i < j < |SuitesOf(names)| ==> SuitesOf(names)[i] != SuitesOf(names)[j]
  {
    if names != [] {
      SuitesDiffer(names[..|names| - 1]);
    }
  }

  lemma {:induction false} NoTestsElsewhere(suite: string, names: seq<TestName>)
    requires suite !in SuitesOf(names)
    ensures TestsOf(suite, names) == []
  {
    if names != [] {
      NoTestsElsewhere(suite, names[..|names| - 1]);
    }
  }

  lemma IndexIsFirst(suites: Suites, suite: string)
    ensures IndexOf(suites, suite) == |suites| ==> forall i :: 0 <= i < |suites| ==> suites[i].0 != suite
  {
    if suites != [] && suites[0].0 != suite {
      IndexIsFirst(suites[1..], suite);
      assert forall i :: 0 < i < |suites| ==> suites[i] == suites[1..][i - 1];
    }
  }

  /** The dictionary holds each suite once, in order of first occurrence, with its tests in order. */
  lemma {:induction false} GroupedInOrder(names: seq<TestName>)
    ensures IsGrouping(Grouped(names), names)
  {
    if names != [] {
      var (front, last) := (names[..|names| - 1], names[|names| - 1]);
      GroupedInOrder(front);
      SuitesDiffer(front);
      AppendKeepsOrder(front, last);
      assert names == front + [last];
    }
  }

  lemma LastAdded(front: seq<TestName>, last: TestName, suite: string)
    ensures var names := front + [last];
            && SuitesOf(names) == (if last.suite in SuitesOf(front) then SuitesOf(front)
                                   else SuitesOf(front) + [last.suite])
            && TestsOf(suite, names) == TestsOf(suite, front) + if last.suite == suite then [last.test] else []
  {
    assert (front + [last])[..|front|] == front;
  }

  lemma AppendKeepsOrder(front: seq<TestName>, last: TestName)
    requires IsGrouping(Grouped(front), front)
    requires forall i, j :: 0 <= i < j < |SuitesOf(front)| ==> SuitesOf(front)[i] != SuitesOf(front)[j]
    ensures IsGrouping(Append(Grouped(front), last), front + [last])
  {
    var (suites, names) := (Grouped(front), front + [last]);
    var i := IndexOf(suites, last.suite);
    AppendAtIndex(suites, last);
    IndexIsFirst(suites, last.suite);
    LastAdded(front, last, last.suite);
    var after := Append(suites, last);
    hide Append, Grouped, IndexOf, SuitesOf, TestsOf;
    if i < |suites| {
      assert SuitesOf(front)[i] == last.suite;
    } else {
      assert last.suite !in SuitesOf(front);
      NoTestsElsewhere(last.suite, front);
    }
    forall k | 0 <= k < |after| ensures after[k].0 == SuitesOf(names)[k] && after[k].1 == TestsOf(after[k].0, names) {
      LastAdded(front, last, after[k].0);
    }
  }

  function Concat(texts: seq<string>): string {
    if texts == [] then "" else texts[0] + Concat(texts[1..])
  }

  function TestText(test: string): string {
    "  " + test + "\n"
  }

  function SuiteText(suite: string, tests: seq<string>): string {
    suite + ".\n" + Concat(seq(|tests|, i requires 0 <= i < |tests| => TestText(tests[i])))
  }

  lemma {:induction false} TestLinesText(tests: seq<string>)
    ensures Print(TestLines(tests)) == Concat(seq(|tests|, i requires 0 <= i < |tests| => TestText(tests[i])))
    decreases |tests|
  {
    if tests != [] {
      TestLinesText(tests[1..]);
      var texts := seq(|tests|, i requires 0 <= i < |tests| => TestText(tests[i]));
      var rest := tests[1..];
      assert texts[1..] == seq(|rest|, i requires 0 <= i < |rest| => TestText(rest[i]));
      assert TestLines(tests)[1..] == TestLines(rest);
    }
  }

  lemma {:induction false} PrintConcat(front: seq<string>, back: seq<string>)
    ensures Print(front + back) == Print(front) + Print(back)
    decreases |front|
  {
    if front == [] {
      assert front + back == back;
    } else {
      assert (front + back)[1..] == front[1..] + back;
      PrintConcat(front[1..], back);
      assert front[0] + "\n" + (Print(front[1..]) + Print(back)) == front[0] + "\n" + Print(front[1..]) + Print(back);
    }
  }

  lemma {:induction false} SuiteLinesText(suites: Suites)
    ensures Print(SuiteLines(suites))
            == Concat(seq(|suites|, i requires 0 <= i < |suites| => SuiteText(suites[i].0, suites[i].1)))
    decreases |suites|
  {
    if suites != [] {
      var (suite, tests, rest) := (suites[0].0, suites[0].1, suites[1..]);
      var texts := seq(|suites|, i requires 0 <= i < |suites| => SuiteText(suites[i].0, suites[i].1));
      SuiteLinesText(rest);
      TestLinesText(tests);
      assert texts[1..] == seq(|rest|, i requires 0 <= i < |rest| => SuiteText(rest[i].0, rest[i].1));
      PrintConcat([suite + "."] + TestLines(tests), SuiteLines(rest));
      PrintConcat([suite + "."], TestLines(tests));
      assert [suite + "."][1..] == [];
      assert suite + "." + "\n" == suite + ".\n";
    }
  }

  /** The printed listing, character by character: each suite in order of first occurrence, with a dot,
      and below it its tests in their own order, indented by two blanks; every line ended by a newline. */
  lemma ListingText(names: seq<TestName>)
    ensures var suites := SuitesOf(names);
            PrintedListing(names)
            == Concat(seq(|suites|, i requires 0 <= i < |suites| => SuiteText(suites[i], TestsOf(suites[i], names))))
  {
    GroupedInOrder(names);
    var (grouped, suites) := (Grouped(names), SuitesOf(names));
    SuiteLinesText(grouped);
    assert seq(|grouped|, i requires 0 <= i < |grouped| => SuiteText(grouped[i].0, grouped[i].1))
           == seq(|suites|, i requires 0 <= i < |suites| => SuiteText(suites[i], TestsOf(suites[i], names)));
  }
}
