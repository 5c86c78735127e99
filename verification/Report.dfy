/** Test results: the report scanner (tools/gcnport_tools/dolphin_tests.py) and the printer it inverts
    (tools/test_dolphin_tests.py). In the scanner's patterns `\s` also matches a newline, so the
    optional tail of a status line with a bare name takes in the whole following line. */
module Report {
  import opened Words
  import opened Regex
  import opened TextLines

  /** `\s*\]` and what follows it. */
  function Bracket(rest: Re): Re {
    Star(Space, One(Only(']'), rest))
  }

  /** `^\[\s*word\s*\]\s+` and what follows it. */
  function Prefix(word: string, rest: Re): Re {
    LineStart(One(Only('['), Star(Space, Literal(word, Bracket(Repeat(Space, rest))))))
  }

  /** `(?:\s.*)?$` */
  const TAIL: Re := Either(One(Space, Star(NotNewline, LineEnd(Done))), LineEnd(Done))

  /** `(\S+)` and the tail. */
  const NAME: Re := Open(Repeat(NonSpace, Close(TAIL)))

  /** ` tests?\.$` */
  const TESTS: Re := Literal(" test", Either(Literal("s.", LineEnd(Done)), Literal(".", LineEnd(Done))))

  /** `(\d+)` and the rest of the summary. */
  const COUNT: Re := Open(Repeat(Digit, Close(TESTS)))

  /** `\[\s*(?:FAILED|SKIPPED)\s*\]` */
  const FAILURE: Re :=
    One(Only('['), Star(Space, Either(Literal("FAILED", Bracket(Done)), Literal("SKIPPED", Bracket(Done)))))

  /** str() of a natural number. */
  function Decimal(n: nat): string {
    if n < 10 then [DigitChar(n)] else Decimal(n / 10) + [DigitChar(n % 10)]
  }

  function DigitChar(n: nat): (c: char)
    requires n < 10
    ensures '0' <= c <= '9'
  {
    '0' + n as char
  }

  datatype Verdict = Accepted | FailureReported | InventoryMismatch(status: string) | CountMismatch

  function Inventory(a: Alphabet, status: string, output: string): seq<string> {
    FindAll(a, Prefix(status, NAME), output, 0)
  }

  function ValidateResult(a: Alphabet, output: string, expected: seq<string>): Verdict {
    if Search(a, FAILURE, output, 0) then FailureReported
    else if multiset(Inventory(a, "RUN", output)) != multiset(expected) then InventoryMismatch("RUN")
    else if multiset(Inventory(a, "OK", output)) != multiset(expected) then InventoryMismatch("OK")
    else if FindAll(a, Prefix("PASSED", COUNT), output, 0) != [Decimal(|expected|)] then CountMismatch
    else Accepted
  }

  // Reports as lines.

  datatype Line =
    | Status(left: string, word: string, right: string, gap: string, name: string, tail: string)
    | Other(text: string)
  {
    function Text(): string {
      match this
      case Status(left, word, right, gap, name, tail) =>
        "[" + left + word + right + "]" + gap + name + tail
      case Other(text) => text
    }

    predicate WellFormed() {
      match this
      case Status(left, word, right, gap, name, tail) =>
        && Blank(left) && Blank(right) && Blank(gap) && gap != ""
        && StatusWord(word)
        && Solid(name)
        && OneLine(tail) && (tail != "" ==> IsSpace(tail[0]))
      case Other(text) => OneLine(text) && (text != "" && text[0] == '[' ==> Stray(text))
    }
  }

  function PastBlanks(text: string, i: nat): (j: nat)
    requires i <= |text|
    ensures i <= j <= |text| && forall p :: i <= p < j ==> IsSpace(text[p])
    ensures j < |text| ==> !IsSpace(text[j])
    decreases |text| - i
  {
    if i < |text| && IsSpace(text[i]) then PastBlanks(text, i + 1) else i
  }

  function PastWord(text: string, i: nat): (j: nat)
    requires i <= |text|
    ensures i <= j <= |text| && forall p :: i <= p < j ==> !IsSpace(text[p]) && text[p] != ']'
    ensures j < |text| ==> IsSpace(text[j]) || text[j] == ']'
    decreases |text| - i
  {
    if i < |text| && !IsSpace(text[i]) && text[i] != ']' then PastWord(text, i + 1) else i
  }

  /** Begins with a bracket, but inside it stands no word or more than one. */
  predicate Stray(text: string)
    requires text != ""
  {
    var w := PastBlanks(text, 1);
    var r := PastWord(text, w);
    var v := PastBlanks(text, r);
    v < |text| && (w == r || text[v] != ']')
  }

  predicate OneLine(text: string) {
    forall k :: 0 <= k < |text| ==> text[k] != '\n'
  }

  predicate Blank(text: string) {
    forall k :: 0 <= k < |text| ==> IsSpace(text[k]) && text[k] != '\n'
  }

  predicate Solid(text: string) {
    text != "" && forall k :: 0 <= k < |text| ==> !IsSpace(text[k])
  }

  predicate StatusWord(text: string) {
    Solid(text) && forall k :: 0 <= k < |text| ==> text[k] != ']'
  }

  predicate AllWellFormed(lines: seq<Line>) {
    forall i :: 0 <= i < |lines| ==> lines[i].WellFormed()
  }

  function Texts(lines: seq<Line>): seq<string> {
    if lines == [] then [] else [lines[0].Text()] + Texts(lines[1..])
  }

  /** The names a scan for one status word captures: a bare name costs the line after it. */
  function Captured(word: string, lines: seq<Line>): seq<string>
    decreases |lines|
  {
    if lines == [] then []
    else if !lines[0].Status? || lines[0].word != word then Captured(word, lines[1..])
    else if lines[0].tail == "" && |lines| > 1 then [lines[0].name] + Captured(word, lines[2..])
    else [lines[0].name] + Captured(word, lines[1..])
  }

  predicate IsSummary(a: Alphabet, line: Line) {
    && line.Status? && line.word == "PASSED"
    && (forall k :: 0 <= k < |line.name| ==> a.digit(line.name[k]))
    && (line.tail == " tests." || line.tail == " test.")
  }

  /** The counts of the passing summaries. */
  function Summaries(a: Alphabet, lines: seq<Line>): seq<string> {
    if lines == [] then []
    else (if IsSummary(a, lines[0]) then [lines[0].name] else []) + Summaries(a, lines[1..])
  }

  predicate IsFailure(line: Line) {
    line.Status? && (line.word == "FAILED" || line.word == "SKIPPED")
  }

  predicate Fails(lines: seq<Line>) {
    exists i :: 0 <= i < |lines| && IsFailure(lines[i])
  }

  // Where the parts of a status line stand, as positions in the text.

  /** `[` at i, word from w, blanks from r, `]` at b, blanks, name from n, tail from t, newline at e. */
  datatype Layout = Layout(i: nat, w: nat, r: nat, b: nat, n: nat, t: nat, e: nat) {
    predicate InOrder(s: string) {
      i < w < r <= b && b + 1 < n < t <= e < |s|
    }

    predicate FrontFits(s: string)
      requires InOrder(s)
    {
      && s[i] == '[' && s[b] == ']'
      && (forall p :: i < p < w ==> IsSpace(s[p]))
      && (forall p :: w <= p < r ==> !IsSpace(s[p]) && s[p] != ']')
      && (forall p :: r <= p < b ==> IsSpace(s[p]))
    }

    predicate BackFits(s: string)
      requires InOrder(s)
    {
      && IsSpace(s[t]) && s[e] == '\n'
      && (forall p :: b < p < n ==> IsSpace(s[p]))
      && (forall p :: n <= p < t ==> !IsSpace(s[p]))
      && (forall p :: t <= p < e ==> s[p] != '\n')
    }

    predicate Fits(s: string) {
      InOrder(s) && FrontFits(s) && BackFits(s)
    }
  }

  function LayoutOf(i: nat, line: Line): Layout
    requires line.Status?
  {
    var w := i + 1 + |line.left|;
    var r := w + |line.word|;
    var b := r + |line.right|;
    var n := b + 1 + |line.gap|;
    var t := n + |line.name|;
    Layout(i, w, r, b, n, t, t + |line.tail|)
  }

  /** A piece of text that stands at i, as a slice. */
  lemma Slice(s: string, i: nat, x: string)
    requires StandsAt(s, i, x)
    ensures s[i..i + |x|] == x
  {}

  /** A concatenation stands where its parts stand. */
  lemma SplitSlice(s: string, i: nat, x: string, y: string)
    requires i + |x + y| <= |s| && s[i..i + |x + y|] == x + y
    ensures s[i..i + |x|] == x && s[i + |x|..i + |x + y|] == y
  {
    var xy := s[i..i + |x + y|];
    assert xy[..|x|] == s[i..i + |x|] && xy[|x|..] == s[i + |x|..i + |x + y|];
  }

  lemma PartsOf(s: string, i: nat, line: Line)
    requires line.Status? && i + |line.Text()| <= |s| && s[i..i + |line.Text()|] == line.Text()
    ensures var l := LayoutOf(i, line);
            && l.e == i + |line.Text()|
            && s[i..i + 1] == "[" && s[i + 1..l.w] == line.left && s[l.w..l.r] == line.word
            && s[l.r..l.b] == line.right && s[l.b..l.b + 1] == "]" && s[l.b + 1..l.n] == line.gap
            && s[l.n..l.t] == line.name && s[l.t..l.e] == line.tail
  {
    var Status(left, word, right, gap, name, tail) := line;
    SplitSlice(s, i, "[" + left + word + right + "]" + gap + name, tail);
    SplitSlice(s, i, "[" + left + word + right + "]" + gap, name);
    SplitSlice(s, i, "[" + left + word + right + "]", gap);
    SplitSlice(s, i, "[" + left + word + right, "]");
    SplitSlice(s, i, "[" + left + word, right);
    SplitSlice(s, i, "[" + left, word);
    SplitSlice(s, i, "[", left);
  }

  /** Facts about a piece of text, at the place where it stands. */
  lemma PieceFacts(s: string, from: nat, to: nat, x: string)
    requires from <= to <= |s| && s[from..to] == x
    ensures Blank(x) ==> forall p :: from <= p < to ==> IsSpace(s[p])
    ensures StatusWord(x) ==> forall p :: from <= p < to ==> s[p] != ']'
    ensures Solid(x) ==> forall p :: from <= p < to ==> !IsSpace(s[p])
    ensures OneLine(x) ==> forall p :: from <= p < to ==> s[p] != '\n'
  {
    hide IsSpace;
    forall p | from <= p < to ensures s[p] == x[p - from] {}
  }

  lemma FrontFitsAt(s: string, l: Layout, left: string, word: string, right: string)
    requires l.InOrder(s) && Blank(left) && StatusWord(word) && Blank(right)
    requires s[l.i..l.i + 1] == "[" && s[l.i + 1..l.w] == left && s[l.w..l.r] == word
    requires s[l.r..l.b] == right && s[l.b..l.b + 1] == "]"
    ensures l.FrontFits(s)
  {
    assert Solid(word);
    hide IsSpace, Blank, StatusWord, Solid;
    PieceFacts(s, l.i + 1, l.w, left);
    PieceFacts(s, l.w, l.r, word);
    PieceFacts(s, l.r, l.b, right);
    assert s[l.i] == s[l.i..l.i + 1][0] && s[l.b] == s[l.b..l.b + 1][0];
  }

  lemma BackFitsAt(s: string, l: Layout, gap: string, name: string, tail: string)
    requires l.InOrder(s) && Blank(gap) && Solid(name) && OneLine(tail) && s[l.e] == '\n'
    requires tail != "" ==> IsSpace(tail[0])
    requires s[l.b + 1..l.n] == gap && s[l.n..l.t] == name && s[l.t..l.e] == tail
    ensures l.BackFits(s)
  {
    assert IsSpace('\n');
    hide IsSpace, Blank, Solid, OneLine;
    PieceFacts(s, l.b + 1, l.n, gap);
    PieceFacts(s, l.n, l.t, name);
    PieceFacts(s, l.t, l.e, tail);
    assert tail != "" ==> s[l.t] == s[l.t..l.e][0];
  }

  lemma StatusFits(s: string, i: nat, line: Line)
    requires line.Status? && line.WellFormed()
    requires i + |line.Text()| < |s| && s[i..i + |line.Text()|] == line.Text()
    requires s[i + |line.Text()|] == '\n'
    ensures LayoutOf(i, line).Fits(s)
  {
    var l := LayoutOf(i, line);
    PartsOf(s, i, line);
    assert l.InOrder(s);
    hide IsSpace, Blank, StatusWord, Solid, OneLine;
    FrontFitsAt(s, l, line.left, line.word, line.right);
    BackFitsAt(s, l, line.gap, line.name, line.tail);
  }

  /** The same word stands at w, up to r; another word stands there only if it is shorter. */
  lemma WordStands(s: string, l: Layout, word: string)
    requires l.Fits(s) && StatusWord(word) && StandsAt(s, l.w, word)
    ensures s[l.w..l.r] == word || (|word| < l.r - l.w && l.w + |word| < l.r)
  {
    hide IsSpace;
    assert IsSpace(s[l.r]) || s[l.r] == ']';
    forall k | l.w <= k < l.w + |word| ensures !IsSpace(s[k]) && s[k] != ']' {
      assert s[l.w + (k - l.w)] == word[k - l.w];
    }
    Slice(s, l.w, word);
  }

  /** The word of a status line, tried against a given word: only the same word gets past the bracket. */
  lemma WordThenBracket(a: Alphabet, s: string, l: Layout, word: string, rest: Re, g: Group)
    requires l.Fits(s) && StatusWord(word) && g.start <= l.w
    ensures Try(a, Literal(word, Bracket(rest)), s, l.w, g)
            == if s[l.w..l.r] == word then Try(a, rest, s, l.b + 1, g) else None
  {
    hide IsSpace;
    var bracket := One(Only(']'), rest);
    LiteralMatches(a, word, Bracket(rest), s, l.w, g);
    if s[l.w..l.r] == word {
      forall k | 0 <= k < |word| ensures s[l.w + k] == word[k] {
        assert s[l.w..l.r][k] == s[l.w + k];
      }
      BracketFound(a, s, l, rest, g);
    } else if StandsAt(s, l.w, word) {
      WordStands(s, l, word);
      var q := l.w + |word|;
      RunIs(a, Space, s, q, q);
      StarTakesAll(a, Space, bracket, s, q, g);
    }
  }

  lemma BracketFound(a: Alphabet, s: string, l: Layout, rest: Re, g: Group)
    requires l.Fits(s) && g.start <= l.r
    ensures Try(a, Bracket(rest), s, l.r, g) == Try(a, rest, s, l.b + 1, g)
  {
    var bracket := One(Only(']'), rest);
    assert !IsSpace(']');
    hide IsSpace;
    RunIs(a, Space, s, l.r, l.b);
    forall p | l.r <= p < l.b ensures Try(a, bracket, s, p, g).None? {
      assert IsSpace(s[p]);
    }
    StarTakesAll(a, Space, bracket, s, l.r, g);
  }

  /** A pattern that cannot begin with a space. */
  ghost predicate Unspaced(a: Alphabet, rest: Re, s: string) {
    forall p, g: Group :: g.start <= p < |s| && IsSpace(s[p]) ==> Try(a, rest, s, p, g).None?
  }

  lemma LiteralUnspaced(a: Alphabet, word: string, rest: Re, s: string)
    requires StatusWord(word)
    ensures Unspaced(a, Literal(word, rest), s)
  {
    hide IsSpace;
    forall p, g: Group | g.start <= p < |s| && IsSpace(s[p]) ensures Try(a, Literal(word, rest), s, p, g).None? {
      LiteralMatches(a, word, rest, s, p, g);
      assert !IsSpace(word[0]) && s[p + 0] == s[p];
    }
  }

  /** A run of spaces before a pattern that cannot begin with one. */
  lemma SpacesPassed(a: Alphabet, rest: Re, s: string, i: nat, j: nat, g: Group)
    requires g.start <= i <= j < |s| && Unspaced(a, rest, s)
    requires (forall p :: i <= p < j ==> IsSpace(s[p])) && !IsSpace(s[j])
    ensures Try(a, Star(Space, rest), s, i, g) == Try(a, rest, s, j, g)
  {
    hide IsSpace;
    RunIs(a, Space, s, i, j);
    StarTakesAll(a, Space, rest, s, i, g);
  }

  /** The prefix of a pattern at a line: it leads to the name exactly when the word is the line's. */
  lemma PrefixMatches(a: Alphabet, s: string, l: Layout, word: string, rest: Re)
    requires l.Fits(s) && StatusWord(word) && AtLineStart(s, l.i) && Unspaced(a, rest, s)
    ensures MatchAt(a, Prefix(word, rest), s, l.i)
            == if s[l.w..l.r] == word then Try(a, rest, s, l.n, Group(l.i, "")) else None
  {
    hide IsSpace, Unspaced;
    var g := Group(l.i, "");
    var after := Repeat(Space, rest);
    var literal := Literal(word, Bracket(after));
    assert MatchAt(a, Prefix(word, rest), s, l.i) == Try(a, One(Only('['), Star(Space, literal)), s, l.i, g);
    assert MatchAt(a, Prefix(word, rest), s, l.i) == Try(a, Star(Space, literal), s, l.i + 1, g);
    LiteralUnspaced(a, word, Bracket(after), s);
    SpacesPassed(a, literal, s, l.i + 1, l.w, g);
    WordThenBracket(a, s, l, word, after, g);
    assert Try(a, after, s, l.b + 1, g) == Try(a, Star(Space, rest), s, l.b + 2, g);
    SpacesPassed(a, rest, s, l.b + 2, l.n, g);
  }

  // The name and its tail.

  lemma NameUnspaced(a: Alphabet, s: string)
    ensures Unspaced(a, NAME, s)
  {
    hide IsSpace;
    forall p, g: Group | g.start <= p < |s| && IsSpace(s[p]) ensures Try(a, NAME, s, p, g).None? {
      assert Try(a, NAME, s, p, g) == Try(a, Repeat(NonSpace, Close(TAIL)), s, p, Group(p, g.text));
    }
  }

  /** From a space on, the tail takes everything up to the end of the line that the space leads into. */
  lemma TailTakesLine(a: Alphabet, s: string, t: nat, g: Group)
    requires g.start <= t < |s| && IsSpace(s[t])
    ensures Try(a, TAIL, s, t, g) == Some(Match(RunEnd(a, NotNewline, s, t + 1), g.text))
  {
    hide IsSpace;
    var rest := Star(NotNewline, LineEnd(Done));
    var j := RunEnd(a, NotNewline, s, t + 1);
    assert Try(a, LineEnd(Done), s, j, g) == Try(a, Done, s, j, g);
    StarIsGreedy(a, NotNewline, LineEnd(Done), s, t + 1, g);
    assert Try(a, One(Space, rest), s, t, g) == Try(a, rest, s, t + 1, g);
  }

  lemma NameMatches(a: Alphabet, s: string, l: Layout, g: Group)
    requires l.Fits(s) && g.start <= l.n
    ensures Try(a, NAME, s, l.n, g) == Some(Match(RunEnd(a, NotNewline, s, l.t + 1), s[l.n..l.t]))
  {
    NameMatchesAt(a, s, l.n, l.t, g);
  }

  lemma NameMatchesAt(a: Alphabet, s: string, n: nat, t: nat, g: Group)
    requires g.start <= n < t < |s| && IsSpace(s[t]) && forall p :: n <= p < t ==> !IsSpace(s[p])
    ensures Try(a, NAME, s, n, g) == Some(Match(RunEnd(a, NotNewline, s, t + 1), s[n..t]))
  {
    hide IsSpace;
    var (h, closed) := (Group(n, g.text), Group(n, s[n..t]));
    RunIs(a, NonSpace, s, n + 1, t);
    TailTakesLine(a, s, t, closed);
    hide RunEnd, TAIL;
    assert Try(a, Close(TAIL), s, t, h) == Try(a, TAIL, s, t, closed);
    StarIsGreedy(a, NonSpace, Close(TAIL), s, n + 1, h);
    assert Try(a, Repeat(NonSpace, Close(TAIL)), s, n, h) == Try(a, Close(TAIL), s, t, h);
    assert Try(a, NAME, s, n, g) == Try(a, Repeat(NonSpace, Close(TAIL)), s, n, h);
  }

  /** What one scan sees at a status line: nothing under another word; under its own word the name, and
      a match that ends with the line after the space that follows the name. */
  lemma StatusMatches(a: Alphabet, s: string, l: Layout, word: string)
    requires l.Fits(s) && StatusWord(word) && AtLineStart(s, l.i)
    ensures MatchAt(a, Prefix(word, NAME), s, l.i)
            == if s[l.w..l.r] == word then Some(Match(RunEnd(a, NotNewline, s, l.t + 1), s[l.n..l.t]))
               else None
  {
    hide IsSpace;
    NameUnspaced(a, s);
    PrefixMatches(a, s, l, word, NAME);
    NameMatches(a, s, l, Group(l.i, ""));
  }

  // The passing count.

  lemma CountUnspaced(a: Alphabet, s: string)
    requires a.Valid()
    ensures Unspaced(a, COUNT, s)
  {
    assert forall c :: a.digit(c) ==> !IsSpace(c);
    hide IsSpace;
    forall p, g: Group | g.start <= p < |s| && IsSpace(s[p]) ensures Try(a, COUNT, s, p, g).None? {
      assert Try(a, COUNT, s, p, g) == Try(a, Repeat(Digit, Close(TESTS)), s, p, Group(p, g.text));
    }
  }

  /** A one-line text ends its line where it stands exactly when it is the rest of the line. */
  lemma RestOfLine(s: string, t: nat, e: nat, x: string)
    requires t <= e < |s| && s[e] == '\n' && (forall p :: t <= p < e ==> s[p] != '\n') && OneLine(x)
    ensures StandsAt(s, t, x) && AtLineEnd(s, t + |x|) <==> s[t..e] == x
  {
    if StandsAt(s, t, x) && AtLineEnd(s, t + |x|) {
      assert forall k :: t <= k < t + |x| ==> s[k] == x[k - t];
      Slice(s, t, x);
    }
    if s[t..e] == x {
      forall k | 0 <= k < |x| ensures s[t + k] == x[k] {
        assert s[t..e][k] == s[t + k];
      }
    }
  }

  lemma TestsMatches(a: Alphabet, s: string, t: nat, e: nat, g: Group)
    requires g.start <= t <= e < |s| && s[e] == '\n' && forall p :: t <= p < e ==> s[p] != '\n'
    ensures Try(a, TESTS, s, t, g)
            == if s[t..e] == " tests." || s[t..e] == " test." then Some(Match(e, g.text)) else None
  {
    var (plural, single) := (Literal("s.", LineEnd(Done)), Literal(".", LineEnd(Done)));
    LiteralMatches(a, " test", Either(plural, single), s, t, g);
    RestOfLine(s, t, e, " tests.");
    RestOfLine(s, t, e, " test.");
    StandsAtTwo(s, t, " test", "s.");
    StandsAtTwo(s, t, " test", ".");
    assert " test" + "s." == " tests." && " test" + "." == " test.";
    if t + 5 <= |s| {
      LiteralMatches(a, "s.", LineEnd(Done), s, t + 5, g);
      LiteralMatches(a, ".", LineEnd(Done), s, t + 5, g);
      if StandsAt(s, t, " tests.") {
        LineEndMatches(a, s, t + 7, g);
        assert s[t + 5] == 's';
      }
      if StandsAt(s, t, " test.") {
        LineEndMatches(a, s, t + 6, g);
        assert s[t + 5] == '.';
      }
    }
  }

  lemma LineEndMatches(a: Alphabet, s: string, i: nat, g: Group)
    requires g.start <= i <= |s|
    ensures Try(a, LineEnd(Done), s, i, g) == if AtLineEnd(s, i) then Some(Match(i, g.text)) else None
  {}

  lemma StandsAtTwo(s: string, i: nat, x: string, y: string)
    ensures StandsAt(s, i, x + y) <==> StandsAt(s, i, x) && StandsAt(s, i + |x|, y)
  {
    if StandsAt(s, i, x + y) {
      forall k | 0 <= k < |x| ensures s[i + k] == x[k] {
        assert (x + y)[k] == x[k];
      }
      forall k | 0 <= k < |y| ensures s[i + |x| + k] == y[k] {
        assert (x + y)[|x| + k] == y[k] && s[i + (|x| + k)] == (x + y)[|x| + k];
      }
    }
    if StandsAt(s, i, x) && StandsAt(s, i + |x|, y) {
      forall k | 0 <= k < |x + y| ensures s[i + k] == (x + y)[k] {
        if k >= |x| {
          assert s[i + |x| + (k - |x|)] == y[k - |x|];
        }
      }
    }
  }

  /** The digits of a count are taken whole: a summary cannot continue at a solid character. */
  lemma DigitsTaken(a: Alphabet, s: string, n: nat, t: nat, g: Group)
    requires g.start <= n < t < |s| && IsSpace(s[t]) && a.Valid()
    requires forall p :: n <= p < t ==> !IsSpace(s[p])
    ensures var d := RunEnd(a, Digit, s, n);
            && d <= t
            && Try(a, COUNT, s, n, g)
               == if d == t then Try(a, TESTS, s, t, Group(n, s[n..t])) else None
  {
    assert forall c :: a.digit(c) ==> !IsSpace(c);
    hide IsSpace;
    var (h, d) := (Group(n, g.text), RunEnd(a, Digit, s, n));
    assert Try(a, COUNT, s, n, g) == Try(a, Repeat(Digit, Close(TESTS)), s, n, h);
    assert d <= t;
    if d > n {
      RunIs(a, Digit, s, n + 1, d);
      forall p | n < p < t ensures Try(a, Close(TESTS), s, p, h).None? {
        NoTestsAt(a, s, p, h);
      }
      StarTakesAll(a, Digit, Close(TESTS), s, n + 1, h);
      assert Try(a, Repeat(Digit, Close(TESTS)), s, n, h) == Try(a, Close(TESTS), s, d, h);
    }
  }

  predicate AllDigits(a: Alphabet, text: string) {
    forall k :: 0 <= k < |text| ==> a.digit(text[k])
  }

  lemma CountMatches(a: Alphabet, s: string, l: Layout, g: Group)
    requires a.Valid() && l.Fits(s) && g.start <= l.n
    ensures Try(a, COUNT, s, l.n, g)
            == if AllDigits(a, s[l.n..l.t]) && (s[l.t..l.e] == " tests." || s[l.t..l.e] == " test.")
               then Some(Match(l.e, s[l.n..l.t])) else None
  {
    DigitsTaken(a, s, l.n, l.t, g);
    TestsMatches(a, s, l.t, l.e, Group(l.n, s[l.n..l.t]));
    DigitRun(a, s, l.n, l.t);
  }

  lemma DigitRun(a: Alphabet, s: string, n: nat, t: nat)
    requires n <= t <= |s| && RunEnd(a, Digit, s, n) <= t
    ensures RunEnd(a, Digit, s, n) == t <==> AllDigits(a, s[n..t])
  {
    var d := RunEnd(a, Digit, s, n);
    if d < t {
      assert s[n..t][d - n] == s[d];
    }
  }

  lemma NoTestsAt(a: Alphabet, s: string, p: nat, h: Group)
    requires h.start <= p < |s| && !IsSpace(s[p])
    ensures Try(a, Close(TESTS), s, p, h).None?
  {
    LiteralMatches(a, " test", Either(Literal("s.", LineEnd(Done)), Literal(".", LineEnd(Done))), s, p,
                   Group(h.start, s[h.start..p]));
    assert " test"[0] == ' ' && s[p + 0] == s[p];
  }

  lemma SummaryMatches(a: Alphabet, s: string, l: Layout)
    requires a.Valid() && l.Fits(s) && AtLineStart(s, l.i)
    ensures MatchAt(a, Prefix("PASSED", COUNT), s, l.i)
            == if s[l.w..l.r] == "PASSED" && AllDigits(a, s[l.n..l.t])
                  && (s[l.t..l.e] == " tests." || s[l.t..l.e] == " test.")
               then Some(Match(l.e, s[l.n..l.t])) else None
  {
    CountUnspaced(a, s);
    PrefixMatches(a, s, l, "PASSED", COUNT);
    CountMatches(a, s, l, Group(l.i, ""));
  }

  // Failures.

  lemma FailureMatches(a: Alphabet, s: string, l: Layout)
    requires l.Fits(s)
    ensures MatchAt(a, FAILURE, s, l.i).Some? <==> s[l.w..l.r] == "FAILED" || s[l.w..l.r] == "SKIPPED"
  {
    hide IsSpace;
    var g := Group(l.i, "");
    var (failed, skipped) := (Literal("FAILED", Bracket(Done)), Literal("SKIPPED", Bracket(Done)));
    StatusWords();
    LiteralUnspaced(a, "FAILED", Bracket(Done), s);
    LiteralUnspaced(a, "SKIPPED", Bracket(Done), s);
    assert Unspaced(a, Either(failed, skipped), s);
    SpacesPassed(a, Either(failed, skipped), s, l.i + 1, l.w, g);
    WordThenBracket(a, s, l, "FAILED", Done, g);
    WordThenBracket(a, s, l, "SKIPPED", Done, g);
    assert MatchAt(a, FAILURE, s, l.i) == Try(a, Star(Space, Either(failed, skipped)), s, l.i + 1, g);
  }

  lemma StatusWords()
    ensures StatusWord("RUN") && StatusWord("OK") && StatusWord("PASSED")
    ensures StatusWord("FAILED") && StatusWord("SKIPPED")
  {}

  // Whole reports.

  /** The line that stands at position i. */
  predicate LineStands(s: string, i: nat, line: Line) {
    var e := i + |line.Text()|;
    e < |s| && s[i..e] == line.Text() && s[e] == '\n' && line.WellFormed()
  }

  predicate ReportAt(s: string, i: nat, lines: seq<Line>)
    decreases |lines|
  {
    if lines == [] then i == |s|
    else LineStands(s, i, lines[0]) && ReportAt(s, i + |lines[0].Text()| + 1, lines[1..])
  }

  lemma {:induction false} ReportStands(s: string, i: nat, lines: seq<Line>)
    requires LinesAt(s, i, Texts(lines)) && AllWellFormed(lines)
    ensures ReportAt(s, i, lines)
    decreases |lines|
  {
    if lines != [] {
      Slice(s, i, lines[0].Text());
      assert Texts(lines)[1..] == Texts(lines[1..]);
      ReportStands(s, i + |lines[0].Text()| + 1, lines[1..]);
    }
  }

  /** A line's text contains no newline. */
  lemma TextIsOneLine(line: Line)
    requires line.WellFormed()
    ensures OneLine(line.Text())
  {
    assert IsSpace('\n');
    hide IsSpace;
  }

  lemma NoNewlineInside(s: string, i: nat, line: Line)
    requires LineStands(s, i, line)
    ensures forall p :: i <= p < i + |line.Text()| ==> s[p] != '\n'
  {
    TextIsOneLine(line);
    PieceFacts(s, i, i + |line.Text()|, line.Text());
  }

  /** Behind the start of a line an anchored pattern does not match. */
  lemma AnchoredSkips(a: Alphabet, re: Re, s: string, i: nat, from: nat, line: Line)
    requires LineStands(s, i, line) && i < from <= i + |line.Text()|
    ensures FindAll(a, LineStart(re), s, from) == FindAll(a, LineStart(re), s, i + |line.Text()| + 1)
  {
    NoNewlineInside(s, i, line);
    var e := i + |line.Text()|;
    forall p | from <= p < e + 1 ensures MatchAt(a, LineStart(re), s, p).None? {
      assert s[p - 1] != '\n';
    }
    FindAllSkips(a, LineStart(re), s, from, e + 1);
  }

  /** A line whose start does not match is passed over. */
  lemma LinePassed(a: Alphabet, re: Re, s: string, i: nat, line: Line)
    requires LineStands(s, i, line) && MatchAt(a, LineStart(re), s, i).None?
    ensures FindAll(a, LineStart(re), s, i) == FindAll(a, LineStart(re), s, i + |line.Text()| + 1)
  {
    if line.Text() != "" {
      AnchoredSkips(a, re, s, i, i + 1, line);
    }
  }

  /** A word stands at p, and behind it, with at most blanks between, a closing bracket. */
  predicate ClosesAt(s: string, p: nat, r: nat, b: nat) {
    && p < r <= b < |s| && s[b] == ']'
    && (forall q :: p <= q < r ==> !IsSpace(s[q]) && s[q] != ']')
    && (forall q :: r <= q < b ==> IsSpace(s[q]))
  }

  ghost predicate WordCloses(s: string, p: nat) {
    exists r, b :: ClosesAt(s, p, r, b)
  }

  /** A pattern for the inside of a bracket: it matches nothing but a word and the closing bracket. */
  ghost predicate OnlyWords(a: Alphabet, inner: Re, s: string) {
    && Unspaced(a, inner, s)
    && forall p: nat, g: Group :: g.start <= p <= |s| && !WordCloses(s, p) ==> Try(a, inner, s, p, g).None?
  }

  lemma LiteralOnlyWords(a: Alphabet, word: string, rest: Re, s: string)
    requires StatusWord(word)
    ensures OnlyWords(a, Literal(word, Bracket(rest)), s)
  {
    LiteralUnspaced(a, word, Bracket(rest), s);
    forall p: nat, g: Group | g.start <= p <= |s| && Try(a, Literal(word, Bracket(rest)), s, p, g).Some?
      ensures WordCloses(s, p)
    {
      LiteralCloses(a, word, rest, s, p, g);
    }
  }

  lemma LiteralCloses(a: Alphabet, word: string, rest: Re, s: string, p: nat, g: Group)
    requires StatusWord(word) && g.start <= p <= |s|
    requires Try(a, Literal(word, Bracket(rest)), s, p, g).Some?
    ensures WordCloses(s, p)
  {
    assert !IsSpace(']');
    hide IsSpace;
    LiteralMatches(a, word, Bracket(rest), s, p, g);
    var (r, closing) := (p + |word|, One(Only(']'), rest));
    var b := RunEnd(a, Space, s, r);
    forall q | r <= q < b ensures Try(a, closing, s, q, g).None? {
      assert Space.Has(a, s[q]);
    }
    StarTakesAll(a, Space, closing, s, r, g);
    forall q | p <= q < r ensures !IsSpace(s[q]) && s[q] != ']' {
      assert s[p + (q - p)] == word[q - p];
    }
    assert ClosesAt(s, p, r, b);
  }

  lemma EitherOnlyWords(a: Alphabet, first: Re, second: Re, s: string)
    requires OnlyWords(a, first, s) && OnlyWords(a, second, s)
    ensures OnlyWords(a, Either(first, second), s)
  {
    hide IsSpace, WordCloses;
  }

  lemma Shifted(s: string, i: nat, text: string, q: nat)
    requires i + |text| <= |s| && s[i..i + |text|] == text && i <= q < i + |text|
    ensures s[q] == text[q - i]
  {
    assert s[i..i + |text|][q - i] == s[i + (q - i)];
  }

  lemma ShiftedRuns(s: string, i: nat, text: string, from: nat, to: nat)
    requires i + |text| <= |s| && s[i..i + |text|] == text && from <= to <= |text|
    ensures (forall p :: from <= p < to ==> IsSpace(text[p])) ==> forall q :: i + from <= q < i + to ==> IsSpace(s[q])
    ensures (forall p :: from <= p < to ==> !IsSpace(text[p]) && text[p] != ']') ==>
              forall q :: i + from <= q < i + to ==> !IsSpace(s[q]) && s[q] != ']'
  {
    hide IsSpace;
    forall q | i + from <= q < i + to ensures s[q] == text[q - i] {
      Shifted(s, i, text, q);
    }
  }

  lemma StrayParts(text: string) returns (w: nat, r: nat, v: nat)
    requires text != "" && Stray(text)
    ensures w == PastBlanks(text, 1) && 1 <= w <= r <= v < |text|
    ensures !IsSpace(text[w]) && !IsSpace(text[v]) && (IsSpace(text[r]) || text[r] == ']')
    ensures w == r || text[v] != ']'
    ensures forall p :: 1 <= p < w ==> IsSpace(text[p])
    ensures forall p :: w <= p < r ==> !IsSpace(text[p]) && text[p] != ']'
    ensures forall p :: r <= p < v ==> IsSpace(text[p])
  {
    w := PastBlanks(text, 1);
    r := PastWord(text, w);
    v := PastBlanks(text, r);
  }

  /** In a stray line no word closes the bracket. */
  lemma StrayDoesNotClose(s: string, i: nat, text: string)
    requires i + |text| <= |s| && s[i..i + |text|] == text && text != "" && Stray(text)
    ensures var w := PastBlanks(text, 1);
            && w < |text| && !IsSpace(s[i + w]) && !WordCloses(s, i + w)
            && forall q :: i + 1 <= q < i + w ==> IsSpace(s[q])
  {
    hide *;
    var w, r, v := StrayParts(text);
    Shifted(s, i, text, i + w);
    Shifted(s, i, text, i + r);
    Shifted(s, i, text, i + v);
    ShiftedRuns(s, i, text, 1, w);
    ShiftedRuns(s, i, text, w, r);
    ShiftedRuns(s, i, text, r, v);
    NeverCloses(s, i + w, i + r, i + v);
  }

  lemma NeverCloses(s: string, p: nat, r: nat, v: nat)
    requires p <= r <= v < |s| && (IsSpace(s[r]) || s[r] == ']') && !IsSpace(s[v])
    requires forall q :: p <= q < r ==> !IsSpace(s[q]) && s[q] != ']'
    requires forall q :: r <= q < v ==> IsSpace(s[q])
    requires p == r || s[v] != ']'
    ensures !WordCloses(s, p)
  {
    forall r2, b | ClosesAt(s, p, r2, b) ensures r2 == r && b == v {
      SameClosing(s, p, r2, b, r, v);
    }
  }

  /** The end of a word and the end of the blanks behind it are determined. */
  lemma SameClosing(s: string, p: nat, r: nat, b: nat, r2: nat, v: nat)
    requires ClosesAt(s, p, r, b)
    requires p <= r2 <= v < |s| && (IsSpace(s[r2]) || s[r2] == ']') && !IsSpace(s[v])
    requires forall q :: p <= q < r2 ==> !IsSpace(s[q]) && s[q] != ']'
    requires forall q :: r2 <= q < v ==> IsSpace(s[q])
    ensures r == r2 && b == v
  {
    assert IsSpace(s[r]) || s[r] == ']';
    assert !IsSpace(']');
    hide IsSpace;
  }

  lemma StrayDoesNotMatch(a: Alphabet, s: string, i: nat, text: string, inner: Re)
    requires i + |text| < |s| && s[i..i + |text|] == text && text != "" && Stray(text)
    requires OnlyWords(a, inner, s)
    ensures Try(a, Star(Space, inner), s, i + 1, Group(i, "")).None?
  {
    StrayDoesNotClose(s, i, text);
    hide IsSpace, WordCloses, Stray, PastBlanks;
    SpacesPassed(a, inner, s, i + 1, i + PastBlanks(text, 1), Group(i, ""));
  }

  lemma OtherDoesNotMatch(a: Alphabet, s: string, i: nat, line: Line, inner: Re)
    requires LineStands(s, i, line) && line.Other? && OnlyWords(a, inner, s)
    ensures MatchAt(a, LineStart(One(Only('['), Star(Space, inner))), s, i).None?
    ensures MatchAt(a, One(Only('['), Star(Space, inner)), s, i).None?
  {
    assert line.text != "" ==> s[i] == s[i..i + |line.text|][0];
    if line.text != "" && line.text[0] == '[' {
      StrayDoesNotMatch(a, s, i, line.text, inner);
      hide OnlyWords, Stray, OneLine;
      assert Try(a, One(Only('['), Star(Space, inner)), s, i, Group(i, ""))
             == Try(a, Star(Space, inner), s, i + 1, Group(i, ""));
    } else {
      NoBracketNoMatch(a, s, i, Star(Space, inner));
    }
  }

  lemma NoBracketNoMatch(a: Alphabet, s: string, i: nat, re: Re)
    requires i <= |s| && (i < |s| ==> s[i] != '[')
    ensures MatchAt(a, LineStart(One(Only('['), re)), s, i).None?
    ensures MatchAt(a, One(Only('['), re), s, i).None?
  {
    assert Try(a, One(Only('['), re), s, i, Group(i, "")).None?;
  }

  /** After a match that ended with the line, or at its start when the line is empty, the search goes on
      with the line after it. */
  lemma AfterMatch(a: Alphabet, re: Re, s: string, i: nat, line: Line)
    requires LineStands(s, i, line)
    ensures var e := i + |line.Text()|;
            FindAll(a, LineStart(One(Only('['), re)), s, e) == FindAll(a, LineStart(One(Only('['), re)), s, e + 1)
  {
    var e := i + |line.Text()|;
    if line.Text() == "" {
      NoBracketNoMatch(a, s, i, re);
      LinePassed(a, One(Only('['), re), s, i, line);
    } else {
      AnchoredSkips(a, One(Only('['), re), s, i, e, line);
    }
  }

  lemma LayoutEnds(i: nat, line: Line)
    requires line.Status?
    ensures LayoutOf(i, line).t > i && LayoutOf(i, line).t + |line.tail| == i + |line.Text()|
  {}

  /** Where the match at a status line ends: with the line, or with the next one if the name is bare. */
  lemma MatchEnds(a: Alphabet, s: string, i: nat, lines: seq<Line>)
    requires ReportAt(s, i, lines) && lines != [] && lines[0].Status?
    ensures var e := i + |lines[0].Text()|;
            RunEnd(a, NotNewline, s, LayoutOf(i, lines[0]).t + 1)
            == if lines[0].tail != "" then e
               else if |lines| > 1 then e + 1 + |lines[1].Text()|
               else e + 1
  {
    var (e, t) := (i + |lines[0].Text()|, LayoutOf(i, lines[0]).t);
    NoNewlineInside(s, i, lines[0]);
    LayoutEnds(i, lines[0]);
    hide IsSpace, LayoutOf, Line.Text, Line.WellFormed;
    if lines[0].tail != "" {
      RunIs(a, NotNewline, s, t + 1, e);
    } else if |lines| > 1 {
      NoNewlineInside(s, e + 1, lines[1]);
      RunIs(a, NotNewline, s, e + 1, e + 1 + |lines[1].Text()|);
    } else {
      RunIs(a, NotNewline, s, e + 1, e + 1);
    }
  }

  /** The match at a status line, in terms of the line. */
  lemma LineMatches(a: Alphabet, word: string, s: string, i: nat, line: Line)
    requires LineStands(s, i, line) && line.Status? && StatusWord(word) && AtLineStart(s, i)
    ensures MatchAt(a, Prefix(word, NAME), s, i)
            == if line.word == word
               then Some(Match(RunEnd(a, NotNewline, s, LayoutOf(i, line).t + 1), line.name))
               else None
  {
    hide Line.Text, Line.WellFormed, Layout.Fits, RunEnd, MatchAt, Prefix, IsSpace, StatusWord;
    StatusFits(s, i, line);
    PartsOf(s, i, line);
    StatusMatches(a, s, LayoutOf(i, line), word);
  }

  /** A scan of a report, character by character, captures what the line account says. */
  lemma {:induction false} ScanIsCaptured(a: Alphabet, word: string, s: string, i: nat, lines: seq<Line>)
    requires ReportAt(s, i, lines) && i <= |s| && AtLineStart(s, i) && StatusWord(word)
    ensures FindAll(a, Prefix(word, NAME), s, i) == Captured(word, lines)
    decreases |lines|
  {
    hide IsSpace, StatusWord, Line.WellFormed, Line.Text, MatchAt;
    var re := Star(Space, Literal(word, Bracket(Repeat(Space, NAME))));
    if lines == [] {
      NoBracketNoMatch(a, s, i, re);
    } else {
      var line := lines[0];
      var e := i + |line.Text()|;
      if line.Other? {
        LiteralOnlyWords(a, word, Repeat(Space, NAME), s);
        OtherDoesNotMatch(a, s, i, line, Literal(word, Bracket(Repeat(Space, NAME))));
      } else {
        LineMatches(a, word, s, i, lines[0]);
      }
      if line.Other? || line.word != word {
        LinePassed(a, One(Only('['), re), s, i, line);
        ScanIsCaptured(a, word, s, e + 1, lines[1..]);
      } else {
        CapturedAt(a, word, s, i, lines);
      }
    }
  }

  lemma {:induction false} CapturedAt(a: Alphabet, word: string, s: string, i: nat, lines: seq<Line>)
    requires ReportAt(s, i, lines) && AtLineStart(s, i) && StatusWord(word)
    requires lines != [] && lines[0].Status? && lines[0].word == word
    ensures FindAll(a, Prefix(word, NAME), s, i) == Captured(word, lines)
    decreases |lines|, 0
  {
    hide IsSpace, StatusWord, Line.Text, Line.WellFormed, FindAll, Prefix, MatchAt;
    var (line, e) := (lines[0], i + |lines[0].Text()|);
    FoundAt(a, word, s, i, lines);
    if line.tail == "" && |lines| > 1 {
      var next := e + 1 + |lines[1].Text()|;
      assert lines[1..][1..] == lines[2..];
      assert ReportAt(s, e + 1, lines[1..]) && ReportAt(s, next + 1, lines[2..]);
      AfterLine(a, word, s, e + 1, lines[1]);
      ScanIsCaptured(a, word, s, next + 1, lines[2..]);
    } else {
      AfterLine(a, word, s, i, line);
      ScanIsCaptured(a, word, s, e + 1, lines[1..]);
    }
  }

  /** The name found at a status line, and where the search goes on. */
  lemma FoundAt(a: Alphabet, word: string, s: string, i: nat, lines: seq<Line>)
    requires ReportAt(s, i, lines) && AtLineStart(s, i) && StatusWord(word)
    requires lines != [] && lines[0].Status? && lines[0].word == word
    ensures var e := i + |lines[0].Text()|;
            var end := if lines[0].tail != "" then e
                       else if |lines| > 1 then e + 1 + |lines[1].Text()| else e + 1;
            end <= |s| && FindAll(a, Prefix(word, NAME), s, i) == [lines[0].name] + FindAll(a, Prefix(word, NAME), s, end)
  {
    MatchEnds(a, s, i, lines);
    LayoutEnds(i, lines[0]);
    hide IsSpace, StatusWord, LayoutOf, Line.Text, Line.WellFormed, RunEnd, Try, Prefix;
    LineMatches(a, word, s, i, lines[0]);
    FindAllFinds(a, Prefix(word, NAME), s, i);
  }

  /** From the end of a line the search goes on with the next one. */
  lemma AfterLine(a: Alphabet, word: string, s: string, i: nat, line: Line)
    requires LineStands(s, i, line)
    ensures var e := i + |line.Text()|;
            AtLineStart(s, e + 1) && FindAll(a, Prefix(word, NAME), s, e) == FindAll(a, Prefix(word, NAME), s, e + 1)
  {
    AfterMatch(a, Star(Space, Literal(word, Bracket(Repeat(Space, NAME)))), s, i, line);
  }

  lemma FindAllFinds(a: Alphabet, re: Re, s: string, i: nat)
    requires i <= |s| && MatchAt(a, re, s, i).Some? && MatchAt(a, re, s, i).value.end > i
    ensures var m := MatchAt(a, re, s, i).value;
            FindAll(a, re, s, i) == [m.group] + FindAll(a, re, s, m.end)
  {}

  lemma SummaryLine(a: Alphabet, s: string, i: nat, line: Line)
    requires a.Valid() && LineStands(s, i, line) && AtLineStart(s, i)
    ensures MatchAt(a, Prefix("PASSED", COUNT), s, i)
            == if IsSummary(a, line) then Some(Match(i + |line.Text()|, line.name)) else None
  {
    if line.Other? {
      StatusWords();
      LiteralOnlyWords(a, "PASSED", Repeat(Space, COUNT), s);
      OtherDoesNotMatch(a, s, i, line, Literal("PASSED", Bracket(Repeat(Space, COUNT))));
    } else {
      StatusFits(s, i, line);
      PartsOf(s, i, line);
      hide IsSpace;
      SummaryMatches(a, s, LayoutOf(i, line));
    }
  }

  lemma {:induction false} SummariesScanned(a: Alphabet, s: string, i: nat, lines: seq<Line>)
    requires a.Valid() && ReportAt(s, i, lines) && i <= |s| && AtLineStart(s, i)
    ensures FindAll(a, Prefix("PASSED", COUNT), s, i) == Summaries(a, lines)
    decreases |lines|
  {
    hide IsSpace, IsSummary, Line.WellFormed, Line.Text, MatchAt;
    var re := Star(Space, Literal("PASSED", Bracket(Repeat(Space, COUNT))));
    if lines == [] {
      NoBracketNoMatch(a, s, i, re);
    } else {
      var (line, e) := (lines[0], i + |lines[0].Text()|);
      SummaryLine(a, s, i, line);
      if IsSummary(a, line) {
        NonEmptySummary(a, line);
        FindAllFinds(a, Prefix("PASSED", COUNT), s, i);
        AfterMatch(a, re, s, i, line);
      } else {
        LinePassed(a, One(Only('['), re), s, i, line);
      }
      SummariesScanned(a, s, e + 1, lines[1..]);
    }
  }

  lemma NonEmptySummary(a: Alphabet, line: Line)
    requires IsSummary(a, line)
    ensures line.Text() != ""
  {}

  /** No bracket but the ones that begin status lines. */
  predicate Unbracketed(lines: seq<Line>) {
    forall i :: 0 <= i < |lines| ==> forall k :: 0 < k < |lines[i].Text()| ==> lines[i].Text()[k] != '['
  }

  lemma SearchPassed(a: Alphabet, re: Re, s: string, i: nat, j: nat)
    requires i <= j <= |s| && forall p :: i <= p < j ==> s[p] != '['
    ensures Search(a, One(Only('['), re), s, i) == Search(a, One(Only('['), re), s, j)
    decreases j - i
  {
    if i < j {
      NoBracketNoMatch(a, s, i, re);
      SearchPassed(a, re, s, i + 1, j);
    }
  }

  lemma FailureLine(a: Alphabet, s: string, i: nat, line: Line)
    requires LineStands(s, i, line)
    ensures MatchAt(a, FAILURE, s, i).Some? <==> IsFailure(line)
  {
    if line.Other? {
      StatusWords();
      var (failed, skipped) := (Literal("FAILED", Bracket(Done)), Literal("SKIPPED", Bracket(Done)));
      LiteralOnlyWords(a, "FAILED", Done, s);
      LiteralOnlyWords(a, "SKIPPED", Done, s);
      EitherOnlyWords(a, failed, skipped, s);
      OtherDoesNotMatch(a, s, i, line, Either(failed, skipped));
    } else {
      StatusFits(s, i, line);
      PartsOf(s, i, line);
      hide IsSpace;
      FailureMatches(a, s, LayoutOf(i, line));
    }
  }

  lemma {:induction false} FailuresSearched(a: Alphabet, s: string, i: nat, lines: seq<Line>)
    requires ReportAt(s, i, lines) && i <= |s| && Unbracketed(lines)
    ensures Search(a, FAILURE, s, i) <==> Fails(lines)
    decreases |lines|
  {
    hide IsSpace, IsFailure, Line.WellFormed, Line.Text;
    var re := Star(Space, Either(Literal("FAILED", Bracket(Done)), Literal("SKIPPED", Bracket(Done))));
    if lines == [] {
      NoBracketNoMatch(a, s, i, re);
    } else {
      var (line, e) := (lines[0], i + |lines[0].Text()|);
      FailureLine(a, s, i, line);
      forall p | i < p <= e ensures s[p] != '[' {
        assert p < e ==> s[p] == s[i..e][p - i];
      }
      SearchPassed(a, re, s, i + 1, e + 1);
      assert forall k :: 0 <= k < |lines[1..]| ==> lines[1..][k] == lines[k + 1];
      FailuresSearched(a, s, e + 1, lines[1..]);
      FailsSplit(lines);
    }
  }

  lemma FailsSplit(lines: seq<Line>)
    requires lines != []
    ensures Fails(lines) <==> IsFailure(lines[0]) || Fails(lines[1..])
  {
    if Fails(lines[1..]) {
      var i :| 0 <= i < |lines[1..]| && IsFailure(lines[1..][i]);
      assert IsFailure(lines[i + 1]);
    }
    if Fails(lines) && !IsFailure(lines[0]) {
      var i :| 0 <= i < |lines| && IsFailure(lines[i]);
      assert IsFailure(lines[1..][i - 1]);
    }
  }

  // Numerals, read digit by digit from the left.

  function DigitValue(c: char): nat {
    if '0' <= c <= '9' then c as int - '0' as int else 0
  }

  function ValueOf(v: nat, text: string): nat
    decreases |text|
  {
    if text == "" then v else ValueOf(10 * v + DigitValue(text[0]), text[1..])
  }

  predicate IsNumeral(text: string) {
    text != "" && forall k :: 0 <= k < |text| ==> '0' <= text[k] <= '9'
  }

  /** The numeral of n: its value is n and it has no leading zero. */
  predicate Denotes(text: string, n: nat) {
    IsNumeral(text) && ValueOf(0, text) == n && (|text| > 1 ==> text[0] != '0')
  }

  /** Exactly one summary, and its count is n. */
  predicate CountsTo(summaries: seq<string>, n: nat) {
    |summaries| == 1 && Denotes(summaries[0], n)
  }

  lemma {:induction false} ValueAppend(v: nat, text: string, c: char)
    ensures ValueOf(v, text + [c]) == 10 * ValueOf(v, text) + DigitValue(c)
    decreases |text|
  {
    if text == "" {
      assert [c][1..] == "";
    } else {
      assert (text + [c])[1..] == text[1..] + [c];
      ValueAppend(10 * v + DigitValue(text[0]), text[1..], c);
    }
  }

  /** What str() writes denotes the number. */
  lemma {:induction false} DecimalDenotes(n: nat)
    ensures Denotes(Decimal(n), n)
    ensures n > 0 ==> Decimal(n)[0] != '0'
  {
    if n < 10 {
      ValueAppend(0, "", DigitChar(n));
      assert "" + [DigitChar(n)] == Decimal(n);
    } else {
      DecimalDenotes(n / 10);
      ValueAppend(0, Decimal(n / 10), DigitChar(n % 10));
    }
  }

  /** And nothing else does. */
  lemma {:induction false} DenotesIsDecimal(text: string, n: nat)
    requires Denotes(text, n)
    ensures text == Decimal(n)
    decreases |text|
  {
    var (front, last) := (text[..|text| - 1], text[|text| - 1]);
    assert text == front + [last];
    ValueAppend(0, front, last);
    assert last == DigitChar(DigitValue(last));
    if front != "" {
      DenotesIsDecimal(front, ValueOf(0, front));
      assert ValueOf(0, front) != 0;
      assert n / 10 == ValueOf(0, front) && n % 10 == DigitValue(last);
    }
  }

  lemma CountsToIff(summaries: seq<string>, n: nat)
    ensures CountsTo(summaries, n) <==> summaries == [Decimal(n)]
  {
    DecimalDenotes(n);
    if CountsTo(summaries, n) {
      DenotesIsDecimal(summaries[0], n);
    }
  }

  /** What the scanner makes of a whole report, from its lines and from whether it shows a failure. */
  function VerdictOf(a: Alphabet, failed: bool, lines: seq<Line>, expected: seq<string>): Verdict {
    if failed then FailureReported
    else if multiset(Captured("RUN", lines)) != multiset(expected) then InventoryMismatch("RUN")
    else if multiset(Captured("OK", lines)) != multiset(expected) then InventoryMismatch("OK")
    else if !CountsTo(Summaries(a, lines), |expected|) then CountMismatch
    else Accepted
  }

  lemma PrintedStands(lines: seq<Line>)
    requires AllWellFormed(lines)
    ensures ReportAt(Print(Texts(lines)), 0, lines)
  {
    hide Line.WellFormed, Texts, ReportAt;
    var s := Print(Texts(lines));
    PrintStands("", Texts(lines));
    assert "" + s == s;
    ReportStands(s, 0, lines);
  }

  /** A failing line is found wherever it stands, whatever else the report contains. */
  lemma {:induction false} FailureFound(a: Alphabet, s: string, i: nat, lines: seq<Line>)
    requires ReportAt(s, i, lines) && i <= |s| && Fails(lines)
    ensures Search(a, FAILURE, s, i)
    decreases |lines|
  {
    hide IsSpace, IsFailure, Line.WellFormed, Line.Text, Search, MatchAt;
    SearchIsExists(a, FAILURE, s, i);
    FailureLine(a, s, i, lines[0]);
    FailsSplit(lines);
    if !IsFailure(lines[0]) {
      var e := i + |lines[0].Text()|;
      FailureFound(a, s, e + 1, lines[1..]);
      SearchIsExists(a, FAILURE, s, e + 1);
    }
  }

  /** The report scanner on any report made of status lines and other lines: its verdict, character by
      character, is the one of the line account. A failing line always shows; if no bracket stands
      inside a line, nothing else shows as a failure. */
  lemma ReportVerdict(a: Alphabet, lines: seq<Line>, expected: seq<string>)
    requires a.Valid() && AllWellFormed(lines)
    ensures var report := Print(Texts(lines));
            var failed := Search(a, FAILURE, report, 0);
            && ValidateResult(a, report, expected) == VerdictOf(a, failed, lines, expected)
            && (failed ==> ValidateResult(a, report, expected) == FailureReported)
            && (Fails(lines) ==> failed)
            && (Unbracketed(lines) ==> (failed <==> Fails(lines)))
  {
    hide Line.WellFormed, Texts, IsSpace, Captured, Summaries, FindAll, Search, Fails, Decimal, ReportAt,
      AllWellFormed, Unbracketed, StatusWord, Prefix, LinesAt, Print, CountsTo;
    CountsToIff(Summaries(a, lines), |expected|);
    var s := Print(Texts(lines));
    PrintedStands(lines);
    StatusWords();
    if Unbracketed(lines) {
      FailuresSearched(a, s, 0, lines);
    }
    if Fails(lines) {
      FailureFound(a, s, 0, lines);
    }
    ScanIsCaptured(a, "RUN", s, 0, lines);
    ScanIsCaptured(a, "OK", s, 0, lines);
    SummariesScanned(a, s, 0, lines);
  }

  /** The names of all lines with one status word, none of them lost. */
  function Announced(word: string, lines: seq<Line>): seq<string> {
    if lines == [] then []
    else (if IsStatus(word, lines[0]) then [lines[0].name] else []) + Announced(word, lines[1..])
  }

  predicate IsStatus(word: string, line: Line) {
    line.Status? && line.word == word
  }

  /** A bare line with this word directly above another line with this word. */
  predicate Swallows(word: string, lines: seq<Line>, i: nat) {
    i + 1 < |lines| && IsStatus(word, lines[i]) && lines[i].tail == "" && IsStatus(word, lines[i + 1])
  }

  predicate NoneSwallowed(word: string, lines: seq<Line>) {
    forall i :: 0 <= i < |lines| ==> !Swallows(word, lines, i)
  }

  lemma NoneSwallowedTail(word: string, lines: seq<Line>)
    requires lines != []
    ensures NoneSwallowed(word, lines) <==> !Swallows(word, lines, 0) && NoneSwallowed(word, lines[1..])
  {
    assert forall i :: 0 < i < |lines| ==> (Swallows(word, lines, i) <==> Swallows(word, lines[1..], i - 1));
    if NoneSwallowed(word, lines) {
      forall i | 0 <= i < |lines[1..]| ensures !Swallows(word, lines[1..], i) {
        assert !Swallows(word, lines, i + 1);
      }
    }
  }

  /** How the two accounts go on behind the first line. */
  lemma FirstCaptured(word: string, lines: seq<Line>)
    requires lines != []
    ensures var (line, rest) := (lines[0], lines[1..]);
            if !IsStatus(word, line) then
              Captured(word, lines) == Captured(word, rest) && Announced(word, lines) == Announced(word, rest)
            else
              && Announced(word, lines) == [line.name] + Announced(word, rest)
              && Captured(word, lines)
                 == [line.name] + Captured(word, if line.tail == "" && rest != [] then rest[1..] else rest)
  {
    if |lines| > 1 {
      assert lines[1..][1..] == lines[2..];
    }
  }

  lemma {:induction false} CapturedIsAnnounced(word: string, lines: seq<Line>)
    ensures |Captured(word, lines)| <= |Announced(word, lines)|
    ensures Captured(word, lines) == Announced(word, lines) <==> NoneSwallowed(word, lines)
    ensures |Captured(word, lines)| == |Announced(word, lines)| <==> NoneSwallowed(word, lines)
    decreases |lines|
  {
    if lines != [] {
      var rest := lines[1..];
      FirstCaptured(word, lines);
      NoneSwallowedTail(word, lines);
      CapturedIsAnnounced(word, rest);
      if rest != [] {
        FirstCaptured(word, rest);
        NoneSwallowedTail(word, rest);
        CapturedIsAnnounced(word, rest[1..]);
      }
      hide NoneSwallowed, Captured, Announced;
      assert IsStatus(word, lines[0]) ==>
             (Captured(word, lines) == Announced(word, lines) <==> Captured(word, lines)[1..] == Announced(word, rest));
    }
  }

  /** The inventory of a report is complete exactly when no bare line of that status stands directly
      above another line of the same status. */
  lemma InventoryCompleteIff(a: Alphabet, word: string, lines: seq<Line>)
    requires AllWellFormed(lines) && StatusWord(word)
    ensures Inventory(a, word, Print(Texts(lines))) == Announced(word, lines) <==> NoneSwallowed(word, lines)
  {
    hide AllWellFormed, StatusWord, Print, Texts, Captured, Announced, NoneSwallowed, FindAll, ReportAt;
    PrintedStands(lines);
    ScanIsCaptured(a, word, Print(Texts(lines)), 0, lines);
    CapturedIsAnnounced(word, lines);
  }

  /** Exactly when a report whose tests all ran, passed and were summarised is accepted: no bare RUN or
      OK line stands directly above another of its kind. */
  lemma PassingReportAcceptedIff(a: Alphabet, lines: seq<Line>, expected: seq<string>)
    requires a.Valid() && AllWellFormed(lines) && Unbracketed(lines) && !Fails(lines)
    requires multiset(Announced("RUN", lines)) == multiset(expected) == multiset(Announced("OK", lines))
    requires CountsTo(Summaries(a, lines), |expected|)
    ensures ValidateResult(a, Print(Texts(lines)), expected) == Accepted
            <==> NoneSwallowed("RUN", lines) && NoneSwallowed("OK", lines)
  {
    hide *;
    ReportVerdict(a, lines, expected);
    AcceptedIff(a, lines, expected);
    CompleteIff("RUN", lines, expected);
    CompleteIff("OK", lines, expected);
  }

  lemma AcceptedIff(a: Alphabet, lines: seq<Line>, expected: seq<string>)
    requires CountsTo(Summaries(a, lines), |expected|)
    ensures VerdictOf(a, false, lines, expected) == Accepted
            <==> multiset(Captured("RUN", lines)) == multiset(expected)
                 && multiset(Captured("OK", lines)) == multiset(expected)
  {
    hide Summaries, Captured, CountsTo;
  }

  lemma CompleteIff(word: string, lines: seq<Line>, expected: seq<string>)
    requires multiset(Announced(word, lines)) == multiset(expected)
    ensures multiset(Captured(word, lines)) == multiset(expected) <==> NoneSwallowed(word, lines)
  {
    CapturedIsAnnounced(word, lines);
    hide Captured, Announced, NoneSwallowed;
    assert |multiset(Captured(word, lines))| == |Captured(word, lines)|;
    assert |multiset(Announced(word, lines))| == |Announced(word, lines)|;
  }

  // The printer.

  /** Nonempty and made of word characters, slashes and dots. */
  predicate PlainName(a: Alphabet, name: string) {
    name != "" && forall k :: 0 <= k < |name| ==> a.word(name[k]) || name[k] in "/."
  }

  function RunLine(name: string): Line {
    Status(" ", "RUN", "      ", " ", name, "")
  }

  function OkLine(name: string): Line {
    Status("       ", "OK", " ", " ", name, " (0 ms)")
  }

  function NumeralLine(numeral: string): Line {
    Status("  ", "PASSED", "  ", " ", numeral, " tests.")
  }

  function PassedLine(count: nat): Line {
    NumeralLine(Decimal(count))
  }

  /** The text of a run and its completion, for each name in turn. */
  function RunTexts(names: seq<string>): string {
    if names == [] then ""
    else "[ RUN      ] " + names[0] + "\n[       OK ] " + names[0] + " (0 ms)\n" + RunTexts(names[1..])
  }

  /** Such a report with any count line. */
  function CountedReport(names: seq<string>, numeral: string): string {
    RunTexts(names) + "[  PASSED  ] " + numeral + " tests.\n"
  }

  function ResultFor(names: seq<string>): string {
    CountedReport(names, Decimal(|names|))
  }

  /** The printed text of one name, character by character. */
  lemma ResultForOne(name: string)
    ensures ResultFor([name])
            == "[ RUN      ] " + name + "\n[       OK ] " + name + " (0 ms)\n[  PASSED  ] 1 tests.\n"
  {
    var (front, end) := ("[ RUN      ] " + name + "\n[       OK ] " + name, " (0 ms)\n");
    assert [name][1..] == [] && RunTexts([name]) == front + end + "";
    assert Decimal(1) == "1";
    assert " (0 ms)\n[  PASSED  ] 1 tests.\n" == end + "[  PASSED  ] " + "1" + " tests.\n";
    assert front + end + "" + "[  PASSED  ] " + "1" + " tests.\n"
           == front + (end + "[  PASSED  ] " + "1" + " tests.\n");
  }

  /** The text of several names is that of each in turn. */
  lemma {:induction false} RunTextsConcat(front: seq<string>, back: seq<string>)
    ensures RunTexts(front + back) == RunTexts(front) + RunTexts(back)
    decreases |front|
  {
    if front == [] {
      assert front + back == back;
    } else {
      assert (front + back)[1..] == front[1..] + back;
      RunTextsConcat(front[1..], back);
      var first := "[ RUN      ] " + front[0] + "\n[       OK ] " + front[0] + " (0 ms)\n";
      assert first + (RunTexts(front[1..]) + RunTexts(back)) == first + RunTexts(front[1..]) + RunTexts(back);
    }
  }

  function RunLines(names: seq<string>, numeral: string): seq<Line> {
    if names == [] then [NumeralLine(numeral)]
    else [RunLine(names[0]), OkLine(names[0])] + RunLines(names[1..], numeral)
  }

  lemma {:induction false} ResultIsLines(names: seq<string>, numeral: string)
    ensures Print(Texts(RunLines(names, numeral))) == CountedReport(names, numeral)
    decreases |names|
  {
    hide Print, Texts, Line.Text;
    if names == [] {
      OneLinePrinted(NumeralLine(numeral));
      PassedText(numeral);
    } else {
      ResultIsLines(names[1..], numeral);
      TwoLinesPrinted(RunLine(names[0]), OkLine(names[0]), RunLines(names[1..], numeral));
      RunText(names[0]);
      OkText(names[0]);
      Joined(names[0], RunTexts(names[1..]), "[  PASSED  ] " + numeral + " tests.\n");
      assert RunTexts(names[1..]) + ("[  PASSED  ] " + numeral + " tests.\n")
             == RunTexts(names[1..]) + "[  PASSED  ] " + numeral + " tests.\n";
    }
  }

  lemma Joined(name: string, rest: string, last: string)
    ensures "[ RUN      ] " + name + "\n" + ("[       OK ] " + name + " (0 ms)" + "\n" + (rest + last))
            == "[ RUN      ] " + name + "\n[       OK ] " + name + " (0 ms)\n" + rest + last
  {
    var (ok, end) := ("[       OK ] ", " (0 ms)");
    assert "\n[       OK ] " == "\n" + ok && " (0 ms)\n" == end + "\n";
    Regroup("[ RUN      ] " + name, "\n", ok, name, end, rest, last);
  }

  lemma Regroup(front: string, newline: string, ok: string, name: string, end: string, rest: string, last: string)
    ensures front + newline + (ok + name + end + newline + (rest + last))
            == front + (newline + ok) + name + (end + newline) + rest + last
  {}

  lemma OneLinePrinted(line: Line)
    ensures Print(Texts([line])) == line.Text() + "\n"
  {
    hide Line.Text;
    assert [line][1..] == [];
    assert [line.Text()][1..] == [];
  }

  lemma FirstPrinted(first: Line, rest: seq<Line>)
    ensures Print(Texts([first] + rest)) == first.Text() + "\n" + Print(Texts(rest))
  {
    hide Line.Text;
    assert ([first] + rest)[1..] == rest;
    assert ([first.Text()] + Texts(rest))[1..] == Texts(rest);
  }

  lemma TwoLinesPrinted(first: Line, second: Line, rest: seq<Line>)
    ensures Print(Texts([first, second] + rest))
            == first.Text() + "\n" + (second.Text() + "\n" + Print(Texts(rest)))
  {
    hide Line.Text;
    FirstPrinted(first, [second] + rest);
    FirstPrinted(second, rest);
    assert [first, second] + rest == [first] + ([second] + rest);
  }

  lemma PassedText(numeral: string)
    ensures NumeralLine(numeral).Text() + "\n" == "[  PASSED  ] " + numeral + " tests.\n"
  {
    assert "[  PASSED  ] " == "[" + "  " + "PASSED" + "  " + "]" + " ";
    assert " tests.\n" == " tests." + "\n";
  }

  lemma RunText(name: string)
    ensures RunLine(name).Text() == "[ RUN      ] " + name
  {
    assert "[ RUN      ] " == "[" + " " + "RUN" + "      " + "]" + " ";
  }

  lemma OkText(name: string)
    ensures OkLine(name).Text() == "[       OK ] " + name + " (0 ms)"
  {
    assert "[       OK ] " == "[" + "       " + "OK" + " " + "]" + " ";
  }

  lemma PlainIsSolid(a: Alphabet, name: string)
    requires a.Valid() && PlainName(a, name)
    ensures Solid(name) && forall k :: 0 <= k < |name| ==> name[k] != '['
  {
    forall k | 0 <= k < |name| ensures !IsSpace(name[k]) && name[k] != '[' {
      assert !a.word('[');
    }
  }

  /** A printed line is well formed, and its only bracket is the first character. */
  predicate Tidy(line: Line) {
    line.WellFormed() && forall k :: 0 < k < |line.Text()| ==> line.Text()[k] != '['
  }

  lemma TidyReport(lines: seq<Line>)
    requires forall i :: 0 <= i < |lines| ==> Tidy(lines[i])
    ensures AllWellFormed(lines) && Unbracketed(lines)
  {
    hide Line.Text, Line.WellFormed;
  }

  lemma PrintedTidy(a: Alphabet, name: string)
    requires a.Valid() && PlainName(a, name)
    ensures Tidy(RunLine(name)) && Tidy(OkLine(name))
  {
    PlainIsSolid(a, name);
    StatusWords();
    hide StatusWord, Solid, PlainName;
    TidyIfSolid(RunLine(name));
    TidyIfSolid(OkLine(name));
  }

  /** No bracket in the parts of a line, none in the line after its first character. */
  lemma TidyIfSolid(line: Line)
    requires line.Status? && line.WellFormed()
    requires forall k :: 0 <= k < |line.name| ==> line.name[k] != '['
    requires forall k :: 0 <= k < |line.word| ==> line.word[k] != '['
    requires forall k :: 0 <= k < |line.tail| ==> line.tail[k] != '['
    ensures Tidy(line)
  {
    assert Blank(line.left) && Blank(line.right) && Blank(line.gap);
    assert !IsSpace('[');
    hide IsSpace, Line.WellFormed;
  }

  lemma NumeralTidy(a: Alphabet, numeral: string)
    requires a.Valid() && IsNumeral(numeral)
    ensures Tidy(NumeralLine(numeral)) && IsSummary(a, NumeralLine(numeral))
  {
    assert forall k :: 0 <= k < |numeral| ==> !IsSpace(numeral[k]);
    StatusWords();
    hide StatusWord;
    TidyIfSolid(NumeralLine(numeral));
  }

  lemma PassedTidy(a: Alphabet, count: nat)
    requires a.Valid()
    ensures Tidy(PassedLine(count)) && IsSummary(a, PassedLine(count))
  {
    DecimalDenotes(count);
    hide Decimal, Tidy, IsSummary;
    NumeralTidy(a, Decimal(count));
  }

  lemma {:induction false} RunLinesTidy(a: Alphabet, names: seq<string>, numeral: string)
    requires a.Valid() && IsNumeral(numeral) && forall i :: 0 <= i < |names| ==> PlainName(a, names[i])
    ensures forall i :: 0 <= i < |RunLines(names, numeral)| ==> Tidy(RunLines(names, numeral)[i])
    ensures !Fails(RunLines(names, numeral))
    decreases |names|
  {
    hide Tidy, PlainName, Line.Text;
    if names == [] {
      NumeralTidy(a, numeral);
    } else {
      PrintedTidy(a, names[0]);
      RunLinesTidy(a, names[1..], numeral);
    }
  }

  lemma {:induction false} RunLinesCaptured(a: Alphabet, names: seq<string>, numeral: string)
    requires a.Valid() && IsNumeral(numeral)
    ensures Captured("RUN", RunLines(names, numeral)) == names
    ensures Captured("OK", RunLines(names, numeral)) == names
    ensures Summaries(a, RunLines(names, numeral)) == [numeral]
    decreases |names|
  {
    var lines := RunLines(names, numeral);
    if names == [] {
      NumeralTidy(a, numeral);
    } else {
      var rest := RunLines(names[1..], numeral);
      RunLinesCaptured(a, names[1..], numeral);
      assert lines[1..] == [OkLine(names[0])] + rest && lines[2..] == rest && lines[1..][1..] == rest;
      assert names == [names[0]] + names[1..];
    }
  }

  /** A report of completed runs with any count line: accepted exactly when the names are the expected
      ones, as multisets, and the count line is the numeral of their number. */
  lemma CountLineDecides(a: Alphabet, names: seq<string>, numeral: string, expected: seq<string>)
    requires a.Valid() && IsNumeral(numeral) && forall i :: 0 <= i < |names| ==> PlainName(a, names[i])
    ensures ValidateResult(a, CountedReport(names, numeral), expected)
            == if multiset(names) != multiset(expected) then InventoryMismatch("RUN")
               else if Denotes(numeral, |expected|) then Accepted
               else CountMismatch
  {
    hide Tidy, PlainName, Texts, Line.Text, Captured, Summaries, Fails, ValidateResult, CountedReport, Denotes,
      IsNumeral, Search;
    var lines := RunLines(names, numeral);
    RunLinesTidy(a, names, numeral);
    RunLinesCaptured(a, names, numeral);
    TidyReport(lines);
    ResultIsLines(names, numeral);
    ReportVerdict(a, lines, expected);
  }

  /** The report scanner inverts the printer: the printed report of any names is accepted exactly when
      the names are the expected ones, as multisets; otherwise it is refused for its RUN inventory. */
  lemma ScannerInvertsPrinter(a: Alphabet, names: seq<string>, expected: seq<string>)
    requires a.Valid() && forall i :: 0 <= i < |names| ==> PlainName(a, names[i])
    ensures ValidateResult(a, ResultFor(names), expected)
            == if multiset(names) == multiset(expected) then Accepted else InventoryMismatch("RUN")
  {
    hide PlainName, ValidateResult, CountedReport, Decimal, ValueOf;
    DecimalDenotes(|names|);
    CountLineDecides(a, names, Decimal(|names|), expected);
    if multiset(names) == multiset(expected) {
      assert |multiset(names)| == |names| && |multiset(expected)| == |expected|;
    }
  }

  /** A bare RUN line directly under another one is swallowed by its tail, so a report that announces
      two tests before completing them is refused although both ran and passed. */
  lemma BackToBackRunsRefused(a: Alphabet, x: string, y: string)
    requires a.Valid() && PlainName(a, x) && PlainName(a, y)
    ensures var lines := [RunLine(x), RunLine(y), OkLine(x), OkLine(y), PassedLine(2)];
            && Captured("RUN", lines) == [x]
            && ValidateResult(a, Print(Texts(lines)), [x, y]) == InventoryMismatch("RUN")
  {
    hide Tidy, PlainName, Texts, Line.Text, Line.WellFormed, ValidateResult, Decimal, Summaries, Captured, Print,
      Search;
    var lines := [RunLine(x), RunLine(y), OkLine(x), OkLine(y), PassedLine(2)];
    PrintedTidy(a, x);
    PrintedTidy(a, y);
    PassedTidy(a, 2);
    TidyReport(lines);
    assert !Fails(lines);
    BackToBackCaptured(x, y);
    ReportVerdict(a, lines, [x, y]);
    assert |multiset([x])| == 1 && |multiset([x, y])| == 2;
  }

  lemma BackToBackCaptured(x: string, y: string)
    ensures Captured("RUN", [RunLine(x), RunLine(y), OkLine(x), OkLine(y), PassedLine(2)]) == [x]
  {
    hide Decimal;
    var lines := [RunLine(x), RunLine(y), OkLine(x), OkLine(y), PassedLine(2)];
    var rest := [OkLine(x), OkLine(y), PassedLine(2)];
    assert lines[2..] == rest && rest[1..] == [OkLine(y), PassedLine(2)] && rest[1..][1..] == [PassedLine(2)];
    assert [PassedLine(2)][1..] == [];
    assert Captured("RUN", rest) == Captured("RUN", rest[1..]) == Captured("RUN", rest[1..][1..]) == [];
  }

  /** The other way round, a test that is announced under another one goes unnoticed: the report is
      accepted for the first test alone, although the second never completes. */
  lemma UnnoticedRunAccepted(a: Alphabet, x: string, y: string)
    requires a.Valid() && PlainName(a, x) && PlainName(a, y)
    ensures var lines := [RunLine(x), RunLine(y), OkLine(x), PassedLine(1)];
            && Announced("RUN", lines) == [x, y]
            && ValidateResult(a, Print(Texts(lines)), [x]) == Accepted
  {
    hide Tidy, PlainName, Texts, Line.Text, Line.WellFormed, ValidateResult, Decimal, Summaries, Captured, Print,
      Search, Announced, IsSummary;
    var lines := [RunLine(x), RunLine(y), OkLine(x), PassedLine(1)];
    PrintedTidy(a, x);
    PrintedTidy(a, y);
    PassedTidy(a, 1);
    TidyReport(lines);
    assert !Fails(lines);
    UnnoticedAccounts(a, x, y);
    CountsToIff(Summaries(a, lines), 1);
    hide CountsTo;
    ReportVerdict(a, lines, [x]);
  }

  lemma UnnoticedAccounts(a: Alphabet, x: string, y: string)
    requires a.Valid()
    ensures var lines := [RunLine(x), RunLine(y), OkLine(x), PassedLine(1)];
            && Announced("RUN", lines) == [x, y]
            && Captured("RUN", lines) == [x] && Captured("OK", lines) == [x]
            && Summaries(a, lines) == [Decimal(1)]
  {
    PassedTidy(a, 1);
    hide Decimal, IsSummary, Tidy;
    var lines := [RunLine(x), RunLine(y), OkLine(x), PassedLine(1)];
    var (ok, end) := ([OkLine(x), PassedLine(1)], [PassedLine(1)]);
    var tail := [RunLine(y), OkLine(x), PassedLine(1)];
    assert lines[1..] == tail && tail[1..] == ok == lines[2..] && ok[1..] == end && end[1..] == [];
    assert Announced("RUN", ok) == Announced("RUN", end) == [];
    assert Captured("RUN", ok) == Captured("RUN", end) == [];
    assert Captured("OK", lines) == Captured("OK", tail) == Captured("OK", ok) == [x] + Captured("OK", end);
    NoSummary(a, x, y);
    assert Summaries(a, lines) == Summaries(a, tail) == Summaries(a, ok) == Summaries(a, end);
  }

  lemma NoSummary(a: Alphabet, x: string, y: string)
    ensures !IsSummary(a, RunLine(x)) && !IsSummary(a, RunLine(y)) && !IsSummary(a, OkLine(x))
  {}
}
