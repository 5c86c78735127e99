/** The report scanner does not depend on the last line's newline, for any text at all. The patterns
    consume newlines as blanks, so this is a fact about their continuations: nothing that may follow a
    blank can match once the text is over. */
module FinalNewline {
  import opened Words
  import opened Regex
  import opened TextLines
  import opened Report

  function Ended(s: string): string {
    s + "\n"
  }

  /** The same answer with and without the final newline, which a match may take in. */
  predicate Agree(n: nat, without: Option<Match>, ended: Option<Match>) {
    match (without, ended)
    case (None, None) => true
    case (Some(m), Some(k)) => m.group == k.group && (m.end == k.end || (m.end == n && k.end == n + 1))
    case _ => false
  }

  /** A continuation that answers alike from every position of the text. */
  ghost predicate Carries(a: Alphabet, re: Re, s: string) {
    forall i: nat, g: Group :: g.start <= i <= |s| ==> Agree(|s|, Try(a, re, s, i, g), Try(a, re, Ended(s), i, g))
  }

  /** A continuation that does not match behind the final newline. */
  ghost predicate Dead(a: Alphabet, re: Re, s: string) {
    forall g: Group :: g.start <= |s| + 1 ==> Try(a, re, Ended(s), |s| + 1, g).None?
  }

  // How patterns are put together.

  lemma OneCarries(a: Alphabet, cls: Class, next: Re, s: string)
    requires Carries(a, next, s) && (cls.Has(a, '\n') ==> Dead(a, next, s))
    ensures Carries(a, One(cls, next), s) && Dead(a, One(cls, next), s)
  {
    var t := Ended(s);
    forall i: nat, g: Group | g.start <= i <= |s|
      ensures Agree(|s|, Try(a, One(cls, next), s, i, g), Try(a, One(cls, next), t, i, g))
    {
      if i < |s| {
        assert t[i] == s[i] && Agree(|s|, Try(a, next, s, i + 1, g), Try(a, next, t, i + 1, g));
      } else {
        assert t[i] == '\n';
      }
    }
  }

  lemma StarCarries(a: Alphabet, cls: Class, next: Re, s: string)
    requires Carries(a, next, s) && (cls.Has(a, '\n') ==> Dead(a, next, s))
    ensures Carries(a, Star(cls, next), s)
    ensures Dead(a, next, s) ==> Dead(a, Star(cls, next), s)
  {
    forall i: nat, g: Group | g.start <= i <= |s|
      ensures Agree(|s|, Try(a, Star(cls, next), s, i, g), Try(a, Star(cls, next), Ended(s), i, g))
    {
      StarAgrees(a, cls, next, s, i, g);
    }
  }

  lemma {:induction false} StarAgrees(a: Alphabet, cls: Class, next: Re, s: string, i: nat, g: Group)
    requires Carries(a, next, s) && (cls.Has(a, '\n') ==> Dead(a, next, s))
    requires g.start <= i <= |s|
    ensures Agree(|s|, Try(a, Star(cls, next), s, i, g), Try(a, Star(cls, next), Ended(s), i, g))
    decreases |s| - i
  {
    var t := Ended(s);
    assert Agree(|s|, Try(a, next, s, i, g), Try(a, next, t, i, g));
    if i < |s| {
      assert t[i] == s[i];
      StarAgrees(a, cls, next, s, i + 1, g);
    } else {
      assert t[i] == '\n';
      assert cls.Has(a, '\n') ==> Try(a, Star(cls, next), t, i + 1, g) == Try(a, next, t, i + 1, g);
    }
  }

  lemma LineStartCarries(a: Alphabet, next: Re, s: string)
    requires Carries(a, next, s) && Dead(a, next, s)
    ensures Carries(a, LineStart(next), s) && Dead(a, LineStart(next), s)
  {
    forall i: nat, g: Group | g.start <= i <= |s|
      ensures Agree(|s|, Try(a, LineStart(next), s, i, g), Try(a, LineStart(next), Ended(s), i, g))
    {
      assert AtLineStart(Ended(s), i) <==> AtLineStart(s, i);
      assert Agree(|s|, Try(a, next, s, i, g), Try(a, next, Ended(s), i, g));
    }
  }

  lemma OpenCarries(a: Alphabet, next: Re, s: string)
    requires Carries(a, next, s)
    ensures Carries(a, Open(next), s)
    ensures Dead(a, next, s) ==> Dead(a, Open(next), s)
  {
    forall i: nat, g: Group | g.start <= i <= |s|
      ensures Agree(|s|, Try(a, Open(next), s, i, g), Try(a, Open(next), Ended(s), i, g))
    {
      assert Agree(|s|, Try(a, next, s, i, Group(i, g.text)), Try(a, next, Ended(s), i, Group(i, g.text)));
    }
  }

  lemma CloseCarries(a: Alphabet, next: Re, s: string)
    requires Carries(a, next, s)
    ensures Carries(a, Close(next), s)
    ensures Dead(a, next, s) ==> Dead(a, Close(next), s)
  {
    forall i: nat, g: Group | g.start <= i <= |s|
      ensures Agree(|s|, Try(a, Close(next), s, i, g), Try(a, Close(next), Ended(s), i, g))
    {
      assert Ended(s)[g.start..i] == s[g.start..i];
      var closed := Group(g.start, s[g.start..i]);
      assert Agree(|s|, Try(a, next, s, i, closed), Try(a, next, Ended(s), i, closed));
    }
  }

  lemma EitherCarries(a: Alphabet, first: Re, second: Re, s: string)
    requires Carries(a, first, s) && Carries(a, second, s)
    ensures Carries(a, Either(first, second), s)
    ensures Dead(a, first, s) && Dead(a, second, s) ==> Dead(a, Either(first, second), s)
  {
    forall i: nat, g: Group | g.start <= i <= |s|
      ensures Agree(|s|, Try(a, Either(first, second), s, i, g), Try(a, Either(first, second), Ended(s), i, g))
    {
      assert Agree(|s|, Try(a, first, s, i, g), Try(a, first, Ended(s), i, g));
      assert Agree(|s|, Try(a, second, s, i, g), Try(a, second, Ended(s), i, g));
    }
  }

  lemma {:induction false} LiteralCarries(a: Alphabet, text: string, next: Re, s: string)
    requires Carries(a, next, s) && OneLine(text)
    ensures Carries(a, Literal(text, next), s)
    ensures text != "" ==> Dead(a, Literal(text, next), s)
  {
    if text != "" {
      LiteralCarries(a, text[1..], next, s);
      OneCarries(a, Only(text[0]), Literal(text[1..], next), s);
    }
  }

  lemma RepeatCarries(a: Alphabet, cls: Class, next: Re, s: string)
    requires Carries(a, next, s) && (cls.Has(a, '\n') ==> Dead(a, next, s))
    ensures Carries(a, Repeat(cls, next), s) && Dead(a, Repeat(cls, next), s)
  {
    hide Carries, Dead;
    StarCarries(a, cls, next, s);
    OneCarries(a, cls, Star(cls, next), s);
  }

  lemma BracketCarries(a: Alphabet, rest: Re, s: string)
    requires Carries(a, rest, s)
    ensures Carries(a, Bracket(rest), s)
  {
    hide Carries, Dead;
    OneCarries(a, Only(']'), rest, s);
    StarCarries(a, Space, One(Only(']'), rest), s);
  }

  // The patterns of the scanner.

  lemma DoneCarries(a: Alphabet, s: string)
    ensures Carries(a, Done, s) && Carries(a, LineEnd(Done), s)
  {
    forall i: nat, g: Group | g.start <= i <= |s|
      ensures Agree(|s|, Try(a, LineEnd(Done), s, i, g), Try(a, LineEnd(Done), Ended(s), i, g))
    {
      assert AtLineEnd(Ended(s), i) <==> AtLineEnd(s, i);
      LineEndMatches(a, s, i, g);
      LineEndMatches(a, Ended(s), i, g);
    }
  }

  /** At the end of the text the tail of a bare name takes in the newline, and only that. */
  lemma TailCarries(a: Alphabet, s: string)
    ensures Carries(a, TAIL, s)
  {
    var (t, rest) := (Ended(s), Star(NotNewline, LineEnd(Done)));
    DoneCarries(a, s);
    StarCarries(a, NotNewline, LineEnd(Done), s);
    forall i: nat, g: Group | g.start <= i <= |s|
      ensures Agree(|s|, Try(a, TAIL, s, i, g), Try(a, TAIL, t, i, g))
    {
      if i < |s| {
        assert t[i] == s[i];
        assert Agree(|s|, Try(a, rest, s, i + 1, g), Try(a, rest, t, i + 1, g));
        assert Agree(|s|, Try(a, LineEnd(Done), s, i, g), Try(a, LineEnd(Done), t, i, g));
      } else {
        LineEndMatches(a, s, i, g);
        LineEndMatches(a, t, i + 1, g);
        assert t[i] == '\n';
        assert Try(a, rest, t, i + 1, g) == Try(a, LineEnd(Done), t, i + 1, g);
      }
    }
  }

  lemma NameCarries(a: Alphabet, s: string)
    ensures Carries(a, NAME, s) && Dead(a, NAME, s)
  {
    hide Carries, Dead;
    TailCarries(a, s);
    CloseCarries(a, TAIL, s);
    RepeatCarries(a, NonSpace, Close(TAIL), s);
    OpenCarries(a, Repeat(NonSpace, Close(TAIL)), s);
  }

  lemma CountCarries(a: Alphabet, s: string)
    ensures Carries(a, COUNT, s) && Dead(a, COUNT, s)
  {
    hide Carries, Dead;
    DoneCarries(a, s);
    var (plural, single) := (Literal("s.", LineEnd(Done)), Literal(".", LineEnd(Done)));
    LiteralCarries(a, "s.", LineEnd(Done), s);
    LiteralCarries(a, ".", LineEnd(Done), s);
    EitherCarries(a, plural, single, s);
    LiteralCarries(a, " test", Either(plural, single), s);
    CloseCarries(a, TESTS, s);
    RepeatCarries(a, Digit, Close(TESTS), s);
    OpenCarries(a, Repeat(Digit, Close(TESTS)), s);
  }

  lemma PrefixCarries(a: Alphabet, word: string, rest: Re, s: string)
    requires word != "" && OneLine(word) && Carries(a, rest, s) && Dead(a, rest, s)
    ensures Carries(a, Prefix(word, rest), s) && Dead(a, Prefix(word, rest), s)
  {
    hide Carries, Dead;
    RepeatCarries(a, Space, rest, s);
    BracketCarries(a, Repeat(Space, rest), s);
    var inner := Literal(word, Bracket(Repeat(Space, rest)));
    LiteralCarries(a, word, Bracket(Repeat(Space, rest)), s);
    StarCarries(a, Space, inner, s);
    OneCarries(a, Only('['), Star(Space, inner), s);
    LineStartCarries(a, One(Only('['), Star(Space, inner)), s);
  }

  lemma FailureCarries(a: Alphabet, s: string)
    ensures Carries(a, FAILURE, s) && Dead(a, FAILURE, s)
  {
    hide Carries, Dead;
    var (failed, skipped) := (Literal("FAILED", Bracket(Done)), Literal("SKIPPED", Bracket(Done)));
    DoneCarries(a, s);
    BracketCarries(a, Done, s);
    LiteralCarries(a, "FAILED", Bracket(Done), s);
    LiteralCarries(a, "SKIPPED", Bracket(Done), s);
    EitherCarries(a, failed, skipped, s);
    StarCarries(a, Space, Either(failed, skipped), s);
    OneCarries(a, Only('['), Star(Space, Either(failed, skipped)), s);
  }

  // Scans.

  lemma MatchAgrees(a: Alphabet, re: Re, s: string, i: nat)
    requires Carries(a, re, s) && i <= |s|
    ensures Agree(|s|, MatchAt(a, re, s, i), MatchAt(a, re, Ended(s), i))
  {}

  lemma NothingBehind(a: Alphabet, re: Re, s: string)
    requires Dead(a, re, s)
    ensures MatchAt(a, re, Ended(s), |s| + 1).None?
    ensures FindAll(a, re, Ended(s), |s| + 1) == [] && !Search(a, re, Ended(s), |s| + 1)
  {}

  lemma {:induction false} ScanAgrees(a: Alphabet, inner: Re, s: string, i: nat)
    requires i <= |s|
    requires var re := LineStart(One(Only('['), inner)); Carries(a, re, s) && Dead(a, re, s)
    ensures var re := LineStart(One(Only('['), inner)); FindAll(a, re, Ended(s), i) == FindAll(a, re, s, i)
    decreases |s| - i
  {
    var (t, re) := (Ended(s), LineStart(One(Only('['), inner)));
    MatchAgrees(a, re, s, i);
    NothingBehind(a, re, s);
    NoBracketNoMatch(a, s, |s|, inner);
    hide Carries, Dead, Try, MatchAt;
    if i == |s| {
      assert FindAll(a, re, t, i) == FindAll(a, re, t, i + 1);
    } else if MatchAt(a, re, s, i).Some? {
      MatchNonempty(a, inner, s, i);
      ScanAgrees(a, inner, s, MatchAt(a, re, s, i).value.end);
    } else {
      ScanAgrees(a, inner, s, i + 1);
    }
  }

  lemma MatchNonempty(a: Alphabet, inner: Re, s: string, i: nat)
    requires i <= |s| && MatchAt(a, LineStart(One(Only('['), inner)), s, i).Some?
    ensures MatchAt(a, LineStart(One(Only('['), inner)), s, i).value.end > i
  {
    assert Try(a, One(Only('['), inner), s, i, Group(i, "")).Some?;
  }

  lemma {:induction false} SearchAgrees(a: Alphabet, re: Re, s: string, i: nat)
    requires i <= |s| && Carries(a, re, s) && Dead(a, re, s)
    ensures Search(a, re, Ended(s), i) == Search(a, re, s, i)
    decreases |s| - i
  {
    MatchAgrees(a, re, s, i);
    NothingBehind(a, re, s);
    hide Carries, Dead, MatchAt;
    if i < |s| {
      SearchAgrees(a, re, s, i + 1);
    }
  }

  /** A newline at the end of a report never changes its verdict. */
  lemma FinalNewlineIsIgnored(a: Alphabet, s: string, expected: seq<string>)
    ensures ValidateResult(a, Ended(s), expected) == ValidateResult(a, s, expected)
    ensures Search(a, FAILURE, Ended(s), 0) == Search(a, FAILURE, s, 0)
  {
    hide Carries, Dead, FindAll, Search, Ended;
    FailureCarries(a, s);
    SearchAgrees(a, FAILURE, s, 0);
    NameCarries(a, s);
    CountCarries(a, s);
    PrefixCarries(a, "RUN", NAME, s);
    PrefixCarries(a, "OK", NAME, s);
    PrefixCarries(a, "PASSED", COUNT, s);
    ScanAgrees(a, Star(Space, Literal("RUN", Bracket(Repeat(Space, NAME)))), s, 0);
    ScanAgrees(a, Star(Space, Literal("OK", Bracket(Repeat(Space, NAME)))), s, 0);
    ScanAgrees(a, Star(Space, Literal("PASSED", Bracket(Repeat(Space, COUNT)))), s, 0);
  }

  /** The lines of a report whose last line is not terminated. */
  function Unterminated(lines: seq<string>): string
    requires lines != []
  {
    if |lines| == 1 then lines[0] else lines[0] + "\n" + Unterminated(lines[1..])
  }

  lemma {:induction false} EndedIsPrinted(lines: seq<string>)
    requires lines != []
    ensures Ended(Unterminated(lines)) == Print(lines)
    decreases |lines|
  {
    if |lines| > 1 {
      EndedIsPrinted(lines[1..]);
      var rest := Unterminated(lines[1..]);
      assert lines[0] + "\n" + rest + "\n" == lines[0] + "\n" + (rest + "\n");
    } else {
      assert lines[1..] == [];
    }
  }

  /** So the verdict on a report whose last line is not terminated is the one of the line account too. */
  lemma UnterminatedVerdict(a: Alphabet, lines: seq<Line>, expected: seq<string>)
    requires a.Valid() && AllWellFormed(lines) && lines != []
    ensures var report := Unterminated(Texts(lines));
            var failed := Search(a, FAILURE, report, 0);
            && ValidateResult(a, report, expected) == VerdictOf(a, failed, lines, expected)
            && (Fails(lines) ==> failed)
            && (Unbracketed(lines) ==> (failed <==> Fails(lines)))
  {
    var texts := Texts(lines);
    assert texts != [];
    hide *;
    EndedIsPrinted(texts);
    FinalNewlineIsIgnored(a, Unterminated(texts), expected);
    ReportVerdict(a, lines, expected);
  }
}
