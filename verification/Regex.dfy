/** Python's backtracking matcher, for the constructs that the report patterns use. A pattern is
    written with its continuation: an option or an alternative is a choice between two continuations,
    the first of which is preferred. */
module Regex {
  import opened Words

  /** The part of Unicode's tables that `\w` and `\d` depend on. */
  datatype Alphabet = Alphabet(word: char -> bool, digit: char -> bool) {
    ghost predicate Valid() {
      && (forall c :: IsSpace(c) ==> !word(c))
      && (forall c :: digit(c) ==> word(c))
      && (forall c :: c as int < 128 ==> (word(c) <==> IsAsciiWord(c)) && (digit(c) <==> '0' <= c <= '9'))
    }
  }

  predicate IsAsciiWord(c: char) {
    'a' <= c <= 'z' || 'A' <= c <= 'Z' || '0' <= c <= '9' || c == '_'
  }

  /** The characters that end a line for str.splitlines. */
  predicate IsBoundary(c: char) {
    '\n' <= c <= '\r' || '\U{1C}' <= c <= '\U{1E}' || c == '\U{85}' || c == '\U{2028}' || c == '\U{2029}'
  }

  /** The characters that `\s` matches. */
  predicate IsSpace(c: char) {
    || IsBoundary(c)
    || c == '\t' || c == '\U{1F}' || c == ' ' || c == '\U{A0}' || c == '\U{1680}'
    || '\U{2000}' <= c <= '\U{200A}' || c == '\U{202F}' || c == '\U{205F}' || c == '\U{3000}'
  }

  /** The two tables by code point: 29 characters, 10 of which end a line. */
  lemma CodePoints(c: char)
    ensures IsSpace(c) <==>
            || 0x9 <= c as int <= 0xD || 0x1C <= c as int <= 0x20 || 0x2000 <= c as int <= 0x200A
            || c as int in {0x85, 0xA0, 0x1680, 0x2028, 0x2029, 0x202F, 0x205F, 0x3000}
    ensures IsBoundary(c) <==>
            0xA <= c as int <= 0xD || 0x1C <= c as int <= 0x1E || c as int in {0x85, 0x2028, 0x2029}
  {}

  datatype Class = Only(c: char) | Space | NonSpace | WordOrSlash | Digit | NotNewline {
    predicate Has(a: Alphabet, x: char) {
      match this
      case Only(c) => x == c
      case Space => IsSpace(x)
      case NonSpace => !IsSpace(x)
      case WordOrSlash => a.word(x) || x == '/'
      case Digit => a.digit(x)
      case NotNewline => x != '\n'
    }
  }

  datatype Re =
    | Done
    | One(cls: Class, next: Re)
    | Star(cls: Class, next: Re)
    | LineStart(next: Re)
    | LineEnd(next: Re)
    | TextEnd(next: Re)
    | Open(next: Re)
    | Close(next: Re)
    | Either(first: Re, second: Re)

  function Repeat(cls: Class, next: Re): Re {
    One(cls, Star(cls, next))
  }

  function Literal(text: string, next: Re): Re {
    if text == "" then next else One(Only(text[0]), Literal(text[1..], next))
  }

  /** Where a match ends and what its group captured. */
  datatype Match = Match(end: nat, group: string)

  /** The group while matching: where it was opened, and its text once closed. */
  datatype Group = Group(start: nat, text: string)

  predicate AtLineStart(s: string, i: nat)
    requires i <= |s|
  {
    i == 0 || s[i - 1] == '\n'
  }

  predicate AtLineEnd(s: string, i: nat)
    requires i <= |s|
  {
    i == |s| || s[i] == '\n'
  }

  /** The first success in preference order: stars give back one character at a time. */
  function Try(a: Alphabet, re: Re, s: string, i: nat, g: Group): (m: Option<Match>)
    requires g.start <= i <= |s|
    ensures m.Some? ==> i <= m.value.end <= |s|
    decreases re, |s| - i
  {
    match re
    case Done => Some(Match(i, g.text))
    case One(cls, next) =>
      if i < |s| && cls.Has(a, s[i]) then Try(a, next, s, i + 1, g) else None
    case Star(cls, next) =>
      if i < |s| && cls.Has(a, s[i]) then
        var longer := Try(a, re, s, i + 1, g);
        if longer.Some? then longer else Try(a, next, s, i, g)
      else Try(a, next, s, i, g)
    case LineStart(next) => if AtLineStart(s, i) then Try(a, next, s, i, g) else None
    case LineEnd(next) => if AtLineEnd(s, i) then Try(a, next, s, i, g) else None
    case TextEnd(next) => if i == |s| then Try(a, next, s, i, g) else None
    case Open(next) => Try(a, next, s, i, Group(i, g.text))
    case Close(next) => Try(a, next, s, i, Group(g.start, s[g.start..i]))
    case Either(first, second) =>
      var preferred := Try(a, first, s, i, g);
      if preferred.Some? then preferred else Try(a, second, s, i, g)
  }

  function MatchAt(a: Alphabet, re: Re, s: string, i: nat): (m: Option<Match>)
    requires i <= |s|
    ensures m.Some? ==> i <= m.value.end <= |s|
  {
    Try(a, re, s, i, Group(i, ""))
  }

  /** re.fullmatch, for a pattern that ends in TextEnd: its group. */
  function FullMatch(a: Alphabet, re: Re, line: string): Option<string> {
    match MatchAt(a, re, line, 0)
    case None => None
    case Some(m) => Some(m.group)
  }

  /** re.findall from position i on, for a pattern that never matches the empty string: the groups of
      the leftmost matches, each search resuming where the previous match ended. */
  function FindAll(a: Alphabet, re: Re, s: string, i: nat): seq<string>
    requires i <= |s|
    decreases |s| - i
  {
    match MatchAt(a, re, s, i)
    case Some(m) =>
      if m.end > i then [m.group] + FindAll(a, re, s, m.end)
      else if i == |s| then [m.group] else [m.group] + FindAll(a, re, s, i + 1)
    case None => if i == |s| then [] else FindAll(a, re, s, i + 1)
  }

  /** re.search from position i on: whether there is a match anywhere. */
  predicate Search(a: Alphabet, re: Re, s: string, i: nat)
    requires i <= |s|
    decreases |s| - i
  {
    MatchAt(a, re, s, i).Some? || (i < |s| && Search(a, re, s, i + 1))
  }

  /** What it means to match, with no order of preference: from i to j. */
  predicate Matches(a: Alphabet, re: Re, s: string, i: nat, j: nat)
    requires i <= |s|
    decreases re, |s| - i
  {
    match re
    case Done => i == j
    case One(cls, next) => i < |s| && cls.Has(a, s[i]) && Matches(a, next, s, i + 1, j)
    case Star(cls, next) =>
      Matches(a, next, s, i, j) || (i < |s| && cls.Has(a, s[i]) && Matches(a, re, s, i + 1, j))
    case LineStart(next) => AtLineStart(s, i) && Matches(a, next, s, i, j)
    case LineEnd(next) => AtLineEnd(s, i) && Matches(a, next, s, i, j)
    case TextEnd(next) => i == |s| && Matches(a, next, s, i, j)
    case Open(next) => Matches(a, next, s, i, j)
    case Close(next) => Matches(a, next, s, i, j)
    case Either(first, second) => Matches(a, first, s, i, j) || Matches(a, second, s, i, j)
  }

  /** The matcher is sound: what it returns is a match. */
  lemma {:induction false} TrySound(a: Alphabet, re: Re, s: string, i: nat, g: Group)
    requires g.start <= i <= |s|
    ensures Try(a, re, s, i, g).Some? ==> Matches(a, re, s, i, Try(a, re, s, i, g).value.end)
    decreases re, |s| - i
  {
    match re
    case Done =>
    case One(cls, next) => if i < |s| { TrySound(a, next, s, i + 1, g); }
    case Star(cls, next) =>
      TrySound(a, next, s, i, g);
      if i < |s| { TrySound(a, re, s, i + 1, g); }
    case LineStart(next) => TrySound(a, next, s, i, g);
    case LineEnd(next) => TrySound(a, next, s, i, g);
    case TextEnd(next) => TrySound(a, next, s, i, g);
    case Open(next) => TrySound(a, next, s, i, Group(i, g.text));
    case Close(next) => TrySound(a, next, s, i, Group(g.start, s[g.start..i]));
    case Either(first, second) => TrySound(a, first, s, i, g); TrySound(a, second, s, i, g);
  }

  /** The matcher is complete: backtracking finds a match whenever there is one. */
  lemma {:induction false} TryComplete(a: Alphabet, re: Re, s: string, i: nat, g: Group, j: nat)
    requires g.start <= i <= |s| && Matches(a, re, s, i, j)
    ensures Try(a, re, s, i, g).Some?
    decreases re, |s| - i
  {
    match re
    case Done =>
    case One(cls, next) => TryComplete(a, next, s, i + 1, g, j);
    case Star(cls, next) =>
      if Matches(a, next, s, i, j) {
        TryComplete(a, next, s, i, g, j);
      } else {
        TryComplete(a, re, s, i + 1, g, j);
      }
    case LineStart(next) => TryComplete(a, next, s, i, g, j);
    case LineEnd(next) => TryComplete(a, next, s, i, g, j);
    case TextEnd(next) => TryComplete(a, next, s, i, g, j);
    case Open(next) => TryComplete(a, next, s, i, Group(i, g.text), j);
    case Close(next) => TryComplete(a, next, s, i, Group(g.start, s[g.start..i]), j);
    case Either(first, second) =>
      if Matches(a, first, s, i, j) {
        TryComplete(a, first, s, i, g, j);
      } else {
        TryComplete(a, second, s, i, g, j);
      }
  }

  /** The end of the longest run of a class from i. */
  function RunEnd(a: Alphabet, cls: Class, s: string, i: nat): (j: nat)
    requires i <= |s|
    ensures i <= j <= |s|
    ensures forall k :: i <= k < j ==> cls.Has(a, s[k])
    ensures j < |s| ==> !cls.Has(a, s[j])
    decreases |s| - i
  {
    if i < |s| && cls.Has(a, s[i]) then RunEnd(a, cls, s, i + 1) else i
  }

  /** A run is determined by where it has to stop. */
  lemma RunIs(a: Alphabet, cls: Class, s: string, i: nat, j: nat)
    requires i <= j <= |s|
    requires forall k :: i <= k < j ==> cls.Has(a, s[k])
    requires j == |s| || !cls.Has(a, s[j])
    ensures RunEnd(a, cls, s, i) == j
  {}

  /** A star that cannot usefully give back: if the rest fails inside the run, the star takes all of it. */
  lemma {:induction false} StarTakesAll(a: Alphabet, cls: Class, next: Re, s: string, i: nat, g: Group)
    requires g.start <= i <= |s|
    requires forall p :: i <= p < RunEnd(a, cls, s, i) ==> Try(a, next, s, p, g).None?
    ensures Try(a, Star(cls, next), s, i, g) == Try(a, next, s, RunEnd(a, cls, s, i), g)
    decreases |s| - i
  {
    if i < |s| && cls.Has(a, s[i]) {
      StarTakesAll(a, cls, next, s, i + 1, g);
    }
  }

  /** A star whose rest succeeds after the longest run takes all of it. */
  lemma {:induction false} StarIsGreedy(a: Alphabet, cls: Class, next: Re, s: string, i: nat, g: Group)
    requires g.start <= i <= |s|
    requires Try(a, next, s, RunEnd(a, cls, s, i), g).Some?
    ensures Try(a, Star(cls, next), s, i, g) == Try(a, next, s, RunEnd(a, cls, s, i), g)
    decreases |s| - i
  {
    if i < |s| && cls.Has(a, s[i]) {
      StarIsGreedy(a, cls, next, s, i + 1, g);
    }
  }

  /** The text t stands at position i. */
  predicate StandsAt(s: string, i: nat, t: string) {
    i + |t| <= |s| && forall k :: 0 <= k < |t| ==> s[i + k] == t[k]
  }

  lemma {:induction false} LiteralMatches(a: Alphabet, text: string, next: Re, s: string, i: nat, g: Group)
    requires g.start <= i <= |s|
    ensures Try(a, Literal(text, next), s, i, g)
            == if StandsAt(s, i, text) then Try(a, next, s, i + |text|, g) else None
    decreases |text|
  {
    if text != "" && i < |s| && s[i] == text[0] {
      LiteralMatches(a, text[1..], next, s, i + 1, g);
      StandsAtTail(s, i, text);
    }
  }

  lemma StandsAtTail(s: string, i: nat, text: string)
    requires text != "" && i < |s| && s[i] == text[0]
    ensures StandsAt(s, i, text) <==> StandsAt(s, i + 1, text[1..])
  {
    if StandsAt(s, i + 1, text[1..]) {
      forall k | 0 <= k < |text| ensures s[i + k] == text[k] {
        if k > 0 {
          assert s[i + 1 + (k - 1)] == text[1..][k - 1];
        }
      }
    }
    if StandsAt(s, i, text) {
      forall k | 0 <= k < |text| - 1 ensures s[i + 1 + k] == text[1..][k] {
        assert s[i + (k + 1)] == text[k + 1];
      }
    }
  }

  /** Positions without a match are passed over. */
  lemma {:induction false} FindAllSkips(a: Alphabet, re: Re, s: string, i: nat, j: nat)
    requires i <= j <= |s|
    requires forall p :: i <= p < j ==> MatchAt(a, re, s, p).None?
    ensures FindAll(a, re, s, i) == FindAll(a, re, s, j)
    decreases j - i
  {
    if i < j {
      FindAllSkips(a, re, s, i + 1, j);
    }
  }

  /** A search succeeds exactly when some position matches. */
  lemma {:induction false} SearchIsExists(a: Alphabet, re: Re, s: string, i: nat)
    requires i <= |s|
    ensures Search(a, re, s, i) <==> exists p :: i <= p <= |s| && MatchAt(a, re, s, p).Some?
    decreases |s| - i
  {
    if i < |s| {
      SearchIsExists(a, re, s, i + 1);
    }
  }
}
