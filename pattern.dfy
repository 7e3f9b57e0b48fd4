/** The few regular-expression shapes the source uses, as sequences of tokens,
    with a matcher and a leftmost search.

    Every shape used here places after each variable-width token a token that
    cannot begin with a character the first one consumes (digits are followed
    by white space, a slash or a unit word; a word by a dot or white space; a
    white-space run by a letter or a digit; a quoted value by a quote), and an
    alternation only at the end of a shape. For such shapes the greedy choice
    made by `MatchTokens` is the only one JavaScript's backtracking matcher can
    succeed with, so a match here is the match `String.prototype.match` finds
    (except for a bounded `\d{m,n}`: see `Step`). */
module Pattern {
  import opened Wrappers
  import opened Text

  datatype CharClass =
    | Space      // \s
    | Digit      // \d
    | AsciiWord  // \w
    | LetterWord // \w widened to the Latin-1 letters (see FrenchDates)
    | NonQuote   // [^"']

  predicate IsLatin1Letter(c: char)
  {
    '\U{C0}' <= c <= '\U{FF}' && c != '\U{D7}' && c != '\U{F7}'
  }

  predicate InClass(c: char, k: CharClass)
  {
    match k
    case Space => IsSpace(c)
    case Digit => IsDigit(c)
    case AsciiWord => IsAsciiWordChar(c)
    case LetterWord => IsAsciiWordChar(c) || IsLatin1Letter(c)
    case NonQuote => c != '"' && c != '\''
  }

  /** The length of the longest run of characters of class `k` starting at `i`. */
  function Run(s: string, i: nat, k: CharClass): (n: nat)
    requires i <= |s|
    ensures i + n <= |s|
    ensures forall j :: i <= j < i + n ==> InClass(s[j], k)
    ensures i + n == |s| || !InClass(s[i + n], k)
    decreases |s| - i
  {
    if i < |s| && InClass(s[i], k) then 1 + Run(s, i + 1, k) else 0
  }

  /** A run is determined by where it stops: the characters it covers are all
      of the class and the next one (if any) is not. */
  lemma {:induction false} RunIs(s: string, i: nat, k: CharClass, n: nat)
    requires i + n <= |s|
    requires forall j :: i <= j < i + n ==> InClass(s[j], k)
    requires i + n == |s| || !InClass(s[i + n], k)
    ensures Run(s, i, k) == n
    decreases n
  {
    if n > 0 {
      RunIs(s, i + 1, k, n - 1);
    }
  }

  /** A single white-space character followed by another character. */
  lemma OneSpace(s: string, i: nat)
    requires i + 1 < |s| && IsSpace(s[i]) && !IsSpace(s[i + 1])
    ensures Run(s, i, Space) == 1
  {
    RunIs(s, i, Space, 1);
  }

  datatype Token =
    | Lit(text: string)           // literal text
    | Spaces(atLeastOne: bool)    // \s+ when atLeastOne, otherwise \s*
    | Digits(min: nat, max: nat)  // \d{min,max}; max == 0 stands for no bound
    | Word(cls: CharClass)        // one or more characters of the class
    | OptDot                      // \.?
    | Quote                       // ["']
    | NonQuotes                   // [^"']+
    | OneOf(words: seq<string>)   // (w1|w2|...): the first alternative that matches

  /** Tokens whose text is reported as a capture group. */
  predicate Captures(t: Token)
  {
    t.Digits? || t.Word? || t.NonQuotes? || t.OneOf?
  }

  function CaptureCount(ts: seq<Token>): nat
  {
    if ts == [] then 0 else (if Captures(ts[0]) then 1 else 0) + CaptureCount(ts[1..])
  }

  lemma {:induction false} CaptureCountAppend(a: seq<Token>, b: seq<Token>)
    ensures CaptureCount(a + b) == CaptureCount(a) + CaptureCount(b)
    decreases |a|
  {
    if a != [] {
      assert (a + b)[1..] == a[1..] + b;
      CaptureCountAppend(a[1..], b);
    } else {
      assert a + b == b;
    }
  }

  /** A pattern; `ignoreCase` is the regular expression's `i` flag, which only
      affects literal text. */
  datatype Pattern = Pattern(tokens: seq<Token>, ignoreCase: bool)

  /** A match of a whole pattern: the matched text is `s[start..end]`. */
  datatype Match = Match(start: nat, end: nat, groups: seq<string>)

  predicate LitAt(s: string, i: nat, lit: string, ignoreCase: bool)
  {
    i + |lit| <= |s| &&
    if ignoreCase then EqualsIgnoreCase(s[i..i + |lit|], lit) else s[i..i + |lit|] == lit
  }

  /** A text that starts with `lit` has `lit` at its start, in either mode. */
  lemma LitAtStart(s: string, lit: string, ignoreCase: bool)
    requires |lit| <= |s| && s[..|lit|] == lit
    ensures LitAt(s, 0, lit, ignoreCase)
  {
    assert s[0..|lit|] == lit;
  }

  /** The first alternative of `words` found at `i`. */
  function FirstWordAt(s: string, i: nat, words: seq<string>, ignoreCase: bool): (r: Option<string>)
    ensures r.Some? ==> r.value in words && LitAt(s, i, r.value, ignoreCase)
    ensures r.None? ==> forall w :: w in words ==> !LitAt(s, i, w, ignoreCase)
  {
    if words == [] then None
    else if LitAt(s, i, words[0], ignoreCase) then Some(words[0])
    else FirstWordAt(s, i, words[1..], ignoreCase)
  }

  /** How many characters token `t` consumes at position `i`, if it matches
      there. A bounded `\d{m,n}` takes at most `n` digits of the run; when the
      run is longer, the token that follows it in every shape here cannot start
      with a digit, so such a match fails one step later, as in JavaScript. */
  function Step(s: string, i: nat, t: Token, ignoreCase: bool): (r: Option<nat>)
    requires i <= |s|
    ensures r.Some? ==> i + r.value <= |s|
  {
    match t
    case Lit(text) => if LitAt(s, i, text, ignoreCase) then Some(|text|) else None
    case Spaces(atLeastOne) =>
      var n := Run(s, i, Space);
      if atLeastOne && n == 0 then None else Some(n)
    case Digits(min, max) =>
      var n := Run(s, i, Digit);
      if n < min then None else Some(if max > 0 && n > max then max else n)
    case Word(cls) =>
      var n := Run(s, i, cls);
      if n == 0 then None else Some(n)
    case OptDot => if i < |s| && s[i] == '.' then Some(1) else Some(0)
    case Quote => if i < |s| && (s[i] == '"' || s[i] == '\'') then Some(1) else None
    case NonQuotes =>
      var n := Run(s, i, NonQuote);
      if n == 0 then None else Some(n)
    case OneOf(words) =>
      match FirstWordAt(s, i, words, ignoreCase)
      case Some(w) => Some(|w|)
      case None => None
  }

  /** Matches the tokens one after the other from position `i`; the result is
      the end of the match and the capture groups, in order. */
  function MatchTokens(s: string, i: nat, ts: seq<Token>, ignoreCase: bool): (r: Option<(nat, seq<string>)>)
    requires i <= |s|
    ensures r.Some? ==> i <= r.value.0 <= |s| && |r.value.1| == CaptureCount(ts)
    decreases |ts|
  {
    if ts == [] then Some((i, []))
    else
      match Step(s, i, ts[0], ignoreCase)
      case None => None
      case Some(n) =>
        match MatchTokens(s, i + n, ts[1..], ignoreCase)
        case None => None
        case Some((e, groups)) =>
          Some((e, if Captures(ts[0]) then [s[i..i + n]] + groups else groups))
  }

  /** One step of `MatchTokens`: the first token consumes `n` characters and
      the rest of the tokens match after them. */
  lemma MatchTokensCons(s: string, i: nat, ts: seq<Token>, ignoreCase: bool, n: nat, e: nat, groups: seq<string>)
    requires i <= |s| && ts != [] && Step(s, i, ts[0], ignoreCase) == Some(n)
    requires MatchTokens(s, i + n, ts[1..], ignoreCase) == Some((e, groups))
    ensures MatchTokens(s, i, ts, ignoreCase)
              == Some((e, if Captures(ts[0]) then [s[i..i + n]] + groups else groups))
  {
  }

  /** The converse of `MatchTokensCons`: a match of a non-empty token sequence
      is a step of its first token followed by a match of the rest. */
  lemma MatchTokensUncons(s: string, i: nat, ts: seq<Token>, ignoreCase: bool) returns (n: nat, e: nat, groups: seq<string>)
    requires i <= |s| && ts != [] && MatchTokens(s, i, ts, ignoreCase).Some?
    ensures Step(s, i, ts[0], ignoreCase) == Some(n) && i + n <= |s|
    ensures MatchTokens(s, i + n, ts[1..], ignoreCase) == Some((e, groups))
    ensures MatchTokens(s, i, ts, ignoreCase)
              == Some((e, if Captures(ts[0]) then [s[i..i + n]] + groups else groups))
  {
    n := Step(s, i, ts[0], ignoreCase).value;
    e, groups := MatchTokens(s, i + n, ts[1..], ignoreCase).value.0, MatchTokens(s, i + n, ts[1..], ignoreCase).value.1;
  }

  /** Matching `a + b` is matching `a`, then `b` where `a` stopped; the groups
      are those of `a` followed by those of `b`. */
  lemma {:induction false} MatchTokensAppend(s: string, i: nat, a: seq<Token>, b: seq<Token>, ignoreCase: bool,
                                             m: nat, e: nat, g1: seq<string>, g2: seq<string>)
    requires i <= |s| && MatchTokens(s, i, a, ignoreCase) == Some((m, g1))
    requires MatchTokens(s, m, b, ignoreCase) == Some((e, g2))
    ensures MatchTokens(s, i, a + b, ignoreCase) == Some((e, g1 + g2))
    decreases |a|
  {
    if a == [] {
      assert m == i && g1 == [];
      assert a + b == b && g1 + g2 == g2;
    } else {
      var n, m', g1' := MatchTokensUncons(s, i, a, ignoreCase);
      MatchTokensAppend(s, i + n, a[1..], b, ignoreCase, m, e, g1', g2);
      AppendFirstStep(s, i, a, b, ignoreCase, n, e, g1, g1', g2);
    }
  }

  /** Matching a word alternative after tokens that match up to `m` extends
      the match by the word found. */
  lemma MatchThenOneOf(s: string, i: nat, head: seq<Token>, words: seq<string>, ignoreCase: bool,
                       m: nat, g: seq<string>, found: string)
    requires i <= |s| && MatchTokens(s, i, head, ignoreCase) == Some((m, g))
    requires FirstWordAt(s, m, words, ignoreCase) == Some(found)
    ensures MatchTokens(s, i, head + [OneOf(words)], ignoreCase).Some?
    ensures MatchTokens(s, i, head + [OneOf(words)], ignoreCase).value.0 == m + |found|
  {
    var tail := [OneOf(words)];
    assert Step(s, m, tail[0], ignoreCase) == Some(|found|);
    assert tail[1..] == [];
    var g2 := if Captures(tail[0]) then [s[m..m + |found|]] + [] else [];
    MatchTokensCons(s, m, tail, ignoreCase, |found|, m + |found|, []);
    MatchTokensAppend(s, i, head, tail, ignoreCase, m, m + |found|, g, g2);
  }

  lemma AppendFirstStep(s: string, i: nat, a: seq<Token>, b: seq<Token>, ignoreCase: bool,
                        n: nat, e: nat, g1: seq<string>, g1': seq<string>, g2: seq<string>)
    requires i <= |s| && a != []
    requires Step(s, i, a[0], ignoreCase) == Some(n)
    requires MatchTokens(s, i + n, a[1..] + b, ignoreCase) == Some((e, g1' + g2))
    requires g1 == if Captures(a[0]) then [s[i..i + n]] + g1' else g1'
    ensures MatchTokens(s, i, a + b, ignoreCase) == Some((e, g1 + g2))
  {
    ConsOfAppend(s, i, a, b, ignoreCase, n, e, g1' + g2);
    if Captures(a[0]) {
      assert [s[i..i + n]] + (g1' + g2) == g1 + g2;
    }
  }

  lemma ConsOfAppend(s: string, i: nat, a: seq<Token>, b: seq<Token>, ignoreCase: bool, n: nat, e: nat, g: seq<string>)
    requires i <= |s| && a != []
    requires Step(s, i, a[0], ignoreCase) == Some(n)
    requires MatchTokens(s, i + n, a[1..] + b, ignoreCase) == Some((e, g))
    ensures MatchTokens(s, i, a + b, ignoreCase) == Some((e, if Captures(a[0]) then [s[i..i + n]] + g else g))
  {
    assert (a + b)[0] == a[0];
    assert (a + b)[1..] == a[1..] + b;
    MatchTokensCons(s, i, a + b, ignoreCase, n, e, g);
  }

  /** The converse of `MatchTokensAppend`: a match of `a + b` is a match of
      `a` followed by a match of `b`. */
  lemma {:induction false} MatchTokensSplit(s: string, i: nat, a: seq<Token>, b: seq<Token>, ignoreCase: bool)
    returns (m: nat, g1: seq<string>, g2: seq<string>)
    requires i <= |s| && MatchTokens(s, i, a + b, ignoreCase).Some?
    ensures m <= |s| && MatchTokens(s, i, a, ignoreCase) == Some((m, g1))
    ensures MatchTokens(s, m, b, ignoreCase) == Some((MatchTokens(s, i, a + b, ignoreCase).value.0, g2))
    ensures MatchTokens(s, i, a + b, ignoreCase).value.1 == g1 + g2
    decreases |a|
  {
    if a == [] {
      assert a + b == b;
      m, g1, g2 := i, [], MatchTokens(s, i, b, ignoreCase).value.1;
    } else {
      var n, e, gs := UnconsAppend(s, i, a, b, ignoreCase);
      var g1';
      m, g1', g2 := MatchTokensSplit(s, i + n, a[1..], b, ignoreCase);
      g1 := SplitFirstStep(s, i, a, ignoreCase, n, m, g1', g2);
    }
  }

  /** `MatchTokensUncons` on `a + b`, stated in terms of `a`. */
  lemma UnconsAppend(s: string, i: nat, a: seq<Token>, b: seq<Token>, ignoreCase: bool) returns (n: nat, e: nat, gs: seq<string>)
    requires i <= |s| && a != [] && MatchTokens(s, i, a + b, ignoreCase).Some?
    ensures Step(s, i, a[0], ignoreCase) == Some(n) && i + n <= |s|
    ensures MatchTokens(s, i + n, a[1..] + b, ignoreCase) == Some((e, gs))
    ensures MatchTokens(s, i, a + b, ignoreCase) == Some((e, if Captures(a[0]) then [s[i..i + n]] + gs else gs))
  {
    n, e, gs := MatchTokensUncons(s, i, a + b, ignoreCase);
    assert (a + b)[0] == a[0] && (a + b)[1..] == a[1..] + b;
  }

  lemma SplitFirstStep(s: string, i: nat, a: seq<Token>, ignoreCase: bool, n: nat, m: nat, g1': seq<string>, g2: seq<string>)
    returns (g1: seq<string>)
    requires i <= |s| && a != [] && Step(s, i, a[0], ignoreCase) == Some(n)
    requires MatchTokens(s, i + n, a[1..], ignoreCase) == Some((m, g1'))
    ensures MatchTokens(s, i, a, ignoreCase) == Some((m, g1))
    ensures (if Captures(a[0]) then [s[i..i + n]] + (g1' + g2) else g1' + g2) == g1 + g2
  {
    MatchTokensCons(s, i, a, ignoreCase, n, m, g1');
    g1 := if Captures(a[0]) then [s[i..i + n]] + g1' else g1';
    if Captures(a[0]) {
      assert [s[i..i + n]] + (g1' + g2) == g1 + g2;
    }
  }

  /** What a `Word` token captures is a non-empty run of its class. */
  lemma WordCapture(s: string, i: nat, cls: CharClass, rest: seq<Token>, ignoreCase: bool)
    requires i <= |s| && MatchTokens(s, i, [Word(cls)] + rest, ignoreCase).Some?
    ensures var g := MatchTokens(s, i, [Word(cls)] + rest, ignoreCase).value.1;
            g != [] && g[0] != [] && forall k :: 0 <= k < |g[0]| ==> InClass(g[0][k], cls)
  {
    var n, e, gs := MatchTokensUncons(s, i, [Word(cls)] + rest, ignoreCase);
    assert ([Word(cls)] + rest)[0] == Word(cls);
    assert n == Run(s, i, cls) && n > 0;
    var w := s[i..i + n];
    forall k | 0 <= k < |w|
      ensures InClass(w[k], cls)
    {
      assert w[k] == s[i + k];
    }
  }

  predicate MatchesAt(s: string, i: nat, p: Pattern)
  {
    i <= |s| && MatchTokens(s, i, p.tokens, p.ignoreCase).Some?
  }

  /** The leftmost match of `p` at or after `from`, as `String.prototype.match`
      (without the `g` flag) reports the first one. */
  function SearchFrom(s: string, p: Pattern, from: nat): (r: Option<Match>)
    requires from <= |s|
    ensures r.Some? ==>
              && from <= r.value.start <= r.value.end <= |s|
              && MatchTokens(s, r.value.start, p.tokens, p.ignoreCase) == Some((r.value.end, r.value.groups))
              && forall j :: from <= j < r.value.start ==> !MatchesAt(s, j, p)
    ensures r.None? ==> forall j :: from <= j <= |s| ==> !MatchesAt(s, j, p)
    decreases |s| - from
  {
    match MatchTokens(s, from, p.tokens, p.ignoreCase)
    case Some((e, groups)) => Some(Match(from, e, groups))
    case None => if from == |s| then None else SearchFrom(s, p, from + 1)
  }

  function Search(s: string, p: Pattern): (r: Option<Match>)
    ensures r.Some? ==>
              && r.value.start <= r.value.end <= |s|
              && |r.value.groups| == CaptureCount(p.tokens)
              && MatchTokens(s, r.value.start, p.tokens, p.ignoreCase) == Some((r.value.end, r.value.groups))
              && MatchesAt(s, r.value.start, p)
              && forall j :: 0 <= j < r.value.start ==> !MatchesAt(s, j, p)
    ensures r.None? <==> forall j :: 0 <= j <= |s| ==> !MatchesAt(s, j, p)
  {
    SearchFrom(s, p, 0)
  }

  /** A pattern that opens with a non-empty literal finds nothing in the
      empty text. */
  lemma NoMatchInEmpty(p: Pattern, lit: string)
    requires p.tokens != [] && p.tokens[0] == Lit(lit) && lit != []
    ensures Search([], p).None?
  {
    assert !MatchesAt([], 0, p);
  }

  /** The text of a match. */
  function Matched(s: string, m: Match): string
    requires m.start <= m.end <= |s|
  {
    s[m.start..m.end]
  }

  /** A pattern that begins with literal text only matches where that text is. */
  lemma MatchNeedsLeadingLit(s: string, j: nat, p: Pattern)
    requires MatchesAt(s, j, p) && p.tokens != [] && p.tokens[0].Lit?
    ensures LitAt(s, j, p.tokens[0].text, p.ignoreCase)
  {
  }

  /** A match at position 0 is the leftmost one. */
  lemma SearchAtStart(s: string, p: Pattern)
    requires MatchTokens(s, 0, p.tokens, p.ignoreCase).Some?
    ensures Search(s, p).Some? && Search(s, p).value.start == 0
  {
  }
}
