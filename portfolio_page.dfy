/** The portfolio page script (assets/js/main.js): the cleaning of review
    text, the GitHub date helpers, the short "time ago" labels, the activity
    streak, the in-memory cache test and the "Charger plus" pagination of
    the reviews. The clock is the `now` parameter; reading a date text is the
    calendar's `read`. */
module PortfolioPage {
  import opened Wrappers
  import opened Text
  import opened FrenchDates
  import opened DateUtils
  import Scraper
  import ReviewRoute
  import ClientCache

  // ---------------------------------------------------------------------
  // cleanHTML

  /** No '<' is followed, anywhere later, by a '>': the text holds no tag. */
  predicate NoTag(s: string)
  {
    forall i, j :: 0 <= i < j < |s| && s[i] == '<' ==> s[j] != '>'
  }

  /** A concatenation holds no tag when neither part does and no '<' of the
      first part meets a '>' of the second. */
  lemma NoTagConcat(a: string, b: string)
    requires NoTag(a) && NoTag(b) && ('<' in a ==> '>' !in b)
    ensures NoTag(a + b)
  {
    forall i, j | 0 <= i < j < |a + b| && (a + b)[i] == '<'
      ensures (a + b)[j] != '>'
    {
      if i < |a| && j >= |a| {
        assert a[i] == '<';
        assert (a + b)[j] == b[j - |a|];
      } else if i >= |a| {
        assert (a + b)[i] == b[i - |a|] && (a + b)[j] == b[j - |a|];
      }
    }
  }

  lemma NoTagSuffix(s: string, k: nat)
    requires NoTag(s) && k <= |s|
    ensures NoTag(s[k..])
  {
    forall i, j | 0 <= i < j < |s[k..]| && s[k..][i] == '<'
      ensures s[k..][j] != '>'
    {
      assert s[k + i] == '<';
    }
  }

  /** Nothing after a '<' of a text without tags is a '>'. */
  lemma NoCloseAfterOpen(s: string, k: nat)
    requires NoTag(s) && 0 < k <= |s| && '<' in s[..k]
    ensures '>' !in s[k..]
  {
    var i :| 0 <= i < k && s[..k][i] == '<';
    assert s[i] == '<';
    forall j | 0 <= j < |s[k..]|
      ensures s[k..][j] != '>'
    {
      assert s[k..][j] == s[k + j];
    }
  }

  /** A pass that continues on a suffix of a text without tags gives a text
      without tags, when the continuation keeps that property. */
  lemma NoTagSuffixKept(s: string, k: nat, r: string)
    requires k <= |s| && (NoTag(s[k..]) ==> NoTag(r))
    ensures NoTag(s) ==> NoTag(r)
  {
    if NoTag(s) {
      NoTagSuffix(s, k);
    }
  }

  /** A pass that keeps the first character and continues on the rest, with
      no '>' that the rest did not have, keeps a text without tags so. */
  lemma KeepFirstNoTag(s: string, r: string)
    requires s != [] && ('>' in r ==> '>' in s[1..]) && (NoTag(s[1..]) ==> NoTag(r))
    ensures NoTag(s) ==> NoTag([s[0]] + r)
  {
    if NoTag(s) {
      NoTagSuffix(s, 1);
      if s[0] == '<' {
        assert s[..1] == [s[0]];
        NoCloseAfterOpen(s, 1);
      }
      NoTagConcat([s[0]], r);
    }
  }

  lemma SpaceFirstNoTag(r: string)
    ensures NoTag(r) ==> NoTag([' '] + r)
  {
    if NoTag(r) {
      NoTagConcat([' '], r);
    }
  }

  lemma NoTagPrefix(s: string, k: nat)
    requires NoTag(s) && k <= |s|
    ensures NoTag(s[..k])
  {
    forall i, j | 0 <= i < j < k && s[..k][i] == '<'
      ensures s[..k][j] != '>'
    {
      assert s[i] == '<';
    }
  }

  /** Trimming keeps a text without tags so. */
  lemma TrimNoTag(s: string)
    requires NoTag(s)
    ensures NoTag(Trim(s))
  {
    var t := TrimStart(s);
    NoTagSuffix(s, |s| - |t|);
    NoTagPrefix(t, |TrimEnd(t)|);
  }

  /** Trimming keeps single-spaced text so. */
  lemma TrimSingleSpaced(s: string)
    requires SingleSpaced(s)
    ensures SingleSpaced(Trim(s))
  {
    var t := TrimStart(s);
    SingleSpacedSlice(s, |s| - |t|, |s|);
    assert t == s[|s| - |t|..|s|];
    SingleSpacedSlice(t, 0, |TrimEnd(t)|);
    assert TrimEnd(t) == t[0..|TrimEnd(t)|];
  }

  lemma SingleSpacedSlice(s: string, i: nat, j: nat)
    requires SingleSpaced(s) && i <= j <= |s|
    ensures SingleSpaced(s[i..j])
  {
    var t := s[i..j];
    forall k | 0 <= k < |t| && IsSpace(t[k])
      ensures t[k] == ' '
    {
      assert t[k] == s[i + k];
    }
    forall k | 0 <= k < |t| - 1 && t[k] == ' '
      ensures t[k + 1] != ' '
    {
      assert t[k] == s[i + k] && t[k + 1] == s[i + k + 1];
    }
  }

  /** The index of the first `c` in `s`. */
  function IndexOf(s: string, c: char): (r: Option<nat>)
    ensures r.Some? ==> r.value < |s| && s[r.value] == c && c !in s[..r.value]
    ensures r.None? ==> c !in s
  {
    if s == [] then None
    else if s[0] == c then Some(0)
    else
      match IndexOf(s[1..], c)
      case None => None
      case Some(k) =>
        assert s[..k + 1] == [s[0]] + s[1..][..k];
        Some(k + 1)
  }

  /** `text.replace(/<[^>]*>/g, '')`: from each '<' that a '>' follows,
      everything up to and including the first such '>' is removed; a '<'
      with no '>' after it stays. */
  function StripTags(s: string): (r: string)
    ensures NoTag(r)
    ensures '<' in r ==> '<' in s
    ensures '>' in r ==> '>' in s
    ensures '<' !in s ==> r == s
    decreases |s|
  {
    if s == [] then []
    else
      var close := IndexOf(s[1..], '>');
      if s[0] == '<' && close.Some? then
        var r := StripTags(s[close.value + 2..]);
        assert forall c :: c in s[close.value + 2..] ==> c in s;
        r
      else
        var rest := StripTags(s[1..]);
        assert forall c :: c in s[1..] ==> c in s;
        assert s[0] == '<' ==> '>' !in s[1..];
        NoTagConcat([s[0]], rest);
        [s[0]] + rest
  }

  /** The length of a match of `name"…"` at the start of `s`, for
      `/name"[^"]*"/` or, with `escaped`, `/name\\?"[^"]*\\?"/`. In the
      second form the closing `\\?` never takes the backslash: `[^"]*` has
      already consumed it. */
  function AttributeAt(s: string, name: string, escaped: bool): (r: Option<nat>)
    ensures r.Some? ==> |name| < r.value <= |s| && '"' in s[..r.value]
  {
    if !StartsWith(s, name) then None
    else
      var open := if escaped && |name| + 1 < |s| && s[|name|] == '\\' && s[|name| + 1] == '"' then |name| + 1 else |name|;
      if open >= |s| || s[open] != '"' then None
      else
        match IndexOf(s[open + 1..], '"')
        case None => None
        case Some(k) =>
          assert s[..open + k + 2][open] == '"';
          Some(open + k + 2)
  }

  /** Global removal of an attribute pattern, leftmost match first. */
  function RemoveAttribute(s: string, name: string, escaped: bool): (r: string)
    ensures forall c :: c in r ==> c in s
    ensures '"' !in s ==> r == s
    ensures NoTag(s) ==> NoTag(r)
    decreases |s|
  {
    if s == [] then []
    else
      match AttributeAt(s, name, escaped)
      case Some(n) =>
        var r := RemoveAttribute(s[n..], name, escaped);
        assert forall c :: c in s[n..] ==> c in s;
        NoTagSuffixKept(s, n, r);
        r
      case None =>
        var r := RemoveAttribute(s[1..], name, escaped);
        assert forall c :: c in s[1..] ==> c in s;
        assert '"' !in s ==> s == [s[0]] + s[1..];
        KeepFirstNoTag(s, r);
        [s[0]] + r
  }

  /** `replace(/\\\\/g, '')`: every pair of backslashes is removed. */
  function RemoveBackslashPairs(s: string): (r: string)
    ensures forall c :: c in r ==> c in s
    ensures '\\' !in s ==> r == s
    ensures NoTag(s) ==> NoTag(r)
    decreases |s|
  {
    if s == [] then []
    else if |s| >= 2 && s[0] == '\\' && s[1] == '\\' then
      var r := RemoveBackslashPairs(s[2..]);
      assert forall c :: c in s[2..] ==> c in s;
      NoTagSuffixKept(s, 2, r);
      r
    else
      var r := RemoveBackslashPairs(s[1..]);
      assert forall c :: c in s[1..] ==> c in s;
      assert '\\' !in s ==> s == [s[0]] + s[1..];
      KeepFirstNoTag(s, r);
      [s[0]] + r
  }

  /** The text's white space is single spaces: no other white-space
      character and no two spaces side by side. */
  predicate SingleSpaced(s: string)
  {
    && (forall i :: 0 <= i < |s| && IsSpace(s[i]) ==> s[i] == ' ')
    && (forall i :: 0 <= i < |s| - 1 && s[i] == ' ' ==> s[i + 1] != ' ')
  }

  /** `replace(/\s+/g, ' ')`: every run of white space becomes one space. */
  function CollapseSpaces(s: string): (r: string)
    ensures forall c :: c in r ==> c in s || c == ' '
    ensures s != [] && !IsSpace(s[0]) ==> r != [] && r[0] == s[0]
    ensures SingleSpaced(r)
    ensures NoTag(s) ==> NoTag(r)
    decreases |s|
  {
    if s == [] then []
    else if IsSpace(s[0]) then
      var rest := TrimStart(s);
      var r := CollapseSpaces(rest);
      assert forall c :: c in rest ==> c in s;
      SpaceBeforeSingleSpaced(r);
      NoTagSuffixKept(s, |s| - |rest|, r);
      SpaceFirstNoTag(r);
      [' '] + r
    else
      var r := CollapseSpaces(s[1..]);
      assert forall c :: c in s[1..] ==> c in s;
      CharBeforeSingleSpaced(s[0], r);
      KeepFirstNoTag(s, r);
      [s[0]] + r
  }

  lemma SpaceBeforeSingleSpaced(r: string)
    requires SingleSpaced(r) && (r == [] || !IsSpace(r[0]))
    ensures SingleSpaced([' '] + r)
  {
    var t := [' '] + r;
    assert forall i :: 1 <= i < |t| ==> t[i] == r[i - 1];
  }

  lemma CharBeforeSingleSpaced(c: char, r: string)
    requires SingleSpaced(r) && !IsSpace(c)
    ensures SingleSpaced([c] + r)
  {
    var t := [c] + r;
    assert forall i :: 1 <= i < |t| ==> t[i] == r[i - 1];
  }

  /** Collapsing changes nothing in single-spaced text. */
  lemma {:induction false} CollapseKeepsSingleSpaced(s: string)
    requires SingleSpaced(s)
    ensures CollapseSpaces(s) == s
    decreases |s|
  {
    if s != [] {
      assert SingleSpaced(s[1..]) by {
        assert forall i :: 0 <= i < |s| - 1 ==> s[1..][i] == s[i + 1];
      }
      CollapseKeepsSingleSpaced(s[1..]);
      if IsSpace(s[0]) {
        assert s[0] == ' ';
        assert TrimStart(s) == s[1..] by {
          if |s| > 1 {
            assert !IsSpace(s[1]);
            TrimStartUnpadded(s[1..]);
          }
        }
        assert CollapseSpaces(s) == [' '] + s[1..];
      } else {
        assert CollapseSpaces(s) == [s[0]] + s[1..];
      }
      assert s == [s[0]] + s[1..];
    }
  }
  /** The three attribute deletions, each in its plain and its escaped
      form. */
  function WithoutAttributes(c: string): (r: string)
    ensures NoTag(c) ==> NoTag(r)
    ensures '"' !in c ==> r == c
  {
    var c1 := RemoveAttribute(RemoveAttribute(c, "class=", false), "class=", true);
    var c2 := RemoveAttribute(RemoveAttribute(c1, "data-testid=", false), "data-testid=", true);
    RemoveAttribute(RemoveAttribute(c2, "href=", false), "href=", true)
  }

  /** The tags removed and the result trimmed. */
  function Untagged(text: string): (r: string)
    ensures NoTag(r)
    ensures '<' !in text ==> r == Trim(text)
  {
    var stripped := StripTags(text);
    TrimNoTag(stripped);
    Trim(stripped)
  }

  /** The text after the tag, attribute and backslash deletions, before
      the check of its start. */
  function Deleted(text: string): (r: string)
    ensures NoTag(r)
  {
    RemoveBackslashPairs(WithoutAttributes(Untagged(text)))
  }

  /** `cleanHTML`: empty for empty text; the text without tags, the three
      attributes and backslash pairs; empty when that starts with "a " or
      "a class"; otherwise single-spaced and trimmed. */
  function CleanHtml(text: string): (r: string)
    ensures text == [] ==> r == []
    ensures StartsWith(Deleted(text), "a ") || StartsWith(Deleted(text), "a class") ==> r == []
    ensures NoTag(r)
    ensures SingleSpaced(r) && (r == [] || (!IsSpace(r[0]) && !IsSpace(r[|r| - 1])))
  {
    if text == [] then []
    else
      var d := Deleted(text);
      if StartsWith(d, "a ") || StartsWith(d, "a class") then []
      else
        var collapsed := CollapseSpaces(d);
        TrimNoTag(collapsed);
        TrimSingleSpaced(collapsed);
        Trim(collapsed)
  }

  /** Text that has no tag, quote or backslash, is single-spaced and trimmed,
      and does not start with "a " is left as it is. */
  lemma CleanHtmlKeepsPlainText(s: string)
    requires '<' !in s && '"' !in s && '\\' !in s
    requires SingleSpaced(s) && (s == [] || (!IsSpace(s[0]) && !IsSpace(s[|s| - 1])))
    requires !StartsWith(s, "a ")
    ensures CleanHtml(s) == s
  {
    DeletedPlainText(s);
    LongerLinkPrefix(s);
    CollapseKeepsSingleSpaced(s);
  }

  /** The deletions leave trimmed text without a tag, quote or backslash as
      it is. */
  lemma DeletedPlainText(s: string)
    requires '<' !in s && '"' !in s && '\\' !in s
    requires s == [] || (!IsSpace(s[0]) && !IsSpace(s[|s| - 1]))
    ensures Deleted(s) == s
  {
    calc {
      Deleted(s);
    ==
      RemoveBackslashPairs(WithoutAttributes(Untagged(s)));
    == { UntaggedPlainText(s); }
      RemoveBackslashPairs(WithoutAttributes(s));
    ==
      RemoveBackslashPairs(s);
    ==
      s;
    }
  }

  lemma UntaggedPlainText(s: string)
    requires '<' !in s
    requires s == [] || (!IsSpace(s[0]) && !IsSpace(s[|s| - 1]))
    ensures Untagged(s) == s
  {
    TrimUnpadded(s);
  }

  lemma LongerLinkPrefix(s: string)
    ensures StartsWith(s, "a class") ==> StartsWith(s, "a ")
  {
    if StartsWith(s, "a class") {
      assert s[0] == 'a' && s[1] == ' ';
    }
  }


  // What the cleaning deletes and what it keeps

  /** `IndexOf` finds the first occurrence. */
  lemma {:induction false} IndexOfIs(s: string, c: char, k: nat)
    requires k < |s| && s[k] == c && c !in s[..k]
    ensures IndexOf(s, c) == Some(k)
    decreases k
  {
    if k > 0 {
      assert s[0] == s[..k][0];
      assert s[1..][..k - 1] == s[..k][1..];
      IndexOfIs(s[1..], c, k - 1);
    }
  }

  /** Text before the first '<' passes through `StripTags` as it is. */
  lemma {:induction false} StripTagsKeepsPrefix(a: string, b: string)
    requires '<' !in a
    ensures StripTags(a + b) == a + StripTags(b)
    decreases |a|
  {
    if a == [] {
      assert a + b == b;
    } else {
      assert a[0] in a && forall c :: c in a[1..] ==> c in a;
      StripTagsKeepsPrefix(a[1..], b);
      StripTagsPlainStep(a, b, StripTags(b));
    }
  }

  lemma StripTagsPlainStep(a: string, b: string, r: string)
    requires a != [] && a[0] != '<' && StripTags(a[1..] + b) == a[1..] + r
    ensures StripTags(a + b) == a + r
  {
    var s := a + b;
    ConsAppend(a, b);
    StripTagsPlainHead(s);
    ConsAppend(a, r);
  }

  lemma StripTagsPlainHead(s: string)
    requires s != [] && s[0] != '<'
    ensures StripTags(s) == [s[0]] + StripTags(s[1..])
  {
  }

  lemma ConsAppend(a: string, r: string)
    requires a != []
    ensures a + r == [a[0]] + (a[1..] + r)
  {
  }

  /** A tag `<…>` at the start is removed whole. */
  lemma StripTagsDropsTag(t: string, b: string)
    requires '>' !in t
    ensures StripTags(['<'] + t + ['>'] + b) == StripTags(b)
  {
    var s := ['<'] + t + ['>'] + b;
    var after := t + ['>'] + b;
    assert s[1..] == after && after[|t|] == '>' && after[..|t|] == t;
    IndexOfIs(after, '>', |t|);
    assert s[|t| + 2..] == b;
  }

  /** `StripTags` removes a tag and keeps the text on both sides of it. */
  lemma StripTagsRemovesTag(a: string, t: string, b: string)
    requires '<' !in a && '>' !in t
    ensures StripTags(a + ['<'] + t + ['>'] + b) == a + StripTags(b)
  {
    assert a + ['<'] + t + ['>'] + b == a + (['<'] + t + ['>'] + b);
    StripTagsKeepsPrefix(a, ['<'] + t + ['>'] + b);
    StripTagsDropsTag(t, b);
  }

  /** Removing the tags of a text with a tag is removing them from the text
      without that tag. */
  lemma UntaggedDropsTag(a: string, t: string, b: string)
    requires '<' !in a && '>' !in t
    ensures Untagged(a + ['<'] + t + ['>'] + b) == Untagged(a + b)
  {
    StripTagsRemovesTag(a, t, b);
    StripTagsKeepsPrefix(a, b);
  }

  /** `cleanHTML` reads a text with a tag as the text without it. */
  lemma CleanHtmlDropsTag(a: string, t: string, b: string)
    requires '<' !in a && '>' !in t
    ensures CleanHtml(a + ['<'] + t + ['>'] + b) == CleanHtml(a + b)
  {
    UntaggedDropsTag(a, t, b);
    var x := a + ['<'] + t + ['>'] + b;
    assert x != [] by { assert |x| == |a| + |t| + |b| + 2; }
    assert Deleted(x) == Deleted(a + b);
    if a + b == [] {
      DeletedEmpty();
      CleanHtmlOfEmptyDeleted(x);
    } else {
      CleanHtmlOfDeleted(x, a + b);
    }
  }

  lemma DeletedEmpty()
    ensures Deleted([]) == []
  {
    assert Untagged([]) == [];
  }

  lemma CleanHtmlOfEmptyDeleted(x: string)
    requires Deleted(x) == []
    ensures CleanHtml(x) == []
  {
    if x != [] {
      var d := Deleted(x);
      assert !StartsWith(d, "a ") && !StartsWith(d, "a class");
      assert CollapseSpaces(d) == [];
      assert Trim(CollapseSpaces(d)) == [];
    }
  }

  /** `s` holds '"' exactly at `p` and `q`. */
  predicate QuotesAt(s: string, p: nat, q: nat)
  {
    && p < q < |s| && s[p] == '"' && s[q] == '"'
    && forall k :: 0 <= k < |s| && s[k] == '"' ==> k == p || k == q
  }

  /** The quotes of `a name"v" b` when no other part has one. */
  lemma FragmentQuotes(a: string, name: string, v: string, b: string)
    requires '"' !in a && '"' !in name && '"' !in v && '"' !in b
    ensures QuotesAt(a + name + ['"'] + v + ['"'] + b, |a| + |name|, |a| + |name| + |v| + 1)
  {
    var s := a + name + ['"'] + v + ['"'] + b;
    var p, q := |a| + |name|, |a| + |name| + |v| + 1;
    forall k | 0 <= k < |s| && k != p && k != q
      ensures s[k] != '"'
    {
      if k < |a| {
        assert s[k] == a[k];
      } else if k < p {
        assert s[k] == name[k - |a|];
      } else if k < q {
        assert s[k] == v[k - p - 1];
      } else {
        assert s[k] == b[k - q - 1];
      }
    }
  }

  /** No attribute match starts at `j` when its opening quote would be the
      last quote, or the first one without the name right before it. */
  lemma AttributeAtMiss(s: string, j: nat, name: string, escaped: bool, p: nat, q: nat)
    requires QuotesAt(s, p, q) && j < |s|
    requires p >= 1 && s[p - 1] != '\\'
    requires j + |name| == p ==> !StartsWith(s[j..], name)
    ensures AttributeAt(s[j..], name, escaped).None?
  {
    var t := s[j..];
    if StartsWith(t, name) {
      var open := if escaped && |name| + 1 < |t| && t[|name|] == '\\' && t[|name| + 1] == '"' then |name| + 1 else |name|;
      assert open < |t| ==> t[open] == s[j + open];
      assert open == |name| + 1 ==> t[|name|] == s[j + |name|];
      if open < |t| && t[open] == '"' {
        assert j + open == q;
        var rest := t[open + 1..];
        forall k | 0 <= k < |rest|
          ensures rest[k] != '"'
        {
          assert rest[k] == s[q + 1 + k];
        }
        assert IndexOf(rest, '"').None?;
      }
    }
  }

  /** A pass that finds no attribute before `i` keeps the text before `i`. */
  lemma {:induction false} RemoveAttributeSkips(s: string, i: nat, name: string, escaped: bool)
    requires i <= |s|
    requires forall j :: 0 <= j < i ==> AttributeAt(s[j..], name, escaped).None?
    ensures RemoveAttribute(s, name, escaped) == s[..i] + RemoveAttribute(s[i..], name, escaped)
    decreases i
  {
    if i == 0 {
      SliceNone(s);
    } else {
      assert AttributeAt(s[0..], name, escaped).None? && s[0..] == s;
      forall j | 0 <= j < i - 1
        ensures AttributeAt(s[1..][j..], name, escaped).None?
      {
        assert s[1..][j..] == s[j + 1..];
      }
      RemoveAttributeSkips(s[1..], i - 1, name, escaped);
      SliceSteps(s, i);
      var rest := RemoveAttribute(s[i..], name, escaped);
      RemoveAttributeMissStep(s, name, escaped, s[1..i] + rest);
      ConsAssoc(s[0], s[1..i], rest);
    }
  }

  lemma RemoveAttributeMissStep(s: string, name: string, escaped: bool, r: string)
    requires s != [] && AttributeAt(s, name, escaped).None? && RemoveAttribute(s[1..], name, escaped) == r
    ensures RemoveAttribute(s, name, escaped) == [s[0]] + r
  {
  }

  lemma SliceNone(s: string)
    ensures s[..0] == [] && s[0..] == s && [] + s == s
  {
  }

  lemma SliceSteps(s: string, i: nat)
    requires 0 < i <= |s|
    ensures s[1..][..i - 1] == s[1..i] && s[1..][i - 1..] == s[i..] && s[..i] == [s[0]] + s[1..i]
  {
  }

  lemma ConsAssoc(c: char, y: string, z: string)
    ensures [c] + y + z == [c] + (y + z)
  {
  }

  /** `name"v"` at the start of a text is one match. */
  lemma AttributeAtFragment(name: string, v: string, b: string, escaped: bool)
    requires '"' !in v
    ensures AttributeAt(name + ['"'] + v + ['"'] + b, name, escaped) == Some(|name| + |v| + 2)
  {
    var s := name + ['"'] + v + ['"'] + b;
    assert s[..|name|] == name && s[|name|] == '"';
    var rest := s[|name| + 1..];
    assert rest == v + ['"'] + b && rest[..|v|] == v;
    IndexOfIs(rest, '"', |v|);
  }

  /** A pass for `name` deletes the one `name"v"` fragment of a text. */
  lemma RemoveAttributeDeletes(a: string, name: string, v: string, b: string, escaped: bool)
    requires '"' !in a && '"' !in name && '"' !in v && '"' !in b
    requires name != [] && name[|name| - 1] != '\\'
    ensures RemoveAttribute(a + name + ['"'] + v + ['"'] + b, name, escaped) == a + b
  {
    var s := a + name + ['"'] + v + ['"'] + b;
    var p, q := |a| + |name|, |a| + |name| + |v| + 1;
    FragmentQuotes(a, name, v, b);
    assert s[p - 1] == name[|name| - 1];
    forall j | 0 <= j < |a|
      ensures AttributeAt(s[j..], name, escaped).None?
    {
      AttributeAtMiss(s, j, name, escaped, p, q);
    }
    RemoveAttributeSkips(s, |a|, name, escaped);
    FragmentAssoc(a, name, v, b);
    FragmentSlices(a, name + ['"'] + v + ['"'], b);
    AttributeAtFragment(name, v, b, escaped);
    assert |name + ['"'] + v + ['"']| == |name| + |v| + 2;
  }

  lemma FragmentAssoc(a: string, name: string, v: string, b: string)
    ensures a + name + ['"'] + v + ['"'] + b == a + (name + ['"'] + v + ['"']) + b
  {
  }

  lemma FragmentSlices(a: string, f: string, b: string)
    ensures (a + f + b)[..|a|] == a && (a + f + b)[|a|..] == f + b && (f + b)[|f|..] == b
  {
  }

  /** A pass for a name whose next-to-last character differs from that of
      the name before the first quote changes nothing. */
  lemma RemoveAttributeMisses(s: string, p: nat, q: nat, other: string, escaped: bool)
    requires QuotesAt(s, p, q) && p >= 2 && s[p - 1] != '\\'
    requires |other| >= 2 && s[p - 2] != other[|other| - 2]
    ensures RemoveAttribute(s, other, escaped) == s
  {
    forall j | 0 <= j < |s|
      ensures AttributeAt(s[j..], other, escaped).None?
    {
      if j + |other| == p && |other| <= |s[j..]| {
        assert s[j..][..|other|][|other| - 2] == s[p - 2];
      }
      AttributeAtMiss(s, j, other, escaped, p, q);
    }
    RemoveAttributeSkips(s, |s|, other, escaped);
    assert s[..|s|] == s && s[|s|..] == [];
  }

  /** The attribute names `cleanHTML` deletes. */
  const AttributeNames: set<string> := {"class=", "data-testid=", "href="}

  /** The six attribute passes delete a `class="…"`, `data-testid="…"` or
      `href="…"` fragment and keep the text on both sides of it. */
  lemma WithoutAttributesDeletes(a: string, name: string, v: string, b: string)
    requires name in AttributeNames
    requires '"' !in a && '"' !in v && '"' !in b
    ensures WithoutAttributes(a + name + ['"'] + v + ['"'] + b) == a + b
  {
    var s := a + name + ['"'] + v + ['"'] + b;
    var p, q := |a| + |name|, |a| + |name| + |v| + 1;
    var cls, tid, href := "class=", "data-testid=", "href=";
    assert cls[4] == 's' && cls[5] == '=' && '"' !in cls;
    assert tid[10] == 'd' && tid[11] == '=' && '"' !in tid;
    assert href[3] == 'f' && href[4] == '=' && '"' !in href;
    FragmentQuotes(a, name, v, b);
    assert s[p - 1] == name[|name| - 1] && s[p - 2] == name[|name| - 2];
    RemoveAttributeDeletes(a, name, v, b, false);
    if name == tid || name == href {
      RemoveAttributeMisses(s, p, q, cls, false);
      RemoveAttributeMisses(s, p, q, cls, true);
    }
    if name == href {
      RemoveAttributeMisses(s, p, q, tid, false);
      RemoveAttributeMisses(s, p, q, tid, true);
    }
  }

  /** `cleanHTML` reads a text with a `class`, `data-testid` or `href`
      fragment inside it as the text without the fragment. */
  lemma CleanHtmlDropsAttribute(a: string, name: string, v: string, b: string)
    requires name in AttributeNames
    requires '<' !in a && '<' !in v && '<' !in b
    requires '"' !in a && '"' !in v && '"' !in b
    requires a != [] && !IsSpace(a[0]) && b != [] && !IsSpace(b[|b| - 1])
    ensures CleanHtml(a + name + ['"'] + v + ['"'] + b) == CleanHtml(a + b)
  {
    var f := name + ['"'] + v + ['"'];
    FragmentAssoc(a, name, v, b);
    assert '<' !in name by {
      assert forall w :: w in AttributeNames ==> '<' !in w;
    }
    assert '<' !in f by {
      FragmentChars(name, v, '<');
    }
    var s, t := a + f + b, a + b;
    PlainAround(a, f, b);
    WithoutAttributesDeletes(a, name, v, b);
    assert Untagged(s) == s && WithoutAttributes(s) == t;
    PlainAround(a, [], b);
    NotInAppend(a, b, '"');
    assert Untagged(t) == t && WithoutAttributes(t) == t;
    assert Deleted(s) == Deleted(t);
    CleanHtmlOfDeleted(s, t);
  }

  lemma NotInAppend(a: string, b: string, c: char)
    requires c !in a && c !in b
    ensures c !in a + b && a + [] + b == a + b
  {
  }

  /** The characters of `name"v"`. */
  lemma FragmentChars(name: string, v: string, c: char)
    requires c != '"' && c !in name && c !in v
    ensures c !in name + ['"'] + v + ['"']
  {
  }

  /** Tag-free text between two non-space ends is its own `Untagged` form. */
  lemma PlainAround(a: string, f: string, b: string)
    requires '<' !in a && '<' !in f && '<' !in b
    requires a != [] && !IsSpace(a[0]) && b != [] && !IsSpace(b[|b| - 1])
    ensures Untagged(a + f + b) == a + f + b
  {
    var s := a + f + b;
    assert '<' !in s && s[0] == a[0] && s[|s| - 1] == b[|b| - 1];
    UntaggedPlainText(s);
  }

  /** `cleanHTML` depends on a non-empty text only through its deletions. */
  lemma CleanHtmlOfDeleted(x: string, y: string)
    requires x != [] && y != [] && Deleted(x) == Deleted(y)
    ensures CleanHtml(x) == CleanHtml(y)
  {
  }

  /** The characters of a text that are not white space, in order. */
  function NonSpaces(s: string): string
  {
    if s == [] then [] else (if IsSpace(s[0]) then [] else [s[0]]) + NonSpaces(s[1..])
  }

  lemma {:induction false} NonSpacesTrimStart(s: string)
    ensures NonSpaces(TrimStart(s)) == NonSpaces(s)
    decreases |s|
  {
    if s != [] && IsSpace(s[0]) {
      NonSpacesTrimStart(s[1..]);
    }
  }

  /** Collapsing white space keeps every other character, in order. */
  lemma {:induction false} CollapseKeepsNonSpaces(s: string)
    ensures NonSpaces(CollapseSpaces(s)) == NonSpaces(s)
    decreases |s|
  {
    if s != [] {
      var r := CollapseSpaces(s);
      if IsSpace(s[0]) {
        var rest := TrimStart(s);
        CollapseKeepsNonSpaces(rest);
        NonSpacesTrimStart(s);
        assert r[1..] == CollapseSpaces(rest);
      } else {
        CollapseKeepsNonSpaces(s[1..]);
        assert r[1..] == CollapseSpaces(s[1..]);
      }
    }
  }

  /** Trimming the start of a text that has a non-space character stops
      inside it. */
  lemma {:induction false} TrimStartAppend(a: string, b: string)
    requires a != [] && !IsSpace(a[|a| - 1])
    ensures TrimStart(a + b) == TrimStart(a) + b
    decreases |a|
  {
    if IsSpace(a[0]) {
      assert (a + b)[1..] == a[1..] + b;
      TrimStartAppend(a[1..], b);
    }
  }

  /** Collapsing splits after a character that is not white space. */
  lemma {:induction false} CollapseSplit(a: string, b: string)
    requires a == [] || !IsSpace(a[|a| - 1])
    ensures CollapseSpaces(a + b) == CollapseSpaces(a) + CollapseSpaces(b)
    decreases |a|
  {
    if a != [] {
      if IsSpace(a[0]) {
        TrimStartAppend(a, b);
        var t := TrimStart(a);
        TrimStartSpaces(a);
        assert |t| >= 1;
        assert t[|t| - 1] == a[|a| - 1];
        CollapseSplit(t, b);
        assert CollapseSpaces(a + b) == [' '] + CollapseSpaces(t + b);
        assert CollapseSpaces(a) == [' '] + CollapseSpaces(t);
        ConsAssoc(' ', CollapseSpaces(t), CollapseSpaces(b));
      } else {
        assert (a + b)[0] == a[0] && (a + b)[1..] == a[1..] + b;
        CollapseSplit(a[1..], b);
        assert CollapseSpaces(a + b) == [a[0]] + CollapseSpaces(a[1..] + b);
        ConsAssoc(a[0], CollapseSpaces(a[1..]), CollapseSpaces(b));
      }
    } else {
      SliceNone(b);
      SliceNone(CollapseSpaces(b));
    }
  }

  /** `replace(/\s+/g, ' ')` replaces each maximal run of white space,
      whatever its characters and length, by one space. */
  lemma CollapsesRun(a: string, w: string, b: string)
    requires a == [] || !IsSpace(a[|a| - 1])
    requires w != [] && forall k :: 0 <= k < |w| ==> IsSpace(w[k])
    requires b == [] || !IsSpace(b[0])
    ensures CollapseSpaces(a + w + b) == CollapseSpaces(a) + [' '] + CollapseSpaces(b)
  {
    Assoc3(a, w, b);
    CollapseSplit(a, w + b);
    WhiteThenText(w, b);
    assert (w + b)[0] == w[0];
    CollapseRunStep(w + b, b);
    Assoc3(CollapseSpaces(a), [' '], CollapseSpaces(b));
  }

  lemma CollapseRunStep(x: string, b: string)
    requires x != [] && IsSpace(x[0]) && TrimStart(x) == b
    ensures CollapseSpaces(x) == [' '] + CollapseSpaces(b)
  {
  }

  lemma Assoc3(a: string, w: string, b: string)
    ensures a + w + b == a + (w + b)
  {
  }

  lemma {:induction false} WhiteThenText(w: string, b: string)
    requires forall k :: 0 <= k < |w| ==> IsSpace(w[k])
    requires b == [] || !IsSpace(b[0])
    ensures TrimStart(w + b) == b
    decreases |w|
  {
    if w == [] {
      assert w + b == b;
    } else {
      assert (w + b)[0] == w[0] && (w + b)[1..] == w[1..] + b;
      WhiteThenText(w[1..], b);
    }
  }

  // ---------------------------------------------------------------------
  // parseGitHubDate and extractGitHubDate

  /** `parseGitHubDate`: the instant of a string whose trimmed form starts
      with YYYY-MM-DD and reads as a valid date; nothing for any other value
      (the empty string, a `Date`, a number, `null`). */
  function ParseGitHubDate(arg: DateArg, cal: Calendar): (r: Option<int>)
    ensures r.Some? <==> arg.TextArg? && IsIsoDatePrefix(Trim(arg.text)) && cal.read(Trim(arg.text)).Some?
    ensures r.Some? ==> r == cal.read(Trim(arg.text))
  {
    match arg
    case TextArg(t) =>
      if t == [] then None
      else
        var cleaned := Trim(t);
        if !IsIsoDatePrefix(cleaned) then None else cal.read(cleaned)
    case _ => None
  }

  /** Surrounding white space does not change what `parseGitHubDate` reads. */
  lemma GitHubDateIgnoresPadding(t: string, cal: Calendar)
    ensures ParseGitHubDate(TextArg(Trim(t)), cal) == ParseGitHubDate(TextArg(t), cal)
  {
    TrimIdempotent(t);
  }

  /** `isValidDate` of `extractGitHubDate`: a string that `parseGitHubDate`
      reads. */
  predicate IsValidDate(s: Option<string>, cal: Calendar)
  {
    s.Some? && s.value != [] && ParseGitHubDate(TextArg(s.value), cal).Some?
  }

  /** The date fields of a repository as the GitHub API returns them. */
  datatype Repo = Repo(pushedAt: Option<string>, updatedAt: Option<string>, createdAt: Option<string>)

  /** The candidate dates in the order they are tried: the commit author's
      date (when a commit with an author date is given), then `pushed_at`,
      `updated_at` and `created_at`. */
  function Candidates(repo: Repo, commitDate: Option<string>): seq<Option<string>>
  {
    [commitDate, repo.pushedAt, repo.updatedAt, repo.createdAt]
  }

  /** The first date of `cs` that `valid` accepts, read from left to right;
      `valid` never accepts a missing date. */
  function FirstValid(cs: seq<Option<string>>, valid: Option<string> -> bool): Option<string>
  {
    if cs == [] then None
    else if valid(cs[0]) then cs[0]
    else FirstValid(cs[1..], valid)
  }

  /** `FirstValid` is nothing exactly when no date is accepted, and
      otherwise the accepted date that has no accepted one before it. */
  lemma {:induction false} FirstValidIsFirst(cs: seq<Option<string>>, valid: Option<string> -> bool)
    requires forall j :: 0 <= j < |cs| && valid(cs[j]) ==> cs[j].Some?
    ensures FirstValid(cs, valid).None? <==> forall j :: 0 <= j < |cs| ==> !valid(cs[j])
    ensures forall i :: 0 <= i < |cs| && valid(cs[i]) && (forall j :: 0 <= j < i ==> !valid(cs[j]))
                        ==> FirstValid(cs, valid) == cs[i]
  {
    if cs != [] {
      FirstValidIsFirst(cs[1..], valid);
      assert forall j :: 1 <= j < |cs| ==> cs[1..][j - 1] == cs[j];
      if !valid(cs[0]) {
        forall i | 0 <= i < |cs| && valid(cs[i]) && (forall j :: 0 <= j < i ==> !valid(cs[j]))
          ensures FirstValid(cs, valid) == cs[i]
        {
          assert forall j :: 0 <= j < i - 1 ==> cs[1..][j] == cs[j + 1];
        }
      }
    }
  }

  /** `extractGitHubDate`: the commit date, `pushed_at`, `updated_at` and
      `created_at` are tried in this order and the first valid one is
      returned as it is written; nothing when none is valid. */
  function ExtractGitHubDate(repo: Repo, commitDate: Option<string>, cal: Calendar): (r: Option<string>)
    ensures r.None? <==> forall j :: 0 <= j < 4 ==> !IsValidDate(Candidates(repo, commitDate)[j], cal)
    ensures forall i :: 0 <= i < 4 && IsValidDate(Candidates(repo, commitDate)[i], cal)
                        && (forall j :: 0 <= j < i ==> !IsValidDate(Candidates(repo, commitDate)[j], cal))
                        ==> r == Candidates(repo, commitDate)[i]
  {
    var c := Candidates(repo, commitDate);
    FirstValidIsFirst(c, ValidDate(cal));
    FirstValid(c, ValidDate(cal))
  }

  /** `isValidDate` as a test on candidates. */
  function ValidDate(cal: Calendar): Option<string> -> bool
  {
    d => IsValidDate(d, cal)
  }

  /** A valid commit date wins over every repository field, and the
      extracted date always reads back as an instant. */
  lemma CommitDateFirst(repo: Repo, commitDate: string, cal: Calendar)
    requires IsValidDate(Some(commitDate), cal)
    ensures ExtractGitHubDate(repo, Some(commitDate), cal) == Some(commitDate)
    ensures ParseGitHubDate(TextArg(commitDate), cal).Some?
  {
  }

  /** Without a commit date, `created_at` is used only when `pushed_at` and
      `updated_at` are both invalid. */
  lemma CreatedAtLast(repo: Repo, cal: Calendar)
    requires repo.createdAt != repo.pushedAt && repo.createdAt != repo.updatedAt && repo.createdAt.Some?
    ensures ExtractGitHubDate(repo, None, cal) == repo.createdAt <==>
              !IsValidDate(repo.pushedAt, cal) && !IsValidDate(repo.updatedAt, cal) && IsValidDate(repo.createdAt, cal)
  {
    var v := ValidDate(cal);
    var c := Candidates(repo, None);
    var c1, c2, c3 := c[1..], c[2..], c[3..];
    assert c2 == c1[1..] && c3 == c2[1..] && c3[1..] == [];
    assert ExtractGitHubDate(repo, None, cal) == FirstValid(c1, v) by {
      assert !v(c[0]);
    }
    if !v(repo.pushedAt) {
      assert FirstValid(c1, v) == FirstValid(c2, v);
      if !v(repo.updatedAt) {
        assert FirstValid(c2, v) == FirstValid(c3, v);
      }
    }
  }

  // ---------------------------------------------------------------------
  // getTimeAgo

  /** The buckets of the short "time ago" label, with their counts. */
  datatype Ago = JustNow | Minutes(n: nat) | Hours(n: nat) | Yesterday | Days(n: nat)
               | Weeks(n: nat) | Months(n: nat) | Years(n: nat)

  /** The bucket `getTimeAgo` picks for `e` elapsed milliseconds, as it is
      written: weeks while there are fewer than 4, months while there are
      fewer than 12 of 30 days, then years of 365 days. */
  function AgoBucketAsWritten(e: nat): Ago
  {
    var seconds := e / 1000;
    if seconds < 60 then JustNow
    else
      var minutes := seconds / 60;
      if minutes < 60 then Minutes(minutes)
      else
        var hours := minutes / 60;
        if hours < 24 then Hours(hours)
        else
          var days := hours / 24;
          if days == 1 then Yesterday
          else if days < 14 then Days(days)
          else
            var weeks := days / 7;
            if weeks < 4 then Weeks(weeks)
            else
              var months := days / 30;
              if months < 12 then Months(months) else Years(days / 365)
  }

  /** At 28 and 29 days the label reads "0 mois", and from 360 to 364 days
      "0 an". */
  lemma AsWrittenZeroCounts()
    ensures AgoBucketAsWritten(28 * DayMs) == Months(0)
    ensures AgoBucketAsWritten(29 * DayMs) == Months(0)
    ensures AgoBucketAsWritten(360 * DayMs) == Years(0)
    ensures AgoBucketAsWritten(364 * DayMs) == Years(0)
  {
    Floors(28 * DayMs);
    Floors(29 * DayMs);
    Floors(360 * DayMs);
    Floors(364 * DayMs);
  }

  /** The bucket with the evident intent: weeks until the first full month
      of 30 days, months until the first full year of 365 days, so that
      every count is at least 1. */
  function AgoBucket(e: nat): (r: Ago)
    ensures r == JustNow <==> e < 60000
    ensures r.Minutes? <==> 60000 <= e < 3600000
    ensures r.Hours? <==> 3600000 <= e < DayMs
    ensures r == Yesterday <==> DayMs <= e < 2 * DayMs
    ensures r.Days? <==> 2 * DayMs <= e < 14 * DayMs
    ensures r.Weeks? <==> 14 * DayMs <= e < 30 * DayMs
    ensures r.Months? <==> 30 * DayMs <= e < 365 * DayMs
    ensures r.Years? <==> 365 * DayMs <= e
    ensures r.Minutes? ==> r.n == e / 60000 && 1 <= r.n < 60
    ensures r.Hours? ==> r.n == e / 3600000 && 1 <= r.n < 24
    ensures r.Days? ==> r.n == e / DayMs && 2 <= r.n < 14
    ensures r.Weeks? ==> r.n == e / (7 * DayMs) && 2 <= r.n <= 4
    ensures r.Months? ==> r.n == e / DayMs / 30 && 1 <= r.n <= 12
    ensures r.Years? ==> r.n == e / DayMs / 365 && r.n >= 1
  {
    Floors(e);
    WeekFloor(e);
    var days := e / 1000 / 60 / 60 / 24;
    assert DayMs * days <= e < DayMs * days + DayMs;
    var seconds := e / 1000;
    if seconds < 60 then JustNow
    else
      var minutes := seconds / 60;
      if minutes < 60 then Minutes(minutes)
      else
        var hours := minutes / 60;
        if hours < 24 then Hours(hours)
        else
          if days == 1 then Yesterday
          else if days < 14 then Days(days)
          else if days < 30 then Weeks(days / 7)
          else if days < 365 then Months(days / 30)
          else Years(days / 365)
  }

  /** Outside 28-29 and 360-364 days, the label is the one written. */
  lemma AsWrittenAgreesElsewhere(e: nat)
    requires !(28 * DayMs <= e < 30 * DayMs) && !(360 * DayMs <= e < 365 * DayMs)
    ensures AgoBucketAsWritten(e) == AgoBucket(e)
  {
    Floors(e);
    WeekFloor(e);
    var days := e / DayMs;
    assert DayMs * days <= e < DayMs * days + DayMs;
  }

  /** The label text of a bucket. */
  function AgoLabel(a: Ago): string
  {
    match a
    case JustNow => "À l'instant"
    case Minutes(n) => NatToString(n) + " min"
    case Hours(n) => NatToString(n) + "h"
    case Yesterday => "Hier"
    case Days(n) => NatToString(n) + "j"
    case Weeks(n) => NatToString(n) + " sem"
    case Months(n) => NatToString(n) + " mois"
    case Years(n) => NatToString(n) + " an" + (if n > 1 then "s" else "")
  }

  /** The instant `getTimeAgo` reads from its argument: a string goes
      through `parseGitHubDate` first and `new Date` after; a `Date` is
      taken as it is; anything else, the empty string and an invalid date
      give none. */
  function AgoTime(arg: DateArg, cal: Calendar): (r: Option<int>)
    ensures ParseGitHubDate(arg, cal).Some? ==> r == ParseGitHubDate(arg, cal)
    ensures arg.TextArg? && arg.text != [] && ParseGitHubDate(arg, cal).None? ==> r == cal.read(arg.text)
    ensures arg.DateObject? ==> r == arg.time
    ensures arg.NoValue? || arg.OtherArg? || arg == TextArg([]) ==> r.None?
  {
    match arg
    case TextArg(t) =>
      if t == [] then None
      else
        var parsed := ParseGitHubDate(arg, cal);
        if parsed.Some? then parsed else cal.read(t)
    case DateObject(time) => time
    case _ => None
  }

  /** `getTimeAgo` of main.js at the instant `now`: nothing for an
      unreadable argument and for a date in the future; otherwise the label
      of the elapsed time's bucket. */
  function GetTimeAgo(arg: DateArg, now: int, cal: Calendar): (r: Option<string>)
    ensures r.None? <==> AgoTime(arg, cal).None? || now < AgoTime(arg, cal).value
    ensures r.Some? ==> r.value == AgoLabel(AgoBucket(now - AgoTime(arg, cal).value))
  {
    match AgoTime(arg, cal)
    case None => None
    case Some(ms) =>
      SecondsSign(now - ms);
      if (now - ms) / 1000 < 0 then None else Some(AgoLabel(AgoBucket(now - ms)))
  }

  lemma SecondsSign(e: int)
    ensures e / 1000 < 0 <==> e < 0
  {
  }

  /** A GitHub date read back just now shows "À l'instant", and one a day
      old "Hier". */
  lemma GitHubDateAgo(t: string, cal: Calendar, now: int)
    requires IsIsoDatePrefix(Trim(t)) && cal.read(Trim(t)).Some?
    ensures 0 <= now - cal.read(Trim(t)).value < 60000 ==> GetTimeAgo(TextArg(t), now, cal) == Some("À l'instant")
    ensures DayMs <= now - cal.read(Trim(t)).value < 2 * DayMs ==> GetTimeAgo(TextArg(t), now, cal) == Some("Hier")
  {
  }

  // ---------------------------------------------------------------------
  // isCacheValid

  /** `isCacheValid(lastFetch, duration)` at `now`: a fetch instant that is
      set (not `null`, not 0) and less than `duration` ago. */
  predicate IsCacheValid(lastFetch: Option<int>, duration: int, now: int)
  {
    lastFetch.Some? && lastFetch.value != 0 && now - lastFetch.value < duration
  }

  /** The in-memory test agrees with the stored-entry test of the client
      cache for the same instant and duration. */
  lemma CacheValidAsStoredEntry<V>(lastFetch: int, key: string, value: V, now: int)
    ensures IsCacheValid(Some(lastFetch), ClientCache.Duration(key), now)
              == ClientCache.Fresh(ClientCache.Entry(Some(lastFetch), value), key, now)
  {
  }

  /** Once a fetch is too old it stays too old; it is valid again earlier. */
  lemma CacheValidityExpires(lastFetch: Option<int>, duration: int, now: int, later: int)
    requires now <= later
    ensures IsCacheValid(lastFetch, duration, later) ==> IsCacheValid(lastFetch, duration, now)
    ensures lastFetch.Some? && lastFetch.value != 0 ==>
              (IsCacheValid(lastFetch, duration, now) <==> now < lastFetch.value + duration)
  {
  }

  // ---------------------------------------------------------------------
  // calculateStreak

  /** A GitHub event with its `created_at` field, when it has one. */
  datatype GitHubEvent = GitHubEvent(createdAt: Option<string>)

  /** The day number (days since the epoch) of an instant, as the date part
      of its ISO text counts days. */
  function DayOf(ms: int): int
  {
    ms / DayMs
  }

  /** The days `day` gives for the elements of `xs`, skipping those it
      gives none for. */
  function DaysOf<T>(xs: seq<T>, day: T -> Option<int>): set<int>
  {
    if xs == [] then {}
    else
      var front := DaysOf(xs[..|xs| - 1], day);
      match day(xs[|xs| - 1])
      case None => front
      case Some(d) => front + {d}
  }

  /** A day is in `DaysOf` exactly when some element gives it. */
  lemma {:induction false} DaysOfExactly<T>(xs: seq<T>, day: T -> Option<int>, d: int)
    ensures d in DaysOf(xs, day) <==> exists k :: 0 <= k < |xs| && day(xs[k]) == Some(d)
  {
    if xs != [] {
      var n := |xs| - 1;
      var front := xs[..n];
      DaysOfExactly(front, day, d);
      if d in DaysOf(xs, day) {
        if d in DaysOf(front, day) {
          var k :| 0 <= k < |front| && day(front[k]) == Some(d);
          assert xs[k] == front[k];
        } else {
          assert day(xs[n]) == Some(d);
        }
      }
      if exists k :: 0 <= k < |xs| && day(xs[k]) == Some(d) {
        var k :| 0 <= k < |xs| && day(xs[k]) == Some(d);
        if k < n {
          assert front[k] == xs[k];
        }
      }
    }
  }

  /** The days on which some event happened, for the events whose date
      `parseGitHubDate` reads. */
  function EventDays(events: seq<GitHubEvent>, cal: Calendar): set<int>
  {
    DaysOf(events, e => EventDay(e, cal))
  }

  /** A day is an event day exactly when some event's date falls on it. */
  lemma EventDaysExactly(events: seq<GitHubEvent>, cal: Calendar, d: int)
    ensures d in EventDays(events, cal) <==> exists k :: 0 <= k < |events| && EventDay(events[k], cal) == Some(d)
  {
    DaysOfExactly(events, e => EventDay(e, cal), d);
  }

  function EventDay(e: GitHubEvent, cal: Calendar): Option<int>
  {
    if e.createdAt.None? || e.createdAt.value == [] then None
    else
      match ParseGitHubDate(TextArg(e.createdAt.value), cal)
      case None => None
      case Some(ms) => Some(DayOf(ms))
  }

  /** The number of consecutive days `d`, `d - 1`, ... present in `days`,
      at most `n` of them. */
  function RunBack(days: set<int>, d: int, n: nat): (r: nat)
    ensures r <= n
    decreases n
  {
    if n == 0 || d !in days then 0 else 1 + RunBack(days, d - 1, n - 1)
  }

  /** The streak of `days` at `today`: today counts when present but its
      absence does not end the run; the run back from yesterday stops at the
      first missing day, within 365 days in all. */
  function Streak(days: set<int>, today: int): nat
  {
    (if today in days then 1 else 0) + RunBack(days, today - 1, 364)
  }

  /** A run of `k` present days down from `d` that ends at a missing day,
      or at the bound, has length `k`. */
  lemma {:induction false} RunBackExact(days: set<int>, d: int, n: nat, k: nat)
    requires k <= n
    requires forall x :: d - k < x <= d ==> x in days
    requires k < n ==> d - k !in days
    ensures RunBack(days, d, n) == k
    decreases n
  {
    if k > 0 {
      assert d in days;
      RunBackExact(days, d - 1, n - 1, k - 1);
    }
  }

  /** Every day of a run is present. */
  lemma {:induction false} RunBackPresent(days: set<int>, d: int, n: nat, x: int)
    requires d - RunBack(days, d, n) < x <= d
    ensures x in days
    decreases n
  {
    if x < d {
      RunBackPresent(days, d - 1, n - 1, x);
    }
  }

  /** One more event adds its day, if it has one. */
  lemma EventDaysStep(events: seq<GitHubEvent>, k: nat, cal: Calendar)
    requires k < |events|
    ensures EventDays(events[..k + 1], cal)
              == if EventDay(events[k], cal).Some? then EventDays(events[..k], cal) + {EventDay(events[k], cal).value}
                 else EventDays(events[..k], cal)
  {
    assert events[..k + 1][..k] == events[..k];
  }

  /** The first loop of `calculateStreak`: the day of every event whose
      `created_at` parses. */
  method CollectEventDays(events: seq<GitHubEvent>, cal: Calendar) returns (dateSet: set<int>)
    ensures dateSet == EventDays(events, cal)
  {
    dateSet := {};
    var k := 0;
    while k < |events|
      invariant 0 <= k <= |events|
      invariant dateSet == EventDays(events[..k], cal)
    {
      EventDaysStep(events, k, cal);
      var event := events[k];
      if event.createdAt.Some? && event.createdAt.value != [] {
        var eventDate := ParseGitHubDate(TextArg(event.createdAt.value), cal);
        if eventDate.Some? {
          dateSet := dateSet + {DayOf(eventDate.value)};
        }
      }
      k := k + 1;
    }
    assert events[..k] == events;
  }

  /** `calculateStreak` at `now`: the days of the events, then the walk back
      from today that stops at the first missing day after today. */
  method CalculateStreak(events: seq<GitHubEvent>, now: int, cal: Calendar) returns (streak: nat)
    ensures streak == Streak(EventDays(events, cal), DayOf(now))
  {
    var dateSet := CollectEventDays(events, cal);
    streak := CountStreak(dateSet, DayOf(now));
  }

  /** The second loop of `calculateStreak`: the walk back from `today` over
      at most 365 days. */
  method CountStreak(dateSet: set<int>, today: int) returns (streak: nat)
    ensures streak == Streak(dateSet, today)
  {
    streak := 0;
    var i := 0;
    while i < 365
      invariant 0 <= i <= 365
      invariant forall x :: today - i < x < today ==> x in dateSet
      invariant streak == (if i == 0 then 0 else (if today in dateSet then 1 else 0) + (i - 1))
    {
      if today - i in dateSet {
        streak := streak + 1;
      } else if i > 0 {
        RunBackExact(dateSet, today - 1, 364, i - 1);
        return;
      }
      i := i + 1;
    }
    RunBackExact(dateSet, today - 1, 364, 364);
  }

  /** The streak never exceeds 365 days, and a missing day `k` days back
      bounds it by `k`: the days in between and today. */
  lemma StreakBounds(days: set<int>, today: int, k: nat)
    requires 1 <= k && today - k !in days
    ensures Streak(days, today) <= 365
    ensures Streak(days, today) <= k
  {
    if RunBack(days, today - 1, 364) >= k {
      RunBackPresent(days, today - 1, 364, today - k);
    }
  }

  /** The days counted back from yesterday are all event days. */
  lemma StreakDaysPresent(days: set<int>, today: int, x: int)
    requires today - Streak(days, today) + (if today in days then 1 else 0) <= x < today
    ensures x in days
  {
    RunBackPresent(days, today - 1, 364, x);
  }

  /** A missing today does not stop the count: the streak is then the run
      back from yesterday. */
  lemma StreakWithoutToday(days: set<int>, today: int, k: nat)
    requires today !in days && k <= 364
    requires forall x :: today - k <= x < today ==> x in days
    requires k < 364 ==> today - (k + 1) !in days
    ensures Streak(days, today) == k
  {
    RunBackExact(days, today - 1, 364, k);
  }

  // ---------------------------------------------------------------------
  // Review pagination

  type Review = Scraper.Review

  /** Reviews per page. */
  const PerPage: nat := 5

  /** A review `displayRecentReviews` shows: its title is not blank, that
      is, it trims to something (`Text.TrimNonEmpty`). */
  predicate Displayable(r: Review)
  {
    HasNonSpace(r.title)
  }

  /** The displayable reviews, in order. */
  function ValidOnly(rs: seq<Review>): (r: seq<Review>)
    ensures |r| <= |rs|
  {
    if rs == [] then []
    else (if Displayable(rs[0]) then [rs[0]] else []) + ValidOnly(rs[1..])
  }

  /** The filter keeps exactly the displayable reviews. */
  lemma {:induction false} ValidOnlyMembers(rs: seq<Review>)
    ensures forall x :: x in ValidOnly(rs) <==> x in rs && Displayable(x)
  {
    if rs != [] {
      ValidOnlyMembers(rs[1..]);
      assert rs == [rs[0]] + rs[1..];
    }
  }

  lemma {:induction false} ValidOnlyAppend(a: seq<Review>, b: seq<Review>)
    ensures ValidOnly(a + b) == ValidOnly(a) + ValidOnly(b)
  {
    if a != [] {
      assert (a + b)[0] == a[0];
      assert (a + b)[1..] == a[1..] + b;
      ValidOnlyAppend(a[1..], b);
      var head := if Displayable(a[0]) then [a[0]] else [];
      assert ValidOnly(a + b) == head + ValidOnly(a[1..] + b);
      assert ValidOnly(a) == head + ValidOnly(a[1..]);
    } else {
      assert a + b == b;
    }
  }

  /** The next page continues the pages shown so far. */
  lemma NextPageAppends(all: seq<Review>, page: nat)
    ensures ValidOnly(ReviewRoute.Page(all, 0, PerPage * page)) + ValidOnly(ReviewRoute.Page(all, PerPage * page, PerPage))
              == ValidOnly(ReviewRoute.Page(all, 0, PerPage * (page + 1)))
  {
    ReviewRoute.PageSplit(all, 0, PerPage * page, PerPage);
    ValidOnlyAppend(ReviewRoute.Page(all, 0, PerPage * page), ReviewRoute.Page(all, PerPage * page, PerPage));
  }

  /** The "Charger plus" button is shown exactly while some review is not
      yet on the pages shown: from the last page on, every displayable
      review is displayed. */
  lemma LoadMoreUntilAllShown(all: seq<Review>, page: nat)
    ensures page >= ReviewRoute.CeilDiv(|all|, PerPage) ==> ReviewRoute.Page(all, 0, PerPage * page) == all
    ensures page < ReviewRoute.CeilDiv(|all|, PerPage) ==> |ReviewRoute.Page(all, 0, PerPage * page)| < |all|
  {
    var n := ReviewRoute.CeilDiv(|all|, PerPage);
    if page >= n {
      ReviewRoute.MulMonotone(n, page, PerPage);
      assert all[0..|all|] == all;
    } else {
      ReviewRoute.MulMonotone(page, n - 1, PerPage);
    }
  }

  /** The API fallback of `loadMoreReviews` as it is written: the offset of
      the page already shown, as `currentPage` is not advanced. */
  function ServerPageAsWritten(server: seq<Review>, currentPage: nat): seq<Review>
    requires currentPage >= 1
  {
    ReviewRoute.Page(server, (currentPage - 1) * PerPage, PerPage)
  }

  /** Every review the fallback request as written brings back is already
      shown; the request of the next page brings back none of them when
      reviews are distinct. */
  lemma AsWrittenFallbackRepeats(server: seq<Review>, currentPage: nat)
    requires currentPage >= 1
    ensures forall x :: x in ServerPageAsWritten(server, currentPage) ==> x in ReviewRoute.Page(server, 0, PerPage * currentPage)
    ensures ReviewRoute.Page(server, 0, PerPage * currentPage) + ReviewRoute.Page(server, PerPage * currentPage, PerPage)
              == ReviewRoute.Page(server, 0, PerPage * (currentPage + 1))
  {
    ReviewRoute.PageSplit(server, 0, (currentPage - 1) * PerPage, PerPage);
    assert (currentPage - 1) * PerPage + PerPage == PerPage * currentPage;
    ReviewRoute.PageSplit(server, 0, PerPage * currentPage, PerPage);
  }

  /** `shown` is the displayable part of the first `page` pages of `all`,
      and `total` the page count of `all`. */
  predicate PagesShown(page: nat, total: nat, all: seq<Review>, shown: seq<Review>)
  {
    page >= 1 && total == ReviewRoute.CeilDiv(|all|, PerPage)
    && shown == ValidOnly(ReviewRoute.Page(all, 0, PerPage * page))
  }

  /** Showing the next page keeps the displayed reviews those of the pages
      shown. */
  lemma NextPageShown(page: nat, total: nat, all: seq<Review>, shown: seq<Review>)
    requires PagesShown(page, total, all, shown)
    ensures PagesShown(page + 1, total, all, shown + ValidOnly(ReviewRoute.Page(all, PerPage * page, PerPage)))
  {
    NextPageAppends(all, page);
  }

  /** The review pagination state of the page: the current page, the page
      count, every review fetched, and the reviews displayed so far. */
  class ReviewPager {
    var currentPage: nat
    var totalPages: nat
    var allReviews: seq<Review>
    var displayed: seq<Review>

    /** The initial configuration: page 1 of 1, nothing fetched or shown. */
    constructor ()
      ensures currentPage == 1 && totalPages == 1 && allReviews == [] && displayed == []
    {
      currentPage, totalPages := 1, 1;
      allReviews, displayed := [], [];
    }

    /** The displayed reviews are the displayable ones of the first
        `currentPage` pages of all reviews, and the page count is that of
        all reviews. */
    predicate ShowsPages()
      reads this
    {
      PagesShown(currentPage, totalPages, allReviews, displayed)
    }

    /** Whether the "Charger plus" button is added. */
    predicate HasLoadMore()
      reads this
    {
      currentPage < totalPages
    }

    /** The reviews of a fetch, from the cache or the backend: page 1 of
        ceil(n / 5) pages, its displayable reviews shown. */
    method ShowFirstPage(reviews: seq<Review>)
      modifies this
      ensures currentPage == 1 && totalPages == ReviewRoute.CeilDiv(|reviews|, PerPage)
      ensures allReviews == reviews
      ensures displayed == ValidOnly(ReviewRoute.Page(reviews, 0, PerPage))
      ensures ShowsPages()
    {
      currentPage := 1;
      totalPages := ReviewRoute.CeilDiv(|reviews|, PerPage);
      displayed := ValidOnly(ReviewRoute.Page(reviews, 0, PerPage));
      allReviews := reviews;
    }

    /** `loadMoreReviews`: from the cached reviews when the cache has them,
        the next page; otherwise, when the backend answers with its review
        list, the next page of that list and its page count (the corrected
        offset: the page is advanced first). A failed request changes
        nothing. */
    method LoadMoreReviews(cached: Option<seq<Review>>, server: Option<seq<Review>>)
      modifies this
      ensures cached.Some? ==>
                && currentPage == old(currentPage) + 1 && totalPages == old(totalPages)
                && displayed == old(displayed) + ValidOnly(ReviewRoute.Page(cached.value, PerPage * old(currentPage), PerPage))
      ensures cached.None? && server.Some? ==>
                && currentPage == old(currentPage) + 1
                && totalPages == ReviewRoute.CeilDiv(|server.value|, PerPage)
                && displayed == old(displayed) + ValidOnly(ReviewRoute.Page(server.value, PerPage * old(currentPage), PerPage))
      ensures cached.None? && server.None? ==>
                currentPage == old(currentPage) && totalPages == old(totalPages) && displayed == old(displayed)
      ensures allReviews == old(allReviews)
      ensures old(ShowsPages()) && (cached == Some(allReviews) || (cached.None? && server == Some(allReviews))) ==> ShowsPages()
    {
      if cached.Some? {
        ShowCachedPage(cached.value);
      } else if server.Some? {
        ShowServerPage(server.value);
      }
    }

    /** The cache branch of `loadMoreReviews`: the page is advanced, then the
        reviews of the new page are appended when there are any. */
    method ShowCachedPage(reviews: seq<Review>)
      modifies this
      ensures currentPage == old(currentPage) + 1 && totalPages == old(totalPages) && allReviews == old(allReviews)
      ensures displayed == old(displayed) + ValidOnly(ReviewRoute.Page(reviews, PerPage * old(currentPage), PerPage))
      ensures old(ShowsPages()) && reviews == allReviews ==> ShowsPages()
    {
      if ShowsPages() && reviews == allReviews {
        NextPageShown(currentPage, totalPages, allReviews, displayed);
      }
      currentPage := currentPage + 1;
      var offset := (currentPage - 1) * PerPage;
      var nextPage := ReviewRoute.Page(reviews, offset, PerPage);
      if |nextPage| > 0 {
        displayed := displayed + ValidOnly(nextPage);
      } else {
        assert nextPage == [] && ValidOnly(nextPage) == [];
      }
    }

    /** The backend branch of `loadMoreReviews`, with the corrected offset:
        the next page of the server's reviews, and their page count. */
    method ShowServerPage(reviews: seq<Review>)
      modifies this
      ensures currentPage == old(currentPage) + 1 && allReviews == old(allReviews)
      ensures totalPages == ReviewRoute.CeilDiv(|reviews|, PerPage)
      ensures displayed == old(displayed) + ValidOnly(ReviewRoute.Page(reviews, PerPage * old(currentPage), PerPage))
      ensures old(ShowsPages()) && reviews == allReviews ==> ShowsPages()
    {
      if ShowsPages() && reviews == allReviews {
        NextPageShown(currentPage, totalPages, allReviews, displayed);
      }
      currentPage := currentPage + 1;
      var offset := (currentPage - 1) * PerPage;
      var pagination := ReviewRoute.PaginationOf(|reviews|, PerPage, offset);
      totalPages := pagination.totalPages;
      displayed := displayed + ValidOnly(ReviewRoute.Page(reviews, offset, PerPage));
    }

    /** Once the button is gone, every displayable review is displayed. */
    lemma AllShownWithoutButton()
      requires ShowsPages() && !HasLoadMore()
      ensures displayed == ValidOnly(allReviews)
    {
      LoadMoreUntilAllShown(allReviews, currentPage);
    }
  }
}
