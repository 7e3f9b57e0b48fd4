/** Characters and strings as JavaScript sees them in this code: the `\s` and
    `\d` character classes, `String.prototype.trim`, lower-casing, `startsWith`,
    `includes`, `parseInt` on a run of digits and the decimal rendering of a
    number in a template literal. */
module Text {

  /** JavaScript's `\s`: white space and line terminators. `trim` removes the
      same characters. */
  predicate IsSpace(c: char)
  {
    || c == ' ' || c == '\t' || c == '\n' || c == '\r' || c == '\U{0B}' || c == '\U{0C}'
    || c == '\U{A0}' || c == '\U{1680}' || ('\U{2000}' <= c <= '\U{200A}')
    || c == '\U{2028}' || c == '\U{2029}' || c == '\U{202F}' || c == '\U{205F}'
    || c == '\U{3000}' || c == '\U{FEFF}'
  }

  /** JavaScript's `\d`: ASCII digits only. */
  predicate IsDigit(c: char)
  {
    '0' <= c <= '9'
  }

  /** JavaScript's `\w` without the `u` flag: ASCII letters, digits and `_`. */
  predicate IsAsciiWordChar(c: char)
  {
    ('a' <= c <= 'z') || ('A' <= c <= 'Z') || IsDigit(c) || c == '_'
  }

  /** `toLowerCase` on one character, for ASCII and the Latin-1 letters
      (U+00C0 to U+00DE except the multiplication sign), which is every letter
      the month lexicon and the recognised phrases use. */
  function LowerChar(c: char): (r: char)
    ensures IsDigit(r) <==> IsDigit(c)
    ensures IsSpace(r) <==> IsSpace(c)
    ensures r == c || r as int == c as int + 32
  {
    if ('A' <= c <= 'Z') || ('\U{C0}' <= c <= '\U{DE}' && c != '\U{D7}') then
      (c as int + 32) as char
    else
      c
  }

  lemma LowerAsciiWordChar(c: char)
    requires IsAsciiWordChar(c)
    ensures IsAsciiWordChar(LowerChar(c))
  {
  }

  function Lower(s: string): (r: string)
    ensures |r| == |s|
    ensures forall i :: 0 <= i < |s| ==> r[i] == LowerChar(s[i])
  {
    seq(|s|, i requires 0 <= i < |s| => LowerChar(s[i]))
  }

  /** True when `s` holds no upper-case letter that `Lower` would change. */
  predicate IsLowerCase(s: string)
  {
    forall i :: 0 <= i < |s| ==> LowerChar(s[i]) == s[i]
  }

  lemma LowerOfLowerCase(s: string)
    requires IsLowerCase(s)
    ensures Lower(s) == s
  {
  }

  /** Case-insensitive equality of two strings, as the `i` flag of a regular
      expression compares them. */
  predicate EqualsIgnoreCase(a: string, b: string)
  {
    |a| == |b| && forall i :: 0 <= i < |a| ==> LowerChar(a[i]) == LowerChar(b[i])
  }

  predicate StartsWith(s: string, prefix: string)
  {
    |prefix| <= |s| && s[..|prefix|] == prefix
  }

  /** `s.includes(part)`. */
  predicate Contains(s: string, part: string)
  {
    exists i | 0 <= i <= |s| :: StartsWith(s[i..], part)
  }

  function TrimStart(s: string): (r: string)
    ensures |r| <= |s| && r == s[|s| - |r|..]
    ensures r == [] || !IsSpace(r[0])
  {
    if |s| > 0 && IsSpace(s[0]) then TrimStart(s[1..]) else s
  }

  /** What `TrimStart` drops is white space. */
  lemma {:induction false} TrimStartSpaces(s: string)
    ensures forall i :: 0 <= i < |s| - |TrimStart(s)| ==> IsSpace(s[i])
  {
    if |s| > 0 && IsSpace(s[0]) {
      TrimStartSpaces(s[1..]);
      assert forall i :: 1 <= i < |s| ==> s[1..][i - 1] == s[i];
    }
  }

  function TrimEnd(s: string): (r: string)
    ensures |r| <= |s| && r == s[..|r|]
    ensures r == [] || !IsSpace(r[|r| - 1])
  {
    if |s| > 0 && IsSpace(s[|s| - 1]) then TrimEnd(s[..|s| - 1]) else s
  }

  /** What `TrimEnd` drops is white space. */
  lemma {:induction false} TrimEndSpaces(s: string)
    ensures forall i :: |TrimEnd(s)| <= i < |s| ==> IsSpace(s[i])
  {
    if |s| > 0 && IsSpace(s[|s| - 1]) {
      TrimEndSpaces(s[..|s| - 1]);
    }
  }

  /** `String.prototype.trim`: the longest slice of `s` that neither starts nor
      ends with white space, obtained by dropping white space at both ends. */
  function Trim(s: string): (r: string)
    ensures |r| <= |s|
    ensures r == [] || (!IsSpace(r[0]) && !IsSpace(r[|r| - 1]))
  {
    TrimEnd(TrimStart(s))
  }

  /** Trimming the start changes nothing in a string that does not start with
      white space. */
  lemma TrimStartUnpadded(s: string)
    requires s != [] && !IsSpace(s[0])
    ensures TrimStart(s) == s
  {
  }

  /** Trimming changes nothing in a string that has no white space at its ends. */
  lemma TrimUnpadded(s: string)
    requires s == [] || (!IsSpace(s[0]) && !IsSpace(s[|s| - 1]))
    ensures Trim(s) == s
  {
  }

  lemma TrimIdempotent(s: string)
    ensures Trim(Trim(s)) == Trim(s)
  {
    TrimUnpadded(Trim(s));
  }

  /** Whether `s` holds a character that is not white space. */
  predicate HasNonSpace(s: string)
  {
    s != [] && (!IsSpace(s[0]) || HasNonSpace(s[1..]))
  }

  lemma {:induction false} HasNonSpaceAt(s: string)
    ensures HasNonSpace(s) <==> exists i :: 0 <= i < |s| && !IsSpace(s[i])
  {
    if s != [] {
      HasNonSpaceAt(s[1..]);
      if exists i :: 0 <= i < |s| && !IsSpace(s[i]) {
        var i :| 0 <= i < |s| && !IsSpace(s[i]);
        if i > 0 {
          assert s[1..][i - 1] == s[i];
        }
      }
      if exists i :: 0 <= i < |s[1..]| && !IsSpace(s[1..][i]) {
        var i :| 0 <= i < |s[1..]| && !IsSpace(s[1..][i]);
        assert s[1..][i] == s[i + 1];
      }
    }
  }

  /** A string that trims to nothing is all white space. */
  lemma TrimEmptyAllSpace(s: string)
    requires Trim(s) == []
    ensures forall i :: 0 <= i < |s| ==> IsSpace(s[i])
  {
    var t := TrimStart(s);
    TrimStartSpaces(s);
    TrimEndSpaces(t);
    forall i | |s| - |t| <= i < |s|
      ensures IsSpace(s[i])
    {
      assert s[i] == t[i - (|s| - |t|)];
    }
  }

  /** A string trims to something exactly when it holds a character that is
      not white space. */
  lemma TrimNonEmpty(s: string)
    ensures Trim(s) != [] <==> HasNonSpace(s)
  {
    HasNonSpaceAt(s);
    var t := TrimStart(s);
    var n := |s| - |t|;
    if Trim(s) != [] {
      assert s[n] == t[0];
    } else {
      TrimEmptyAllSpace(s);
    }
  }

  /** Trimming keeps the characters in between: every character of `Trim(s)`
      is a character of `s`, in the same order, with only white space dropped
      at the ends. */
  lemma TrimIsSlice(s: string)
    ensures exists i, j ::
              && 0 <= i <= j <= |s| && Trim(s) == s[i..j]
              && (forall k :: 0 <= k < i ==> IsSpace(s[k]))
              && (forall k :: j <= k < |s| ==> IsSpace(s[k]))
  {
    var i, j := TrimBounds(s);
  }

  /** Where `Trim(s)` sits inside `s`. */
  lemma TrimBounds(s: string) returns (i: nat, j: nat)
    ensures 0 <= i <= j <= |s| && Trim(s) == s[i..j]
    ensures forall k :: 0 <= k < i ==> IsSpace(s[k])
    ensures forall k :: j <= k < |s| ==> IsSpace(s[k])
  {
    var t := TrimStart(s);
    i := |s| - |t|;
    j := i + |Trim(s)|;
    assert Trim(s) == s[i..j] by {
      PrefixOfSuffix(s, i, |Trim(s)|);
    }
    TrimStartSpaces(s);
    TrimEndSpaces(t);
    SuffixSpaces(s, i, |Trim(s)|);
  }

  lemma PrefixOfSuffix(s: string, i: nat, n: nat)
    requires i + n <= |s|
    ensures s[i..][..n] == s[i..i + n]
  {
  }

  /** White space at the end of the suffix `s[i..]` is white space at the end
      of `s`. */
  lemma SuffixSpaces(s: string, i: nat, m: nat)
    requires i + m <= |s|
    requires forall k :: m <= k < |s[i..]| ==> IsSpace(s[i..][k])
    ensures forall k :: i + m <= k < |s| ==> IsSpace(s[k])
  {
    forall k | i + m <= k < |s|
      ensures IsSpace(s[k])
    {
      assert s[k] == s[i..][k - i];
    }
  }

  /** A string in which the first character of `part` never occurs does not
      contain `part`. */
  lemma NotContainsWithoutInitial(s: string, part: string)
    requires part != [] && forall k :: 0 <= k < |s| ==> s[k] != part[0]
    ensures !Contains(s, part)
  {
    forall i | 0 <= i <= |s|
      ensures !StartsWith(s[i..], part)
    {
      if i < |s| {
        assert s[i..][0] == s[i];
      }
    }
  }

  /** No character of `s` lower-cases to `c`. */
  predicate LacksLowered(s: string, c: char)
  {
    s == [] || (LowerChar(s[0]) != c && LacksLowered(s[1..], c))
  }

  lemma {:induction false} LacksLoweredAt(s: string, c: char, i: nat)
    requires LacksLowered(s, c) && i < |s|
    ensures LowerChar(s[i]) != c
    decreases i
  {
    if i > 0 {
      LacksLoweredAt(s[1..], c, i - 1);
    }
  }

  /** `/^\d{4}-\d{2}-\d{2}/`: the text starts with a "YYYY-MM-DD" date. */
  predicate IsIsoDatePrefix(s: string)
  {
    && |s| >= 10
    && IsDigit(s[0]) && IsDigit(s[1]) && IsDigit(s[2]) && IsDigit(s[3]) && s[4] == '-'
    && IsDigit(s[5]) && IsDigit(s[6]) && s[7] == '-' && IsDigit(s[8]) && IsDigit(s[9])
  }

  function DigitValue(c: char): nat
  {
    if IsDigit(c) then c as int - '0' as int else 0
  }

  predicate AllDigits(s: string)
  {
    forall i :: 0 <= i < |s| ==> IsDigit(s[i])
  }

  /** The characters of an embedded run of digits are digits. */
  lemma DigitsAt(s: string, D: string, p: nat)
    requires p + |D| <= |s| && s[p..p + |D|] == D && AllDigits(D)
    ensures forall k :: p <= k < p + |D| ==> IsDigit(s[k])
  {
    forall k | p <= k < p + |D|
      ensures IsDigit(s[k])
    {
      assert s[k] == D[k - p];
    }
  }

  /** `parseInt` of a non-empty run of decimal digits. */
  function DigitsValue(s: string): nat
  {
    if s == [] then 0 else DigitsValue(s[..|s| - 1]) * 10 + DigitValue(s[|s| - 1])
  }

  function DigitChar(d: nat): (c: char)
    requires d < 10
    ensures IsDigit(c) && DigitValue(c) == d
  {
    ('0' as int + d) as char
  }

  /** The decimal text of `n`, as a template literal renders a non-negative
      integer: digits only, no leading zero, and `parseInt` gives `n` back. */
  function NatToString(n: nat): (r: string)
    ensures r != [] && AllDigits(r)
    ensures DigitsValue(r) == n
    ensures r[0] == '0' ==> n == 0
    ensures n < 10 ==> |r| == 1
    ensures 10 <= n < 100 ==> |r| == 2
    ensures 1000 <= n < 10000 ==> |r| == 4
  {
    if n < 10 then [DigitChar(n)]
    else
      var front := NatToString(n / 10);
      var r := front + [DigitChar(n % 10)];
      assert r[..|r| - 1] == front;
      r
  }

  /** The decimal text of any integer, with a leading `-` when negative. */
  function IntToString(i: int): (r: string)
    ensures i >= 0 ==> r == NatToString(i)
    ensures i < 0 ==> r == "-" + NatToString(-i)
  {
    if i < 0 then "-" + NatToString(-i) else NatToString(i)
  }
}
