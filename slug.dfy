/** `get_slug` (bot/common.py): the collision-free key of a game or series name.
    The name is stripped of surrounding whitespace, spaces become underscores,
    every non-word character is removed and the rest is lower-cased.

    Python's `\w` and `str.lower` follow the whole Unicode database; here word
    characters are the ASCII letters and digits, `_` and the basic Cyrillic
    block U+0400..U+045F, which covers the catalog's names. Whitespace is all
    of Python's `str.isspace` set. */
module Slug {
  import opened Wrappers

  /** The characters Python's `str.strip()` removes. */
  predicate IsSpace(c: char) {
    ('\t' <= c <= '\r') || ('\U{1C}' <= c <= ' ') || c == '\U{85}' || c == '\U{A0}'
    || c == '\U{1680}' || ('\U{2000}' <= c <= '\U{200A}') || c == '\U{2028}'
    || c == '\U{2029}' || c == '\U{202F}' || c == '\U{205F}' || c == '\U{3000}'
  }

  /** A character of the regular-expression class `\w`. */
  predicate IsWordChar(c: char) {
    ('a' <= c <= 'z') || ('A' <= c <= 'Z') || ('0' <= c <= '9') || c == '_'
    || ('\U{400}' <= c <= '\U{45F}')
  }

  /** An upper-case letter among the modelled word characters. */
  predicate IsUpper(c: char) {
    ('A' <= c <= 'Z') || ('\U{400}' <= c <= '\U{42F}')
  }

  /** `str.lower` on one character. */
  function LowerChar(c: char): (r: char)
    ensures IsWordChar(c) ==> IsWordChar(r)
    ensures !IsUpper(r)
    ensures !IsUpper(c) ==> r == c
  {
    if 'A' <= c <= 'Z' then (c as int + 32) as char
    else if '\U{410}' <= c <= '\U{42F}' then (c as int + 32) as char
    else if '\U{400}' <= c <= '\U{40F}' then (c as int + 80) as char
    else c
  }

  /** A character that slugs may contain: a lower-case word character. */
  predicate IsSlugChar(c: char) {
    IsWordChar(c) && !IsUpper(c)
  }

  predicate AllSpace(s: string) {
    forall i :: 0 <= i < |s| ==> IsSpace(s[i])
  }

  predicate AllSlugChars(s: string) {
    forall i :: 0 <= i < |s| ==> IsSlugChar(s[i])
  }

  function TrimLeft(s: string): (r: string)
    ensures |r| <= |s|
    ensures r == [] || !IsSpace(r[0])
  {
    if s != [] && IsSpace(s[0]) then TrimLeft(s[1..]) else s
  }

  function TrimRight(s: string): (r: string)
    ensures |r| <= |s|
    ensures r == [] || !IsSpace(r[|r| - 1])
  {
    if s != [] && IsSpace(s[|s| - 1]) then TrimRight(s[..|s| - 1]) else s
  }

  /** `str.strip()`. */
  function Strip(s: string): string {
    TrimRight(TrimLeft(s))
  }

  /** `str.replace(' ', '_')`. */
  function ReplaceSpaces(s: string): (r: string)
    ensures |r| == |s|
    ensures forall i :: 0 <= i < |s| ==> r[i] == (if s[i] == ' ' then '_' else s[i])
  {
    if s == [] then [] else [if s[0] == ' ' then '_' else s[0]] + ReplaceSpaces(s[1..])
  }

  /** `re.sub(r'\W', '', s)`. */
  function RemoveNonWord(s: string): (r: string)
    ensures |r| <= |s|
    ensures forall i :: 0 <= i < |r| ==> IsWordChar(r[i])
  {
    if s == [] then []
    else if IsWordChar(s[0]) then [s[0]] + RemoveNonWord(s[1..])
    else RemoveNonWord(s[1..])
  }

  /** `str.lower()`. */
  function Lower(s: string): (r: string)
    ensures |r| == |s|
    ensures forall i :: 0 <= i < |s| ==> r[i] == LowerChar(s[i])
  {
    if s == [] then [] else [LowerChar(s[0])] + Lower(s[1..])
  }

  /** The part of `get_slug` after stripping: spaces to underscores, non-word
      characters dropped, lower case. */
  function Normalize(s: string): (r: string)
    ensures AllSlugChars(r)
  {
    Lower(RemoveNonWord(ReplaceSpaces(s)))
  }

  /** `get_slug(text)`; `None` and the empty string both give the empty slug. */
  function GetSlug(text: Option<string>): (r: string)
    ensures AllSlugChars(r)
    ensures text.Some? ==> |r| <= |text.value|
    ensures text == None || text == Some("") ==> r == ""
  {
    match text
    case None => ""
    case Some(t) =>
      if t == "" then "" else Normalize(Strip(t))
  }

  lemma {:induction false} TrimLeftSpacePrefix(w: string, s: string)
    requires AllSpace(w)
    ensures TrimLeft(w + s) == TrimLeft(s)
    decreases |w|
  {
    if w != [] {
      assert (w + s)[1..] == w[1..] + s;
      TrimLeftSpacePrefix(w[1..], s);
    } else {
      assert w + s == s;
    }
  }

  lemma {:induction false} TrimRightSpaceSuffix(s: string, w: string)
    requires AllSpace(w)
    ensures TrimRight(s + w) == TrimRight(s)
    decreases |w|
  {
    if w != [] {
      assert (s + w)[..|s + w| - 1] == s + w[..|w| - 1];
      TrimRightSpaceSuffix(s, w[..|w| - 1]);
    } else {
      assert s + w == s;
    }
  }

  /** Stripping the left side of `s + w` only touches `s`, unless `s` is all space. */
  lemma {:induction false} TrimLeftAppend(s: string, w: string)
    ensures TrimLeft(s) != [] ==> TrimLeft(s + w) == TrimLeft(s) + w
    ensures TrimLeft(s) == [] ==> TrimLeft(s + w) == TrimLeft(w)
    decreases |s|
  {
    if s == [] {
      assert s + w == w;
    } else if IsSpace(s[0]) {
      assert (s + w)[1..] == s[1..] + w;
      TrimLeftAppend(s[1..], w);
    }
  }

  /** Whitespace around the name does not change its slug. */
  lemma OuterSpaceIgnored(w1: string, t: string, w2: string)
    requires AllSpace(w1) && AllSpace(w2)
    ensures GetSlug(Some(w1 + t + w2)) == GetSlug(Some(t))
  {
    assert w1 + t + w2 == w1 + (t + w2);
    TrimLeftSpacePrefix(w1, t + w2);
    TrimLeftAppend(t, w2);
    if TrimLeft(t) != [] {
      TrimRightSpaceSuffix(TrimLeft(t), w2);
    } else {
      assert w2 + [] == w2;
      TrimLeftSpacePrefix(w2, []);
    }
    assert Strip(w1 + t + w2) == Strip(t);
  }

  lemma {:induction false} RemoveNonWordKeepsWords(s: string)
    requires forall i :: 0 <= i < |s| ==> IsWordChar(s[i])
    ensures RemoveNonWord(s) == s
    decreases |s|
  {
    if s != [] {
      RemoveNonWordKeepsWords(s[1..]);
    }
  }

  /** A string made of slug characters is its own slug. */
  lemma SlugIsFixedPoint(s: string)
    requires AllSlugChars(s)
    ensures GetSlug(Some(s)) == s
  {
    if s != [] {
      assert !IsSpace(s[0]) && !IsSpace(s[|s| - 1]);
      assert TrimLeft(s) == s;
      assert Strip(s) == s;
      assert ReplaceSpaces(s) == s;
      RemoveNonWordKeepsWords(s);
      assert Lower(s) == s;
    }
  }

  /** `get_slug(get_slug(x)) == get_slug(x)`, on which `get_by` relies. */
  lemma SlugIdempotent(text: Option<string>)
    ensures GetSlug(Some(GetSlug(text))) == GetSlug(text)
  {
    SlugIsFixedPoint(GetSlug(text));
  }

  /** A numeral is its own slug. */
  lemma DigitsKept(d: string)
    requires forall i :: 0 <= i < |d| ==> '0' <= d[i] <= '9'
    ensures GetSlug(Some(d)) == d
  {
    SlugIsFixedPoint(d);
  }

  lemma {:induction false} RemoveNonWordConcat(a: string, b: string)
    ensures RemoveNonWord(a + b) == RemoveNonWord(a) + RemoveNonWord(b)
    decreases |a|
  {
    if a == [] {
      assert a + b == b;
    } else {
      assert (a + b)[1..] == a[1..] + b;
      RemoveNonWordConcat(a[1..], b);
    }
  }

  lemma {:induction false} ReplaceSpacesConcat(a: string, b: string)
    ensures ReplaceSpaces(a + b) == ReplaceSpaces(a) + ReplaceSpaces(b)
    decreases |a|
  {
    if a == [] {
      assert a + b == b;
    } else {
      assert (a + b)[1..] == a[1..] + b;
      ReplaceSpacesConcat(a[1..], b);
    }
  }

  lemma {:induction false} LowerConcat(a: string, b: string)
    ensures Lower(a + b) == Lower(a) + Lower(b)
    decreases |a|
  {
    if a == [] {
      assert a + b == b;
    } else {
      assert (a + b)[1..] == a[1..] + b;
      LowerConcat(a[1..], b);
    }
  }

  lemma NormalizeConcat(a: string, b: string)
    ensures Normalize(a + b) == Normalize(a) + Normalize(b)
  {
    ReplaceSpacesConcat(a, b);
    RemoveNonWordConcat(ReplaceSpaces(a), ReplaceSpaces(b));
    LowerConcat(RemoveNonWord(ReplaceSpaces(a)), RemoveNonWord(ReplaceSpaces(b)));
  }

  /** A text with no whitespace at either end is left as it is by `strip`. */
  lemma StripKeeps(s: string)
    requires s != [] && !IsSpace(s[0]) && !IsSpace(s[|s| - 1])
    ensures Strip(s) == s
  {
  }

  /** What one character becomes in a slug. */
  function SlugOfChar(c: char): string {
    if c == ' ' then "_" else if IsWordChar(c) then [LowerChar(c)] else ""
  }

  /** The slug text of a stripped text, one character at a time. */
  function SlugOfChars(s: string): string {
    if s == [] then "" else SlugOfChar(s[0]) + SlugOfChars(s[1..])
  }

  /** `Normalize`'s three passes equal one pass character by character. */
  lemma {:induction false} NormalizeByChars(s: string)
    ensures Normalize(s) == SlugOfChars(s)
    decreases |s|
  {
    if s != [] {
      assert s == [s[0]] + s[1..];
      NormalizeConcat([s[0]], s[1..]);
      NormalizeByChars(s[1..]);
    }
  }

  predicate IsDigit(c: char) {
    '0' <= c <= '9'
  }

  /** A digit is no whitespace, and a slug keeps it as it is. */
  lemma DigitSlug(c: char)
    requires IsDigit(c)
    ensures !IsSpace(c) && SlugOfChar(c) == [c]
  {
  }

  /** Digits joined by a space and a hyphen: the space becomes `_`, the
      hyphen goes. */
  lemma SpaceHyphenSlug(x: char, y: char, z: char)
    requires IsDigit(x) && IsDigit(y) && IsDigit(z)
    ensures GetSlug(Some([x, ' ', y, '-', z])) == [x, '_', y, z]
  {
    var s := [x, ' ', y, '-', z];
    DigitSlug(x);
    DigitSlug(y);
    DigitSlug(z);
    StripKeeps(s);
    NormalizeByChars(s);
    assert s[1..] == [' ', y, '-', z] && s[1..][1..] == [y, '-', z];
    assert s[1..][1..][1..] == ['-', z] && s[1..][1..][1..][1..] == [z];
    assert SlugOfChars([z]) == [z];
    assert SlugOfChars(['-', z]) == [z];
    assert SlugOfChars([y, '-', z]) == [y, z];
    assert SlugOfChars([' ', y, '-', z]) == ['_', y, z];
  }

  /** A mark that is neither a word character nor whitespace, three times
      with spaces between: only the two underscores survive. */
  lemma SpacedMarksSlug(m: char)
    requires !IsWordChar(m) && !IsSpace(m)
    ensures GetSlug(Some([m, ' ', m, ' ', m])) == "__"
  {
    var s := [m, ' ', m, ' ', m];
    StripKeeps(s);
    NormalizeByChars(s);
    assert s[1..] == [' ', m, ' ', m] && s[1..][1..] == [m, ' ', m];
    assert s[1..][1..][1..] == [' ', m] && s[1..][1..][1..][1..] == [m];
    assert SlugOfChars([m]) == "";
    assert SlugOfChars([' ', m]) == "_";
    assert SlugOfChars([m, ' ', m]) == "_";
    assert SlugOfChars([' ', m, ' ', m]) == "__";
  }

  /** Expected slugs that common.py asserts: `None` and `""` give `""`. */
  lemma SlugOfNothing()
    ensures GetSlug(Some("")) == "" && GetSlug(None) == ""
  {
  }

  /** Expected slug that common.py asserts: `"123"` is kept. */
  lemma SlugExampleDigits()
    ensures GetSlug(Some("123")) == "123"
  {
    var d := "123";
    assert d[0] == '1' && d[1] == '2' && d[2] == '3';
    DigitsKept(d);
  }

  /** Expected slug that common.py asserts: the space becomes `_`, the hyphen goes. */
  lemma SlugExampleHyphen()
    ensures GetSlug(Some("1 2-3")) == "1_23"
  {
    SpaceHyphenSlug('1', '2', '3');
    assert ['1', ' ', '2', '-', '3'] == "1 2-3";
    assert ['1', '_', '2', '3'] == "1_23";
  }

  /** Expected slug that common.py asserts: only the two underscores survive. */
  lemma SlugExampleMarks()
    ensures GetSlug(Some("! ! !")) == "__"
  {
    SpacedMarksSlug('!');
    assert ['!', ' ', '!', ' ', '!'] == "! ! !";
  }
}
