/** `fill_string_pattern` (third_party/regexp.py): turns a compiled pattern
    back into a string by stripping the anchors `^`/`$`, replacing every
    parenthesised group with a `{}` field (`re.sub(r'\(.+?\)', '{}', ...)`)
    and formatting the positional arguments into the fields with
    `str.format`. The arguments are integers, rendered by `str()`. */
module FillPattern {
  import opened Wrappers
  import Decimal

  /** Why `str.format` raises. */
  datatype FormatError =
    | MissingArgument   // IndexError: more `{}` fields than arguments
    | Malformed         // ValueError: a single `{` or `}`
    | Unsupported       // a field with a name, index, conversion or format spec

  predicate IsAnchor(c: char) {
    c == '^' || c == '$'
  }

  predicate AllAnchors(s: string) {
    forall i :: 0 <= i < |s| ==> IsAnchor(s[i])
  }

  predicate NoBraces(s: string) {
    forall i :: 0 <= i < |s| ==> s[i] != '{' && s[i] != '}'
  }

  predicate NoOpenParen(s: string) {
    forall i :: 0 <= i < |s| ==> s[i] != '('
  }

  /** The leading half of `str.strip('^$')`: `r` is what is left once the
      longest prefix of anchors is removed. */
  function StripLeading(p: string): (r: string)
    ensures |r| <= |p| && r == p[|p| - |r|..]
    ensures AllAnchors(p[..|p| - |r|])
    ensures r == [] || !IsAnchor(r[0])
  {
    if p != [] && IsAnchor(p[0]) then StripLeading(p[1..]) else p
  }

  /** The trailing half of `str.strip('^$')`. */
  function StripTrailing(p: string): (r: string)
    ensures |r| <= |p| && r == p[..|r|]
    ensures AllAnchors(p[|r|..])
    ensures r == [] || !IsAnchor(r[|r| - 1])
  {
    if p != [] && IsAnchor(p[|p| - 1]) then
      var r := StripTrailing(p[..|p| - 1]);
      assert p[|r|..] == p[..|p| - 1][|r|..] + [p[|p| - 1]];
      r
    else p
  }

  /** `pattern.strip('^$')`: both ends are free of anchors afterwards, and
      what was removed consisted of anchors only. */
  function StripAnchors(p: string): (r: string)
    ensures |r| <= |p|
    ensures r == [] || (!IsAnchor(r[0]) && !IsAnchor(r[|r| - 1]))
  {
    StripTrailing(StripLeading(p))
  }

  /** Where the non-greedy group `\(.+?\)` opened by `p[0]` closes, looking
      from `j` on: the first `)` at index 2 or later (the group holds at least
      one character), provided no newline (which `.` does not match) comes first. */
  function CloseFrom(p: string, j: nat): (r: Option<nat>)
    requires 1 <= j
    decreases |p| - j
    ensures r.Some? ==> j <= r.value < |p| && 2 <= r.value && p[r.value] == ')'
    ensures r.Some? ==> forall k :: j <= k < r.value ==> p[k] != '\n' && (2 <= k ==> p[k] != ')')
    ensures r.None? ==>
      forall k :: j <= k < |p| && 2 <= k && p[k] == ')' ==> exists m :: j <= m < k && p[m] == '\n'
  {
    if j >= |p| || p[j] == '\n' then None
    else if 2 <= j && p[j] == ')' then Some(j)
    else CloseFrom(p, j + 1)
  }

  /** `re.sub(r'\(.+?\)', '{}', p)`: scanning left to right, each group is
      replaced by `{}`; every other character is copied. */
  function SubGroups(p: string): (r: string)
    decreases |p|
    ensures |r| <= |p|
  {
    if p == [] then []
    else if p[0] == '(' && CloseFrom(p, 1).Some? then
      var close := CloseFrom(p, 1).value;
      "{}" + SubGroups(p[close + 1..])
    else
      [p[0]] + SubGroups(p[1..])
  }

  /** Puts `s` in front of a successful result; errors pass through. */
  function Prepend(s: string, r: Result<string, FormatError>): Result<string, FormatError> {
    match r
    case Ok(v) => Ok(s + v)
    case Err(e) => Err(e)
  }

  /** `f.format(*args)` for automatically numbered fields: `{}` takes the
      next argument, `{{` and `}}` are literal braces, any other field is
      not modelled and a lone brace is malformed. Extra arguments are ignored. */
  function Format(f: string, args: seq<int>): Result<string, FormatError>
    decreases |f|
  {
    if f == [] then Ok([])
    else if f[0] == '{' then
      if |f| >= 2 && f[1] == '{' then Prepend("{", Format(f[2..], args))
      else if |f| >= 2 && f[1] == '}' then
        if args == [] then Err(MissingArgument)
        else Prepend(Decimal.IntToString(args[0]), Format(f[2..], args[1..]))
      else if '}' in f[1..] then Err(Unsupported)
      else Err(Malformed)
    else if f[0] == '}' then
      if |f| >= 2 && f[1] == '}' then Prepend("}", Format(f[2..], args)) else Err(Malformed)
    else
      Prepend([f[0]], Format(f[1..], args))
  }

  /** `fill_string_pattern(pattern, *args)` on the pattern's source text. */
  function Fill(pattern: string, args: seq<int>): Result<string, FormatError> {
    Format(SubGroups(StripAnchors(pattern)), args)
  }

  lemma {:induction false} StripLeadingExact(a: string, x: string)
    requires AllAnchors(a)
    requires x == [] || !IsAnchor(x[0])
    ensures StripLeading(a + x) == x
    decreases |a|
  {
    if a == [] {
      assert a + x == x;
    } else {
      assert (a + x)[1..] == a[1..] + x;
      StripLeadingExact(a[1..], x);
    }
  }

  lemma {:induction false} StripTrailingExact(x: string, b: string)
    requires AllAnchors(b)
    requires x == [] || !IsAnchor(x[|x| - 1])
    ensures StripTrailing(x + b) == x
    decreases |b|
  {
    if b == [] {
      assert x + b == x;
    } else {
      assert (x + b)[..|x + b| - 1] == x + b[..|b| - 1];
      StripTrailingExact(x, b[..|b| - 1]);
    }
  }

  /** Only leading and trailing anchors are removed: text between anchor
      runs whose own ends are not anchors comes out unchanged. */
  lemma StripAnchorsExact(a: string, body: string, b: string)
    requires AllAnchors(a) && AllAnchors(b)
    requires body == [] || (!IsAnchor(body[0]) && !IsAnchor(body[|body| - 1]))
    ensures StripAnchors(a + body + b) == body
  {
    if body == [] {
      assert a + body + b == (a + b) + [];
      StripLeadingExact(a + b, []);
    } else {
      assert a + body + b == a + (body + b);
      StripLeadingExact(a, body + b);
      StripTrailingExact(body, b);
    }
  }

  /** Literal text before the first `(` is copied unchanged. */
  lemma {:induction false} SubGroupsPlain(s: string, rest: string)
    requires NoOpenParen(s)
    ensures SubGroups(s + rest) == s + SubGroups(rest)
    decreases |s|
  {
    if s != [] {
      var p := s + rest;
      assert p[0] == s[0] && p[1..] == s[1..] + rest;
      SubGroupsPlain(s[1..], rest);
    } else {
      assert s + rest == rest;
    }
  }

  /** A group `(inner)` whose inner text holds no newline and no `)` after
      its first character becomes one `{}` field. */
  lemma SubGroupsGroup(inner: string, rest: string)
    requires |inner| >= 1
    requires forall k :: 0 <= k < |inner| ==> inner[k] != '\n'
    requires forall k :: 1 <= k < |inner| ==> inner[k] != ')'
    ensures SubGroups("(" + inner + ")" + rest) == "{}" + SubGroups(rest)
  {
    var p := "(" + inner + ")" + rest;
    var c := |inner| + 1;
    assert p[c] == ')';
    assert forall k :: 1 <= k < c ==> p[k] == inner[k - 1];
    assert CloseFrom(p, 1) == Some(c);
    assert p[c + 1..] == rest;
  }

  /** Text without braces is copied unchanged by `str.format`. */
  lemma {:induction false} FormatPlain(s: string, rest: string, args: seq<int>)
    requires NoBraces(s)
    ensures Format(s + rest, args) == Prepend(s, Format(rest, args))
    decreases |s|
  {
    if s == [] {
      assert s + rest == rest;
      match Format(rest, args)
      case Ok(v) => assert s + v == v;
      case Err(_) =>
    } else {
      var f := s + rest;
      assert f[0] == s[0] && f[1..] == s[1..] + rest;
      FormatPlain(s[1..], rest, args);
      match Format(rest, args)
      case Ok(v) => assert [s[0]] + (s[1..] + v) == s + v;
      case Err(_) =>
    }
  }

  /** A `{}` field takes the next argument, rendered by `str()`, and the
      remaining fields take the remaining arguments; with no argument left
      `str.format` raises `IndexError`. */
  lemma FormatField(rest: string, args: seq<int>)
    ensures args == [] ==> Format("{}" + rest, args) == Err(MissingArgument)
    ensures args != [] ==>
      Format("{}" + rest, args) == Prepend(Decimal.IntToString(args[0]), Format(rest, args[1..]))
  {
    var f := "{}" + rest;
    assert f[0] == '{' && f[1] == '}' && f[2..] == rest;
  }
}
