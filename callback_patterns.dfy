/** The callback tokens of the cover pagination (bot/regexp_patterns.py).
    Each token pattern is an anchored regular expression made of literal
    text and `(\d+)` groups; `fill_string_pattern` renders it with numbers
    (the encoder) and Python's `re.match` parses a token back (the decoder).

    A pattern is modelled as a template: a sequence of literal pieces and
    numeric slots. Matching follows Python's semantics for these patterns:
    `\d+` takes one or more digits and `$` matches at the end of the string
    or just before a final newline. `\d` is modelled as the ASCII digits. */
module CallbackPatterns {
  import opened Wrappers
  import Decimal
  import FillPattern

  datatype Piece = Lit(text: string) | Slot

  type Template = seq<Piece>

  /** The regular-expression text of a slot. */
  const DigitGroup: string := "(\\d+)"

  /** `PATTERN_PAGE_COVER`: a page of all covers. */
  const PageCover: Template := [Lit("cover#"), Slot]

  /** `PATTERN_PAGE_COVER_BY_GAME`: a page of one game's covers, then the game id. */
  const PageCoverByGame: Template := [Lit("cover#"), Slot, Lit("_by_game_id="), Slot]

  /** `PATTERN_PAGE_COVER_BY_GAME_SERIES`: a page of one series' covers, then the series id. */
  const PageCoverByGameSeries: Template := [Lit("cover#"), Slot, Lit("_by_game_series_id="), Slot]

  /** `PATTERN_PAGE_COVER_BY_AUTHOR`: a page of one author's covers, then the author id. */
  const PageCoverByAuthor: Template := [Lit("cover#"), Slot, Lit("_by_author_id="), Slot]

  const Patterns: seq<Template> := [PageCover, PageCoverByGame, PageCoverByGameSeries, PageCoverByAuthor]

  /** The literal between the page number and the scope id of the three `by_*` patterns. */
  const ScopeTexts: seq<string> := ["_by_game_id=", "_by_game_series_id=", "_by_author_id="]

  /** Characters literal pieces are made of: no digit, sign, newline,
      brace, parenthesis or anchor among them. */
  predicate SafeChar(c: char) {
    ('a' <= c <= 'z') || ('A' <= c <= 'Z') || c == '#' || c == '_' || c == '='
  }

  /** Templates the codec handles: literal pieces are non-empty runs of safe
      characters, and a slot is never directly followed by another slot, so
      the end of each number is marked. */
  predicate WellFormed(t: Template) {
    (forall i :: 0 <= i < |t| && t[i].Lit? ==>
      t[i].text != [] && forall k :: 0 <= k < |t[i].text| ==> SafeChar(t[i].text[k]))
    && (forall i :: 0 <= i < |t| - 1 && t[i].Slot? ==> t[i + 1].Lit?)
  }

  function Slots(t: Template): nat {
    if t == [] then 0 else (if t[0].Slot? then 1 else 0) + Slots(t[1..])
  }

  function PieceSource(p: Piece): string {
    match p
    case Lit(s) => s
    case Slot => DigitGroup
  }

  function Body(t: Template): string {
    if t == [] then [] else PieceSource(t[0]) + Body(t[1..])
  }

  /** The pattern string as written in the source: `^`, the pieces, `$`. */
  function Source(t: Template): string {
    "^" + Body(t) + "$"
  }

  /** A captured group of `(\d+)`: one or more digits. */
  predicate Capture(g: string) {
    |g| >= 1 && Decimal.AllDigits(g)
  }

  predicate AllCaptures(g: seq<string>) {
    forall i :: 0 <= i < |g| ==> Capture(g[i])
  }

  /** The text a template spells with the given group texts in its slots. */
  function Spell(t: Template, g: seq<string>): string
    requires |g| == Slots(t)
  {
    if t == [] then []
    else match t[0]
      case Lit(s) => s + Spell(t[1..], g)
      case Slot => g[0] + Spell(t[1..], g[1..])
  }

  /** `str()` of each argument. */
  function Texts(args: seq<int>): (r: seq<string>)
    ensures |r| == |args|
    ensures forall i :: 0 <= i < |args| ==> r[i] == Decimal.IntToString(args[i])
  {
    if args == [] then [] else [Decimal.IntToString(args[0])] + Texts(args[1..])
  }

  /** The token `fill_string_pattern` produces: the numbers written in the slots. */
  function Render(t: Template, args: seq<int>): string
    requires |args| == Slots(t)
  {
    Spell(t, Texts(args))
  }

  predicate AllNonNegative(args: seq<int>) {
    forall i :: 0 <= i < |args| ==> args[i] >= 0
  }

  /** `int()` of each captured group. */
  function Numbers(g: seq<string>): (r: seq<nat>)
    requires AllCaptures(g)
    ensures |r| == |g|
    ensures forall i :: 0 <= i < |g| ==> r[i] == Decimal.ParseNat(g[i])
  {
    if g == [] then [] else [Decimal.ParseNat(g[0])] + Numbers(g[1..])
  }

  /** The length of the longest run of digits at the start of `s`: what the
      greedy `\d+` consumes. */
  function DigitRun(s: string): (n: nat)
    ensures n <= |s| && Decimal.AllDigits(s[..n])
    ensures n < |s| ==> !Decimal.IsDigit(s[n])
  {
    if s != [] && Decimal.IsDigit(s[0]) then
      var n := 1 + DigitRun(s[1..]);
      assert s[..n] == [s[0]] + s[1..][..n - 1];
      n
    else 0
  }

  /** Where Python's `$` matches: the end, or just before a final newline. */
  predicate AtEnd(s: string) {
    s == [] || s == "\n"
  }

  /** `re.match(pattern, s)` and its groups: each literal must come next,
      each slot takes the longest run of digits and needs at least one. */
  function Decode(t: Template, s: string): (r: Option<seq<string>>)
    ensures r.Some? ==> |r.value| == Slots(t) && AllCaptures(r.value)
  {
    if t == [] then
      if AtEnd(s) then Some([]) else None
    else match t[0]
      case Lit(l) =>
        if |l| <= |s| && s[..|l|] == l then Decode(t[1..], s[|l|..]) else None
      case Slot =>
        var n := DigitRun(s);
        if n == 0 then None
        else match Decode(t[1..], s[n..])
          case Some(g) => Some([s[..n]] + g)
          case None => None
  }

  /** The greedy digit run stops exactly where the digits end. */
  lemma {:induction false} DigitRunExact(d: string, tail: string)
    requires Decimal.AllDigits(d)
    requires tail == [] || !Decimal.IsDigit(tail[0])
    ensures DigitRun(d + tail) == |d|
    decreases |d|
  {
    if d == [] {
      assert d + tail == tail;
    } else {
      assert (d + tail)[1..] == d[1..] + tail;
      DigitRunExact(d[1..], tail);
    }
  }

  /** What the decoder accepts is a spelling of the template with digit
      groups, possibly followed by one newline. */
  lemma {:induction false} DecodeSound(t: Template, s: string)
    requires Decode(t, s).Some?
    ensures var g := Decode(t, s).value;
      s == Spell(t, g) || s == Spell(t, g) + "\n"
  {
    if t != [] {
      match t[0]
      case Lit(l) =>
        DecodeSound(t[1..], s[|l|..]);
        assert s == l + s[|l|..];
      case Slot =>
        var n := DigitRun(s);
        DecodeSound(t[1..], s[n..]);
        assert s == s[..n] + s[n..];
    }
  }

  /** The first character after a slot: a literal's first character, or
      whatever follows the whole token. */
  lemma AfterSlot(t: Template, g: seq<string>, e: string)
    requires WellFormed(t) && |g| == Slots(t)
    requires t == [] || t[0].Lit?
    requires AtEnd(e)
    ensures Spell(t, g) + e == [] || !Decimal.IsDigit((Spell(t, g) + e)[0])
  {
    if t != [] {
      var l := t[0].text;
      assert SafeChar(l[0]);
      assert (Spell(t, g) + e)[0] == (l + (Spell(t[1..], g) + e))[0] == l[0];
    }
  }

  /** Every spelling of a well-formed template with digit groups, possibly
      followed by one newline, is decoded back to exactly those groups. */
  lemma {:induction false} DecodeComplete(t: Template, g: seq<string>, e: string)
    requires WellFormed(t) && |g| == Slots(t) && AllCaptures(g)
    requires AtEnd(e)
    ensures Decode(t, Spell(t, g) + e) == Some(g)
  {
    var s := Spell(t, g) + e;
    if t == [] {
      assert s == e;
    } else {
      assert WellFormed(t[1..]);
      match t[0]
      case Lit(l) =>
        assert s == l + (Spell(t[1..], g) + e);
        assert s[..|l|] == l && s[|l|..] == Spell(t[1..], g) + e;
        DecodeComplete(t[1..], g, e);
      case Slot =>
        DecodeComplete(t[1..], g[1..], e);
        DecodeSlotStep(t, g, e);
    }
  }

  /** The slot step of `DecodeComplete`: the greedy run takes exactly the
      first group, because what follows it does not start with a digit. */
  lemma DecodeSlotStep(t: Template, g: seq<string>, e: string)
    requires WellFormed(t) && t != [] && t[0].Slot?
    requires |g| == Slots(t) && AllCaptures(g) && AtEnd(e)
    requires Decode(t[1..], Spell(t[1..], g[1..]) + e) == Some(g[1..])
    ensures Decode(t, Spell(t, g) + e) == Some(g)
  {
    var s := Spell(t, g) + e;
    var rest := Spell(t[1..], g[1..]) + e;
    assert s == g[0] + rest;
    if t[1..] != [] {
      assert t[1].Lit?;
    }
    AfterSlot(t[1..], g[1..], e);
    DigitRunExact(g[0], rest);
    assert s[..|g[0]|] == g[0] && s[|g[0]|..] == rest;
    assert [g[0]] + g[1..] == g;
  }

  /** The decoder and the regular expression agree: a string is decoded to
      `g` exactly when it spells the template with the digit groups `g`,
      followed by nothing or a single newline. */
  lemma DecodeExactly(t: Template, s: string, g: seq<string>)
    requires WellFormed(t)
    ensures Decode(t, s) == Some(g) <==>
      |g| == Slots(t) && AllCaptures(g) && (s == Spell(t, g) || s == Spell(t, g) + "\n")
  {
    if Decode(t, s) == Some(g) {
      DecodeSound(t, s);
    }
    if |g| == Slots(t) && AllCaptures(g) {
      if s == Spell(t, g) {
        DecodeComplete(t, g, []);
        assert Spell(t, g) + [] == s;
      } else if s == Spell(t, g) + "\n" {
        DecodeComplete(t, g, "\n");
      }
    }
  }

  lemma {:induction false} RenderCons(t: Template, args: seq<int>)
    requires t != [] && t[0].Slot? && |args| == Slots(t)
    ensures Render(t, args) == Decimal.IntToString(args[0]) + Render(t[1..], args[1..])
  {
    assert Texts(args)[1..] == Texts(args[1..]);
  }

  /** Decoding a rendered token fails exactly when a number was negative
      (its `-` is not a digit); otherwise the groups are the numbers' decimal
      texts, which parse back to the numbers. */
  lemma {:induction false} RenderDecode(t: Template, args: seq<int>)
    requires WellFormed(t) && |args| == Slots(t)
    ensures Decode(t, Render(t, args)).Some? <==> AllNonNegative(args)
    ensures AllNonNegative(args) ==>
      Decode(t, Render(t, args)) == Some(Texts(args)) && Numbers(Texts(args)) == args
    decreases |t|
  {
    var s := Render(t, args);
    if t != [] {
      assert WellFormed(t[1..]);
      match t[0]
      case Lit(l) =>
        assert s == l + Render(t[1..], args);
        assert s[..|l|] == l && s[|l|..] == Render(t[1..], args);
        RenderDecode(t[1..], args);
      case Slot =>
        var tail := Render(t[1..], args[1..]);
        RenderCons(t, args);
        RenderDecode(t[1..], args[1..]);
        if args[0] < 0 {
          assert s[0] == '-';
        } else {
          var d := Decimal.Digits(args[0]);
          assert s == d + tail;
          if t[1..] != [] {
            assert t[1].Lit?;
          }
          AfterSlot(t[1..], Texts(args[1..]), []);
          assert tail + [] == tail;
          DigitRunExact(d, tail);
          assert s[..|d|] == d && s[|d|..] == tail;
          Decimal.ParseDigits(args[0]);
          assert [d] + Texts(args[1..]) == Texts(args);
          if AllNonNegative(args) {
            assert AllNonNegative(args[1..]);
            assert Numbers(Texts(args)) == [args[0]] + Numbers(Texts(args[1..]));
          } else {
            assert !AllNonNegative(args[1..]);
          }
        }
    }
  }

  /** `fill_string_pattern` with no more `{}` fields than arguments */
  function FormatText(t: Template): string {
    if t == [] then []
    else match t[0]
      case Lit(s) => s + FormatText(t[1..])
      case Slot => "{}" + FormatText(t[1..])
  }

  lemma BodyHasNoAnchors(t: Template)
    requires WellFormed(t)
    ensures forall k :: 0 <= k < |Body(t)| ==> !FillPattern.IsAnchor(Body(t)[k])
  {
    if t != [] {
      assert WellFormed(t[1..]);
      BodyHasNoAnchors(t[1..]);
      var head := PieceSource(t[0]);
      forall k | 0 <= k < |Body(t)|
        ensures !FillPattern.IsAnchor(Body(t)[k])
      {
        if k < |head| {
          assert Body(t)[k] == head[k];
          if t[0].Lit? {
            assert SafeChar(t[0].text[k]);
          }
        } else {
          assert Body(t)[k] == Body(t[1..])[k - |head|];
        }
      }
    }
  }

  /** Replacing the groups turns the body into the format string. */
  lemma {:induction false} SubGroupsBody(t: Template)
    requires WellFormed(t)
    ensures FillPattern.SubGroups(Body(t)) == FormatText(t)
    decreases |t|
  {
    if t == [] {
    } else {
      assert WellFormed(t[1..]);
      SubGroupsBody(t[1..]);
      match t[0]
      case Lit(l) =>
        assert forall k :: 0 <= k < |l| ==> SafeChar(l[k]);
        FillPattern.SubGroupsPlain(l, Body(t[1..]));
      case Slot =>
        var inner := "\\d+";
        assert DigitGroup == "(" + inner + ")";
        FillPattern.SubGroupsGroup(inner, Body(t[1..]));
    }
  }

  /** Formatting the fields with the arguments gives the rendered token, or
      `IndexError` when there are fewer arguments than slots. */
  lemma {:induction false} FormatTemplate(t: Template, args: seq<int>)
    requires WellFormed(t)
    ensures FillPattern.Format(FormatText(t), args) ==
      if |args| >= Slots(t) then Ok(Render(t, args[..Slots(t)]))
      else Err(FillPattern.MissingArgument)
    decreases |t|
  {
    if t == [] {
    } else {
      assert WellFormed(t[1..]);
      match t[0]
      case Lit(l) =>
        assert forall k :: 0 <= k < |l| ==> SafeChar(l[k]);
        FillPattern.FormatPlain(l, FormatText(t[1..]), args);
        FormatTemplate(t[1..], args);
        if |args| >= Slots(t) {
          assert Render(t, args[..Slots(t)]) == l + Render(t[1..], args[..Slots(t)]);
        }
      case Slot =>
        FillPattern.FormatField(FormatText(t[1..]), args);
        if args != [] {
          FormatTemplate(t[1..], args[1..]);
          if |args| >= Slots(t) {
            var n := Slots(t);
            RenderCons(t, args[..n]);
            assert args[..n][1..] == args[1..][..n - 1];
          }
        }
    }
  }

  /** `fill_string_pattern` renders a pattern's source text into the token:
      the anchors go, each group takes the next number in order, literal
      text is kept, and extra arguments are ignored. */
  lemma FillSource(t: Template, args: seq<int>)
    requires WellFormed(t)
    ensures FillPattern.Fill(Source(t), args) ==
      if |args| >= Slots(t) then Ok(Render(t, args[..Slots(t)]))
      else Err(FillPattern.MissingArgument)
  {
    BodyHasNoAnchors(t);
    FillPattern.StripAnchorsExact("^", Body(t), "$");
    SubGroupsBody(t);
    FormatTemplate(t, args);
  }

  lemma ScopedSource(head: string, scope: string)
    ensures Source([Lit(head), Slot, Lit(scope), Slot]) ==
      "^" + head + DigitGroup + scope + DigitGroup + "$"
  {
    var t := [Lit(head), Slot, Lit(scope), Slot];
    assert t[1..] == [Slot, Lit(scope), Slot] && t[2..] == [Lit(scope), Slot] && t[3..] == [Slot];
    assert t[3..][1..] == [];
    assert Body(t[3..]) == DigitGroup + [] == DigitGroup;
    assert Body(t[2..]) == scope + Body(t[3..]);
    assert Body(t[1..]) == DigitGroup + Body(t[2..]);
    assert Body(t) == head + Body(t[1..]);
  }

  /** `PATTERN_PAGE_COVER` is the template `PageCover`. */
  lemma PageCoverSource()
    ensures Source(PageCover) == "^cover#(\\d+)$"
  {
    assert Body(PageCover) == "cover#" + DigitGroup;
  }

  /** `PATTERN_PAGE_COVER_BY_GAME` is the template `PageCoverByGame`. */
  lemma PageCoverByGameSource()
    ensures Source(PageCoverByGame) == "^" + "cover#" + "(\\d+)" + "_by_game_id=" + "(\\d+)" + "$"
  {
    ScopedSource("cover#", "_by_game_id=");
  }

  /** `PATTERN_PAGE_COVER_BY_GAME_SERIES` is the template `PageCoverByGameSeries`. */
  lemma PageCoverByGameSeriesSource()
    ensures Source(PageCoverByGameSeries) == "^" + "cover#" + "(\\d+)" + "_by_game_series_id=" + "(\\d+)" + "$"
  {
    ScopedSource("cover#", "_by_game_series_id=");
  }

  /** `PATTERN_PAGE_COVER_BY_AUTHOR` is the template `PageCoverByAuthor`. */
  lemma PageCoverByAuthorSource()
    ensures Source(PageCoverByAuthor) == "^" + "cover#" + "(\\d+)" + "_by_author_id=" + "(\\d+)" + "$"
  {
    ScopedSource("cover#", "_by_author_id=");
  }

  /** A page pattern with a scope literal and a second slot is well formed
      when its scope literal is a non-empty run of safe characters. */
  lemma ScopedWellFormed(scope: string)
    requires scope != [] && forall k :: 0 <= k < |scope| ==> SafeChar(scope[k])
    ensures WellFormed([Lit("cover#"), Slot, Lit(scope), Slot])
  {
    var head := "cover#";
    assert forall k :: 0 <= k < |head| ==> SafeChar(head[k]);
  }

  lemma PatternsWellFormed()
    ensures forall i :: 0 <= i < |Patterns| ==> WellFormed(Patterns[i])
  {
    var head := "cover#";
    assert forall k :: 0 <= k < |head| ==> SafeChar(head[k]);
    assert WellFormed(Patterns[0]);
    forall i | 1 <= i < |Patterns| ensures WellFormed(Patterns[i]) {
      var scope := ScopeTexts[i - 1];
      assert forall k :: 0 <= k < |scope| ==> SafeChar(scope[k]);
      ScopedWellFormed(scope);
      assert Patterns[i] == [Lit("cover#"), Slot, Lit(scope), Slot];
    }
  }

  function LiteralLength(t: Template): nat {
    if t == [] then 0
    else match t[0]
      case Lit(s) => |s| + LiteralLength(t[1..])
      case Slot => LiteralLength(t[1..])
  }

  function TextLength(args: seq<int>): nat {
    if args == [] then 0 else |Decimal.IntToString(args[0])| + TextLength(args[1..])
  }

  /** A token is as long as the template's literal text plus the decimal
      texts of its numbers. */
  lemma {:induction false} RenderLength(t: Template, args: seq<int>)
    requires |args| == Slots(t)
    ensures |Render(t, args)| == LiteralLength(t) + TextLength(args)
    decreases |t|
  {
    if t != [] {
      match t[0]
      case Lit(l) =>
        RenderLength(t[1..], args);
      case Slot =>
        RenderCons(t, args);
        RenderLength(t[1..], args[1..]);
    }
  }

  /** Two templates sharing a head can both decode a string only if their
      tails both decode what follows the head. */
  lemma {:induction false} CommonHead(h: Template, u1: Template, u2: Template, s: string)
    requires Decode(h + u1, s).Some? && Decode(h + u2, s).Some?
    ensures exists rest :: Decode(u1, rest).Some? && Decode(u2, rest).Some?
    decreases |h|
  {
    if h == [] {
      assert h + u1 == u1 && h + u2 == u2;
    } else {
      var t1, t2 := h + u1, h + u2;
      assert t1[0] == t2[0] == h[0];
      assert t1[1..] == h[1..] + u1 && t2[1..] == h[1..] + u2;
      match h[0]
      case Lit(l) =>
        CommonHead(h[1..], u1, u2, s[|l|..]);
      case Slot =>
        CommonHead(h[1..], u1, u2, s[DigitRun(s)..]);
    }
  }

  /** Tails that no remainder fits both stay apart behind a common head. */
  lemma HeadKeepsDisjoint(h: Template, u1: Template, u2: Template, s: string)
    requires forall rest :: !(Decode(u1, rest).Some? && Decode(u2, rest).Some?)
    ensures !(Decode(h + u1, s).Some? && Decode(h + u2, s).Some?)
  {
    if Decode(h + u1, s).Some? && Decode(h + u2, s).Some? {
      CommonHead(h, u1, u2, s);
    }
  }

  /** A template opening with a literal decodes only strings that start with it. */
  lemma LitFirst(l: string, u: Template, s: string)
    requires Decode([Lit(l)] + u, s).Some?
    ensures |l| <= |s| && s[..|l|] == l
  {
    var t := [Lit(l)] + u;
    assert t[0] == Lit(l);
  }

  /** The end of a token and a literal of two or more characters never both fit. */
  lemma EndOrLiteral(b: string, rest: string)
    requires |b| >= 2
    ensures !(Decode([], rest).Some? && Decode([Lit(b), Slot], rest).Some?)
  {
    if Decode([Lit(b), Slot], rest).Some? {
      assert [Lit(b), Slot] == [Lit(b)] + [Slot];
      LitFirst(b, [Slot], rest);
    }
  }

  /** Literals that differ at some position never both fit. */
  lemma LiteralClash(a: string, b: string, k: nat, rest: string)
    requires k < |a| && k < |b| && a[k] != b[k]
    ensures !(Decode([Lit(a), Slot], rest).Some? && Decode([Lit(b), Slot], rest).Some?)
  {
  }

  lemma SpellOneSlot(head: string, g: seq<string>)
    ensures Slots([Lit(head), Slot]) == 1
    ensures |g| == 1 ==> Spell([Lit(head), Slot], g) == head + g[0]
  {
    var t := [Lit(head), Slot];
    assert t[1..] == [Slot] && t[1..][1..] == [];
    if |g| == 1 {
      assert g[1..] == [];
      assert Spell(t[1..], g) == g[0] + [];
    }
  }

  /** Spelling a literal followed by a slot writes the literal, then the
      first group, then spells the rest with the remaining groups. */
  lemma SpellLitSlot(s: string, rest: Template, g: seq<string>)
    requires |g| == 1 + Slots(rest)
    ensures Slots([Lit(s), Slot] + rest) == 1 + Slots(rest)
    ensures Spell([Lit(s), Slot] + rest, g) == s + g[0] + Spell(rest, g[1..])
  {
    var t := [Lit(s), Slot] + rest;
    assert t[1..] == [Slot] + rest;
    assert t[1..][1..] == rest;
  }

  /** A literal, a slot, a literal and a slot hold two slots. */
  lemma TwoSlotsCount(head: string, scope: string)
    ensures Slots([Lit(head), Slot, Lit(scope), Slot]) == 2
  {
    var tail: Template := [Lit(scope), Slot];
    assert [Lit(head), Slot, Lit(scope), Slot] == [Lit(head), Slot] + tail;
    assert tail == [Lit(scope), Slot] + [];
    SpellLitSlot(scope, [], [""]);
    SpellLitSlot(head, tail, ["", ""]);
  }

  lemma SpellTwoSlots(head: string, scope: string, g: seq<string>)
    requires |g| == 2
    ensures Slots([Lit(head), Slot, Lit(scope), Slot]) == 2
    ensures Spell([Lit(head), Slot, Lit(scope), Slot], g) == head + g[0] + scope + g[1]
  {
    TwoSlotsCount(head, scope);
    var tail: Template := [Lit(scope), Slot];
    assert [Lit(head), Slot, Lit(scope), Slot] == [Lit(head), Slot] + tail;
    assert tail == [Lit(scope), Slot] + [];
    SpellLitSlot(scope, [], g[1..]);
    assert g[1..][1..] == [];
    SpellLitSlot(head, tail, g);
  }

  /** The scoped part of a pattern: nothing for the plain one, the scope
      literal and its slot for the others. */
  function ScopePart(i: nat): Template
    requires i < |Patterns|
  {
    if i == 0 then [] else [Lit(ScopeTexts[i - 1]), Slot]
  }

  /** Every pattern starts with `cover#` and a slot, then its scoped part. */
  lemma PatternShape(i: nat)
    requires i < |Patterns|
    ensures Patterns[i] == [Lit("cover#"), Slot] + ScopePart(i)
  {
  }

  /** No two scope literals accept the same remainder. */
  lemma ScopesClash(a: nat, b: nat, rest: string)
    requires a < b < |ScopeTexts|
    ensures !(Decode([Lit(ScopeTexts[a]), Slot], rest).Some? && Decode([Lit(ScopeTexts[b]), Slot], rest).Some?)
  {
    var x, y := ScopeTexts[a], ScopeTexts[b];
    if a == 0 && b == 1 {
      assert x[9] == 'i' && y[9] == 's';
      LiteralClash(x, y, 9, rest);
    } else {
      assert x[4] == 'g' && y[4] == 'a';
      LiteralClash(x, y, 4, rest);
    }
  }

  /** The four cover-pagination patterns are pairwise disjoint: no callback
      string matches two of them. */
  lemma PatternsDisjoint(i: nat, j: nat, s: string)
    requires i < j < |Patterns|
    ensures !(Decode(Patterns[i], s).Some? && Decode(Patterns[j], s).Some?)
  {
    PatternShape(i);
    PatternShape(j);
    forall rest ensures !(Decode(ScopePart(i), rest).Some? && Decode(ScopePart(j), rest).Some?) {
      if i == 0 {
        EndOrLiteral(ScopeTexts[j - 1], rest);
      } else {
        ScopesClash(i - 1, j - 1, rest);
      }
    }
    HeadKeepsDisjoint([Lit("cover#"), Slot], ScopePart(i), ScopePart(j), s);
  }

  /** `PATTERN_PAGE_COVER` accepts exactly `cover#` followed by one or more
      digits (and, as `$` allows, one final newline), capturing the digits. */
  lemma PageCoverLanguage(s: string, g: seq<string>)
    ensures Decode(PageCover, s) == Some(g) <==>
      |g| == 1 && Capture(g[0]) && (s == "cover#" + g[0] || s == "cover#" + g[0] + "\n")
  {
    DecodeExactly(PageCover, s, g);
    SpellOneSlot("cover#", g);
  }

  /** Each `by_*` pattern accepts exactly `cover#<digits>_by_<scope>_id=<digits>`
      (and one final newline), capturing the page and then the id. */
  lemma ScopedLanguage(k: nat, s: string, g: seq<string>)
    requires k < |ScopeTexts|
    ensures Decode(Patterns[k + 1], s) == Some(g) <==>
      |g| == 2 && Capture(g[0]) && Capture(g[1]) &&
      (s == "cover#" + g[0] + ScopeTexts[k] + g[1] || s == "cover#" + g[0] + ScopeTexts[k] + g[1] + "\n")
  {
    PatternsWellFormed();
    assert Patterns[k + 1] == [Lit("cover#"), Slot, Lit(ScopeTexts[k]), Slot];
    TwoSlotLanguage("cover#", ScopeTexts[k], s, g);
  }

  lemma TwoSlotLanguage(head: string, scope: string, s: string, g: seq<string>)
    requires WellFormed([Lit(head), Slot, Lit(scope), Slot])
    ensures Decode([Lit(head), Slot, Lit(scope), Slot], s) == Some(g) <==>
      |g| == 2 && Capture(g[0]) && Capture(g[1]) &&
      (s == head + g[0] + scope + g[1] || s == head + g[0] + scope + g[1] + "\n")
  {
    DecodeExactly([Lit(head), Slot, Lit(scope), Slot], s, g);
    TwoSlotsCount(head, scope);
    if |g| == 2 {
      SpellTwoSlots(head, scope, g);
    }
  }
}
