/** The lookups of `GameSeries` and `Game` by name or slug (bot/db.py):
    `get_by_slug` normalises its argument with `get_slug` and refuses an
    empty result; `get_by` refuses a missing or blank name and looks up the
    name's slug. A refusal is `NotDefinedParameterException`, which names the
    parameter. */
module Lookups {
  import opened Wrappers
  import opened Catalog
  import Slug

  /** The exceptions the catalog's writes and lookups raise. */
  datatype DbError =
    | NotDefinedParameter(parameterName: string)  // `NotDefinedParameterException`
    | IntegrityError                              // a unique or foreign key refused by SQLite

  /** `not s or not s.strip()`. */
  predicate Blank(s: Option<string>) {
    s.None? || s.value == "" || Slug.Strip(s.value) == ""
  }

  /** `Model.get_or_none(slug=slug)`. */
  function FindBySlug<T>(rows: seq<T>, slug: string, slugOf: T -> string): (r: Option<T>)
    ensures r.Some? ==> r.value in rows && slugOf(r.value) == slug
    ensures r.None? ==> forall i :: 0 <= i < |rows| ==> slugOf(rows[i]) != slug
  {
    if rows == [] then None
    else if slugOf(rows[0]) == slug then Some(rows[0])
    else
      var r := FindBySlug(rows[1..], slug, slugOf);
      assert forall i :: 1 <= i < |rows| ==> rows[i] == rows[1..][i - 1];
      r
  }

  /** `get_by_slug`, shared by `GameSeries` and `Game`. */
  function GetBySlug<T>(rows: seq<T>, slug: Option<string>, slugOf: T -> string): Result<Option<T>, DbError> {
    var s := Slug.GetSlug(slug);
    if Blank(Some(s)) then Err(NotDefinedParameter("slug"))
    else Ok(FindBySlug(rows, s, slugOf))
  }

  /** `get_by`, shared by `GameSeries` and `Game`. */
  function GetBy<T>(rows: seq<T>, name: Option<string>, slugOf: T -> string): Result<Option<T>, DbError> {
    if Blank(name) then Err(NotDefinedParameter("name"))
    else GetBySlug(rows, Some(Slug.GetSlug(name)), slugOf)
  }

  /** `GameSeries.get_by_slug` and `GameSeries.get_by`. */
  function SeriesGetBySlug(series: seq<GameSeries>, slug: Option<string>): Result<Option<GameSeries>, DbError> {
    GetBySlug(series, slug, SeriesSlug)
  }

  function SeriesGetBy(series: seq<GameSeries>, name: Option<string>): Result<Option<GameSeries>, DbError> {
    GetBy(series, name, SeriesSlug)
  }

  /** `Game.get_by_slug` and `Game.get_by`. */
  function GameGetBySlug(games: seq<Game>, slug: Option<string>): Result<Option<Game>, DbError> {
    GetBySlug(games, slug, GameSlug)
  }

  function GameGetBy(games: seq<Game>, name: Option<string>): Result<Option<Game>, DbError> {
    GetBy(games, name, GameSlug)
  }

  /** A slug holds no whitespace, so `strip` leaves it as it is. */
  lemma StripSlug(s: string)
    requires Slug.AllSlugChars(s)
    ensures Slug.Strip(s) == s
  {
    if s != [] {
      assert !Slug.IsSpace(s[0]) && !Slug.IsSpace(s[|s| - 1]);
      assert Slug.TrimLeft(s) == s;
    }
  }

  /** What `get_by_slug` answers: a refusal exactly when the slug of its
      argument is empty, otherwise the row whose slug that is, if any. */
  lemma GetBySlugMeaning<T>(rows: seq<T>, slug: Option<string>, slugOf: T -> string)
    ensures Slug.GetSlug(slug) == "" ==> GetBySlug(rows, slug, slugOf) == Err(NotDefinedParameter("slug"))
    ensures Slug.GetSlug(slug) != "" ==> GetBySlug(rows, slug, slugOf) == Ok(FindBySlug(rows, Slug.GetSlug(slug), slugOf))
  {
    StripSlug(Slug.GetSlug(slug));
  }

  /** What `get_by` answers: a blank name is refused as a name, a name whose
      slug is empty as a slug (`get_slug` is applied twice, which changes
      nothing), and otherwise the row with the name's slug is found. */
  lemma GetByMeaning<T>(rows: seq<T>, name: Option<string>, slugOf: T -> string)
    ensures Blank(name) ==> GetBy(rows, name, slugOf) == Err(NotDefinedParameter("name"))
    ensures !Blank(name) && Slug.GetSlug(name) == "" ==> GetBy(rows, name, slugOf) == Err(NotDefinedParameter("slug"))
    ensures !Blank(name) && Slug.GetSlug(name) != "" ==>
      GetBy(rows, name, slugOf) == Ok(FindBySlug(rows, Slug.GetSlug(name), slugOf))
  {
    Slug.SlugIdempotent(name);
    GetBySlugMeaning(rows, Some(Slug.GetSlug(name)), slugOf);
  }

  /** A value whose slug is empty is refused by all four lookups. */
  lemma EmptySlugRefused(series: seq<GameSeries>, games: seq<Game>, v: Option<string>)
    requires Slug.GetSlug(v) == ""
    ensures SeriesGetBy(series, v).Err? && GameGetBy(games, v).Err?
    ensures SeriesGetBySlug(series, v).Err? && GameGetBySlug(games, v).Err?
  {
    GetByMeaning(series, v, SeriesSlug);
    GetByMeaning(games, v, GameSlug);
    GetBySlugMeaning(series, v, SeriesSlug);
    GetBySlugMeaning(games, v, GameSlug);
  }

  /** Blanks, and a mark between blanks, have the empty slug. */
  lemma BlankSlugs()
    ensures Slug.GetSlug(Some("    ")) == ""
    ensures Slug.GetSlug(Some(" ! ")) == ""
  {
    assert Slug.Strip("    ") == "";
    assert Slug.Strip(" ! ") == "!";
  }

  /** The values the repository's test expects to be refused by all four
      lookups: `''`, `'    '`, `' ! '` and `None`. */
  lemma BlankValuesRefused(series: seq<GameSeries>, games: seq<Game>)
    ensures forall v :: v in [Some(""), Some("    "), Some(" ! "), None] ==>
      && SeriesGetBy(series, v).Err? && GameGetBy(games, v).Err?
      && SeriesGetBySlug(series, v).Err? && GameGetBySlug(games, v).Err?
  {
    Slug.SlugOfNothing();
    BlankSlugs();
    forall v | v in [Some(""), Some("    "), Some(" ! "), None]
      ensures SeriesGetBy(series, v).Err? && GameGetBy(games, v).Err?
      ensures SeriesGetBySlug(series, v).Err? && GameGetBySlug(games, v).Err?
    {
      EmptySlugRefused(series, games, v);
    }
  }

  /** With unique slugs the row found is the one with that slug. */
  lemma FindBySlugUnique<T>(rows: seq<T>, x: T, slugOf: T -> string)
    requires UniqueKey(rows, slugOf) && x in rows
    ensures FindBySlug(rows, slugOf(x), slugOf) == Some(x)
  {
    var k :| 0 <= k < |rows| && rows[k] == x;
    var r := FindBySlug(rows, slugOf(x), slugOf).value;
    var m :| 0 <= m < |rows| && rows[m] == r;
    assert m == k;
  }

  /** Appending a row with the slug that was not found makes it found. */
  lemma {:induction false} FindBySlugAppend<T>(rows: seq<T>, x: T, slug: string, slugOf: T -> string)
    requires FindBySlug(rows, slug, slugOf).None? && slugOf(x) == slug
    ensures FindBySlug(rows + [x], slug, slugOf) == Some(x)
  {
    if rows != [] {
      assert (rows + [x])[1..] == rows[1..] + [x];
      FindBySlugAppend(rows[1..], x, slug, slugOf);
    }
  }
}
