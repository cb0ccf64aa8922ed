/** The catalog database of bot/db.py as one object whose tables are
    sequences of rows that the writes append to: the get-or-create `add`
    class methods of `GameSeries`, `Game` and `Author`, `GameSeries.get_unknown`,
    the plain `create` of covers and links the ingestion uses, and the chat
    request counter. A write either succeeds or raises, and a raising write
    changes nothing. */
module Store {
  import opened Wrappers
  import opened Catalog
  import opened Lookups
  import Slug
  import Decimal
  import Seqs

  /** The series `GameSeries.get_unknown` creates, with id 0. */
  const UnknownSeriesName: string := "<Без серии>"

  /** The prefix of the profile address `Author.add` derives from an id. */
  const ProfilePrefix: string := "https://vk.com/id"

  function MaxId(ids: seq<int>): (m: int)
    requires ids != []
    ensures m in ids
    ensures forall i :: 0 <= i < |ids| ==> ids[i] <= m
  {
    if |ids| == 1 then ids[0]
    else
      var rest := MaxId(ids[1..]);
      assert forall i :: 1 <= i < |ids| ==> ids[i] == ids[1..][i - 1];
      if ids[0] >= rest then ids[0] else rest
  }

  /** The id SQLite gives a row inserted without one: one more than the
      largest id in the table, or 1 in an empty table. */
  function NextId(ids: seq<int>): (r: int)
    ensures forall i :: 0 <= i < |ids| ==> ids[i] < r
  {
    if ids == [] then 1 else MaxId(ids) + 1
  }

  function SeriesIds(rows: seq<GameSeries>): (r: seq<int>)
    ensures |r| == |rows| && forall i :: 0 <= i < |rows| ==> r[i] == rows[i].id
  {
    if rows == [] then [] else [rows[0].id] + SeriesIds(rows[1..])
  }

  function GameIds(rows: seq<Game>): (r: seq<int>)
    ensures |r| == |rows| && forall i :: 0 <= i < |rows| ==> r[i] == rows[i].id
  {
    if rows == [] then [] else [rows[0].id] + GameIds(rows[1..])
  }

  function CoverIds(rows: seq<Cover>): (r: seq<int>)
    ensures |r| == |rows| && forall i :: 0 <= i < |rows| ==> r[i] == rows[i].id
  {
    if rows == [] then [] else [rows[0].id] + CoverIds(rows[1..])
  }

  /** The address `Author.add` uses when none is given. */
  function ProfileUrl(id: int): string {
    ProfilePrefix + Decimal.IntToString(id)
  }

  /** Different ids have different derived addresses. */
  lemma ProfileUrlInjective(a: int, b: int)
    requires ProfileUrl(a) == ProfileUrl(b)
    ensures a == b
  {
    var p := |ProfilePrefix|;
    assert ProfileUrl(a)[p..] == Decimal.IntToString(a);
    assert ProfileUrl(b)[p..] == Decimal.IntToString(b);
    Decimal.IntToStringInjective(a, b);
  }

  /** Every series and game was created through `add`, whose lookup refuses
      an empty slug, so no stored slug is empty. */
  predicate SlugsDefined(t: Tables) {
    && (forall s :: s in t.series ==> s.slug != "")
    && (forall g :: g in t.games ==> g.slug != "")
  }

  predicate ValidTables(t: Tables) {
    Consistent(t) && SlugsDefined(t)
  }

  // ---------------------------------------------------------------------
  // Appending one row keeps the tables valid.

  lemma InsertSeries(t: Tables, s: GameSeries)
    requires ValidTables(t)
    requires forall x :: x in t.series ==> x.id != s.id && x.slug != s.slug
    requires s.slug != ""
    ensures ValidTables(t.(series := t.series + [s]))
  {
    var u := t.(series := t.series + [s]);
    assert forall i :: 0 <= i < |t.series| ==> u.series[i] == t.series[i];
    assert forall x :: x in u.series <==> x in t.series || x == s;
  }

  lemma InsertGame(t: Tables, g: Game)
    requires ValidTables(t)
    requires forall x :: x in t.games ==> x.id != g.id && x.slug != g.slug
    requires g.slug != ""
    requires g.series.Some? ==> exists s :: s in t.series && s.id == g.series.value
    ensures ValidTables(t.(games := t.games + [g]))
  {
    var u := t.(games := t.games + [g]);
    assert forall i :: 0 <= i < |t.games| ==> u.games[i] == t.games[i];
    assert forall x :: x in u.games <==> x in t.games || x == g;
  }

  lemma InsertAuthor(t: Tables, a: Author)
    requires ValidTables(t)
    requires forall x :: x in t.authors ==> x.id != a.id && x.url != a.url
    ensures ValidTables(t.(authors := t.authors + [a]))
  {
    var u := t.(authors := t.authors + [a]);
    assert forall i :: 0 <= i < |t.authors| ==> u.authors[i] == t.authors[i];
    assert forall x :: x in u.authors <==> x in t.authors || x == a;
  }

  lemma InsertCover(t: Tables, c: Cover)
    requires ValidTables(t)
    requires forall x :: x in t.covers ==> x.id != c.id && x.fileName != c.fileName
    requires exists g :: g in t.games && g.id == c.game
    ensures ValidTables(t.(covers := t.covers + [c]))
  {
    var u := t.(covers := t.covers + [c]);
    assert forall i :: 0 <= i < |t.covers| ==> u.covers[i] == t.covers[i];
    assert forall x :: x in u.covers <==> x in t.covers || x == c;
  }

  lemma InsertLink(t: Tables, l: Link)
    requires ValidTables(t)
    requires l !in t.links
    requires exists a :: a in t.authors && a.id == l.author
    requires exists c :: c in t.covers && c.id == l.cover
    ensures ValidTables(t.(links := t.links + [l]))
  {
    var u := t.(links := t.links + [l]);
    assert forall i :: 0 <= i < |t.links| ==> u.links[i] == t.links[i];
    assert forall x :: x in u.links <==> x in t.links || x == l;
  }

  /** After a series with the slug of `name` is stored, `get_by(name)` finds it. */
  lemma FoundAfterInsert<T>(rows: seq<T>, x: T, name: string, slugOf: T -> string)
    requires UniqueKey(rows, slugOf) && x in rows
    requires slugOf(x) == Slug.GetSlug(Some(name))
    requires GetBy(rows, Some(name), slugOf).Ok?
    ensures GetBy(rows, Some(name), slugOf) == Ok(Some(x))
  {
    GetByMeaning(rows, Some(name), slugOf);
    FindBySlugUnique(rows, x, slugOf);
  }

  /** What a get-or-create answers, and the table it leaves. */
  datatype Added<T> = Added(result: Result<T, DbError>, rows: seq<T>)

  /** `GameSeries.add(name, id)`: the series `get_by(name)` finds, or else a
      new one with the name, its slug and the given id (SQLite's next id
      when none is given). The lookup's refusal propagates; an id already
      taken is refused by the primary key. */
  function AddSeriesTo(series: seq<GameSeries>, name: string, id: Option<int>): (a: Added<GameSeries>)
    ensures a.rows == series || (a.result.Ok? && a.rows == series + [a.result.value])
    ensures a.result.Ok? ==> a.result.value in a.rows
  {
    match SeriesGetBy(series, Some(name))
    case Err(e) => Added(Err(e), series)
    case Ok(Some(s)) => Added(Ok(s), series)
    case Ok(None) =>
      if id.Some? && id.value in SeriesIds(series) then Added(Err(IntegrityError), series)
      else
        var s := GameSeries(if id.Some? then id.value else NextId(SeriesIds(series)), name, Slug.GetSlug(Some(name)));
        Added(Ok(s), series + [s])
  }

  /** `Game.add(name, game_series)`: the game `get_by(name)` finds, or else
      a new one with the name, its slug, SQLite's next id and the series
      (`None` for none). A series id naming no series is refused by the
      foreign key. */
  function AddGameTo(games: seq<Game>, series: seq<GameSeries>, name: string, seriesId: Option<int>): (a: Added<Game>)
    ensures a.rows == games || (a.result.Ok? && a.rows == games + [a.result.value])
    ensures a.result.Ok? ==> a.result.value in a.rows
  {
    match GameGetBy(games, Some(name))
    case Err(e) => Added(Err(e), games)
    case Ok(Some(g)) => Added(Ok(g), games)
    case Ok(None) =>
      if seriesId.Some? && seriesId.value !in SeriesIds(series) then Added(Err(IntegrityError), games)
      else
        var g := Game(NextId(GameIds(games)), name, Slug.GetSlug(Some(name)), seriesId);
        Added(Ok(g), games + [g])
  }

  /** A lookup that found nothing finds something once a row with the slug
      is appended, and the row it finds is that one. */
  lemma FoundAfterAppend<T>(rows: seq<T>, x: T, name: string, slugOf: T -> string)
    requires GetBy(rows, Some(name), slugOf) == Ok(None)
    requires slugOf(x) == Slug.GetSlug(Some(name))
    ensures GetBy(rows + [x], Some(name), slugOf) == Ok(Some(x))
  {
    GetByMeaning(rows, Some(name), slugOf);
    GetByMeaning(rows + [x], Some(name), slugOf);
    FindBySlugAppend(rows, x, Slug.GetSlug(Some(name)), slugOf);
  }

  /** `add` keeps the tables valid: the new series has a fresh id, a fresh
      and non-empty slug. */
  lemma AddSeriesKeepsValid(t: Tables, name: string, id: Option<int>)
    requires ValidTables(t)
    ensures ValidTables(t.(series := AddSeriesTo(t.series, name, id).rows))
  {
    var a := AddSeriesTo(t.series, name, id);
    if a.rows != t.series {
      GetByMeaning(t.series, Some(name), SeriesSlug);
      var ids := SeriesIds(t.series);
      var s := a.result.value;
      forall x | x in t.series ensures x.id != s.id && x.slug != s.slug {
        var k :| 0 <= k < |t.series| && t.series[k] == x;
        assert ids[k] == x.id;
      }
      InsertSeries(t, s);
    }
  }

  /** The game `add` creates has a fresh id, a fresh and non-empty slug and
      an existing series, if any. */
  lemma NewGameFits(t: Tables, name: string, seriesId: Option<int>)
    requires ValidTables(t)
    requires AddGameTo(t.games, t.series, name, seriesId).rows != t.games
    ensures var g := AddGameTo(t.games, t.series, name, seriesId).result.value;
      && (forall x :: x in t.games ==> x.id != g.id && x.slug != g.slug)
      && g.slug != ""
      && (g.series.Some? ==> exists s :: s in t.series && s.id == g.series.value)
  {
    GetByMeaning(t.games, Some(name), GameSlug);
    var ids := GameIds(t.games);
    var g := AddGameTo(t.games, t.series, name, seriesId).result.value;
    forall x | x in t.games ensures x.id != g.id && x.slug != g.slug {
      var k :| 0 <= k < |t.games| && t.games[k] == x;
      assert ids[k] == x.id;
    }
    if seriesId.Some? {
      var sids := SeriesIds(t.series);
      var k :| 0 <= k < |t.series| && sids[k] == seriesId.value;
      assert t.series[k] in t.series;
    }
  }

  lemma AddGameKeepsValid(t: Tables, name: string, seriesId: Option<int>)
    requires ValidTables(t)
    ensures ValidTables(t.(games := AddGameTo(t.games, t.series, name, seriesId).rows))
  {
    var a := AddGameTo(t.games, t.series, name, seriesId);
    if a.rows != t.games {
      NewGameFits(t, name, seriesId);
      InsertGame(t, a.result.value);
    }
  }

  /** After a successful `add`, `get_by(name)` finds the series it answered. */
  lemma AddSeriesFinds(series: seq<GameSeries>, name: string, id: Option<int>)
    requires UniqueKey(series, SeriesSlug)
    ensures var a := AddSeriesTo(series, name, id);
      a.result.Ok? ==> SeriesGetBy(a.rows, Some(name)) == Ok(Some(a.result.value))
    ensures var a := AddSeriesTo(series, name, id);
      a.result.Ok? ==> a.result.value.slug == Slug.GetSlug(Some(name))
  {
    var a := AddSeriesTo(series, name, id);
    match SeriesGetBy(series, Some(name))
    case Err(_) =>
    case Ok(Some(x)) =>
      GetByMeaning(series, Some(name), SeriesSlug);
      FoundAfterInsert(series, x, name, SeriesSlug);
    case Ok(None) =>
      if a.result.Ok? {
        FoundAfterAppend(series, a.result.value, name, SeriesSlug);
      }
    if a.result.Ok? {
      GetByMeaning(a.rows, Some(name), SeriesSlug);
    }
  }

  lemma AddGameFinds(games: seq<Game>, series: seq<GameSeries>, name: string, seriesId: Option<int>)
    requires UniqueKey(games, GameSlug)
    ensures var a := AddGameTo(games, series, name, seriesId);
      a.result.Ok? ==> GameGetBy(a.rows, Some(name)) == Ok(Some(a.result.value))
    ensures var a := AddGameTo(games, series, name, seriesId);
      a.result.Ok? ==> a.result.value.slug == Slug.GetSlug(Some(name))
  {
    var a := AddGameTo(games, series, name, seriesId);
    match GameGetBy(games, Some(name))
    case Err(_) =>
    case Ok(Some(x)) =>
      GetByMeaning(games, Some(name), GameSlug);
      FoundAfterInsert(games, x, name, GameSlug);
    case Ok(None) =>
      if a.result.Ok? {
        FoundAfterAppend(games, a.result.value, name, GameSlug);
      }
    if a.result.Ok? {
      GetByMeaning(a.rows, Some(name), GameSlug);
    }
  }

  /** `Author.add(id, name, url)`: the author with the id, left as it is,
      or else a new author; a missing or empty url becomes the profile
      address of the id. A url already taken is refused by its unique
      index. */
  function AddAuthorTo(authors: seq<Author>, id: int, name: string, url: Option<string>): (a: Added<Author>)
    ensures a.rows == authors || (a.result.Ok? && a.rows == authors + [a.result.value])
    ensures a.result.Ok? ==> a.result.value in a.rows && a.result.value.id == id
  {
    match AuthorById(authors, id)
    case Some(x) => Added(Ok(x), authors)
    case None =>
      var u := if url.None? || url.value == "" then ProfileUrl(id) else url.value;
      if exists x :: x in authors && x.url == u then Added(Err(IntegrityError), authors)
      else Added(Ok(Author(id, name, u)), authors + [Author(id, name, u)])
  }

  lemma AddAuthorKeepsValid(t: Tables, id: int, name: string, url: Option<string>)
    requires ValidTables(t)
    ensures ValidTables(t.(authors := AddAuthorTo(t.authors, id, name, url).rows))
  {
    var a := AddAuthorTo(t.authors, id, name, url);
    if a.rows != t.authors {
      InsertAuthor(t, a.result.value);
    }
  }

  /** An author already stored under the id is answered as it is: its name
      and url are not overwritten and nothing is stored. */
  lemma AddAuthorExisting(authors: seq<Author>, x: Author, name: string, url: Option<string>)
    requires Seqs.UniqueBy(authors, AuthorId) && x in authors
    ensures AddAuthorTo(authors, x.id, name, url) == Added(Ok(x), authors)
  {
    AuthorByIdUnique(authors, x);
  }

  /** A new author is stored with the given name and the url (the profile
      address when none is given), unless another author holds that url. */
  lemma AddAuthorNew(authors: seq<Author>, id: int, name: string, url: Option<string>)
    requires forall x :: x in authors ==> x.id != id
    ensures var u := if url.None? || url.value == "" then ProfileUrl(id) else url.value;
      && ((exists x :: x in authors && x.url == u) ==> AddAuthorTo(authors, id, name, url) == Added(Err(IntegrityError), authors))
      && ((forall x :: x in authors ==> x.url != u) ==>
            AddAuthorTo(authors, id, name, url) == Added(Ok(Author(id, name, u)), authors + [Author(id, name, u)]))
  {
  }

  /** A name whose slug is not empty is not blank. */
  lemma SluggedNotBlank(name: string)
    requires Slug.GetSlug(Some(name)) != ""
    ensures !Blank(Some(name))
  {
    assert Slug.Normalize("") == "";
  }

  /** `add` of a name whose slug a stored series has answers that series
      and stores nothing. */
  lemma AddSeriesExisting(series: seq<GameSeries>, s: GameSeries, name: string, id: Option<int>)
    requires UniqueKey(series, SeriesSlug) && s in series
    requires s.slug == Slug.GetSlug(Some(name)) && s.slug != ""
    ensures AddSeriesTo(series, name, id) == Added(Ok(s), series)
  {
    SluggedNotBlank(name);
    GetByMeaning(series, Some(name), SeriesSlug);
    FindBySlugUnique(series, s, SeriesSlug);
  }

  lemma AddGameExisting(games: seq<Game>, series: seq<GameSeries>, g: Game, name: string, seriesId: Option<int>)
    requires UniqueKey(games, GameSlug) && g in games
    requires g.slug == Slug.GetSlug(Some(name)) && g.slug != ""
    ensures AddGameTo(games, series, name, seriesId) == Added(Ok(g), games)
  {
    SluggedNotBlank(name);
    GetByMeaning(games, Some(name), GameSlug);
    FindBySlugUnique(games, g, GameSlug);
  }

  /** The refusals of `add`: a blank name, a name whose slug is empty, and
      (only when nothing is found) an id already taken. A name with a
      non-empty slug and a fresh id is always answered. */
  lemma AddSeriesRefusals(series: seq<GameSeries>, name: string, id: Option<int>)
    ensures Blank(Some(name)) ==> AddSeriesTo(series, name, id).result == Err(NotDefinedParameter("name"))
    ensures !Blank(Some(name)) && Slug.GetSlug(Some(name)) == "" ==>
      AddSeriesTo(series, name, id).result == Err(NotDefinedParameter("slug"))
    ensures Slug.GetSlug(Some(name)) != "" && (id.None? || id.value !in SeriesIds(series)) ==>
      AddSeriesTo(series, name, id).result.Ok?
  {
    GetByMeaning(series, Some(name), SeriesSlug);
    if Slug.GetSlug(Some(name)) != "" {
      SluggedNotBlank(name);
    }
  }

  /** `add` twice is `add` once: the second call finds the row the first
      answered and stores nothing, whatever id it is given. */
  lemma AddSeriesIdempotent(series: seq<GameSeries>, name: string, id: Option<int>, id2: Option<int>)
    requires UniqueKey(series, SeriesSlug)
    requires AddSeriesTo(series, name, id).result.Ok?
    ensures var a := AddSeriesTo(series, name, id);
      AddSeriesTo(a.rows, name, id2) == a
  {
    AddSeriesFinds(series, name, id);
  }

  lemma AddGameIdempotent(games: seq<Game>, series: seq<GameSeries>, name: string, seriesId: Option<int>, seriesId2: Option<int>)
    requires UniqueKey(games, GameSlug)
    requires AddGameTo(games, series, name, seriesId).result.Ok?
    ensures var a := AddGameTo(games, series, name, seriesId);
      AddGameTo(a.rows, series, name, seriesId2) == a
  {
    AddGameFinds(games, series, name, seriesId);
  }

  /** `TgChat`: the loaded row of a chat. `inc_number_requests` writes the
      database only, so the loaded `number_requests` keeps the value it had
      when the row was read. */
  class Chat {
    const id: int
    var numberRequests: nat

    constructor (id: int, numberRequests: nat)
      ensures this.id == id && this.numberRequests == numberRequests
    {
      this.id := id;
      this.numberRequests := numberRequests;
    }

    /** `is_first_request`: the loaded count is 0 or 1. */
    function IsFirstRequest(): (r: bool)
      reads this
      ensures r <==> numberRequests < 2
    {
      numberRequests == 0 || numberRequests == 1
    }

    /** `inc_number_requests`: `UPDATE tgchat SET number_requests =
        number_requests + 1 WHERE id = ...`; without a stored row nothing is
        updated. The loaded row is not refreshed. */
    method IncNumberRequests(db: Database)
      modifies db
      ensures db.requests == if id in old(db.requests) then old(db.requests)[id := old(db.requests)[id] + 1] else old(db.requests)
      ensures db.Rows() == old(db.Rows())
      ensures numberRequests == old(numberRequests)
    {
      db.requests := if id in db.requests then db.requests[id := db.requests[id] + 1] else db.requests;
    }
  }

  class Database {
    var series: seq<GameSeries>
    var games: seq<Game>
    var covers: seq<Cover>
    var authors: seq<Author>
    var links: seq<Link>
    /** `TgChat.number_requests` by chat id. */
    var requests: map<int, nat>

    function Rows(): Tables
      reads this
    {
      Tables(series, games, covers, authors, links)
    }

    predicate Valid()
      reads this
    {
      ValidTables(Rows())
    }

    constructor ()
      ensures Valid()
      ensures series == [] && games == [] && covers == [] && authors == [] && links == []
      ensures requests == map[]
    {
      series, games, covers, authors, links := [], [], [], [], [];
      requests := map[];
    }

    /** `GameSeries.add(name, id)`; what it answers and stores is
        `AddSeriesTo`. */
    method AddSeries(name: string, id: Option<int>) returns (r: Result<GameSeries, DbError>)
      requires Valid()
      modifies this
      ensures Valid()
      ensures r == AddSeriesTo(old(series), name, id).result && series == AddSeriesTo(old(series), name, id).rows
      ensures games == old(games) && covers == old(covers) && authors == old(authors) && links == old(links)
      ensures requests == old(requests)
    {
      AddSeriesKeepsValid(Rows(), name, id);
      var a := AddSeriesTo(series, name, id);
      r, series := a.result, a.rows;
    }

    /** `GameSeries.get_unknown`: `add` of the series `<Без серии>` with
        id 0. */
    method GetUnknown() returns (r: Result<GameSeries, DbError>)
      requires Valid()
      modifies this
      ensures Valid()
      ensures r == AddSeriesTo(old(series), UnknownSeriesName, Some(0)).result
      ensures series == AddSeriesTo(old(series), UnknownSeriesName, Some(0)).rows
      ensures games == old(games) && covers == old(covers) && authors == old(authors) && links == old(links)
      ensures requests == old(requests)
    {
      r := AddSeries(UnknownSeriesName, Some(0));
    }

    /** `Game.add(name, game_series)`; what it answers and stores is
        `AddGameTo`. */
    method AddGame(name: string, seriesId: Option<int>) returns (r: Result<Game, DbError>)
      requires Valid()
      modifies this
      ensures Valid()
      ensures r == AddGameTo(old(games), series, name, seriesId).result
      ensures games == AddGameTo(old(games), series, name, seriesId).rows
      ensures series == old(series) && covers == old(covers) && authors == old(authors) && links == old(links)
      ensures requests == old(requests)
    {
      AddGameKeepsValid(Rows(), name, seriesId);
      var a := AddGameTo(games, series, name, seriesId);
      r, games := a.result, a.rows;
    }

    /** `Author.add(id, name, url)`; what it answers and stores is
        `AddAuthorTo`. */
    method AddAuthor(id: int, name: string, url: Option<string>) returns (r: Result<Author, DbError>)
      requires Valid()
      modifies this
      ensures Valid()
      ensures r == AddAuthorTo(old(authors), id, name, url).result
      ensures authors == AddAuthorTo(old(authors), id, name, url).rows
      ensures series == old(series) && games == old(games) && covers == old(covers) && links == old(links)
      ensures requests == old(requests)
    {
      AddAuthorKeepsValid(Rows(), id, name, url);
      var a := AddAuthorTo(authors, id, name, url);
      r, authors := a.result, a.rows;
    }

    /** `Cover.create(...)` with SQLite's next id and no Telegram file id;
        a file name already taken, or a game that does not exist, is refused. */
    method CreateCover(text: string, fileName: string, urlPost: string, urlPostImage: string, game: int, dateTime: int)
      returns (r: Result<Cover, DbError>)
      requires Valid()
      modifies this
      ensures Valid()
      ensures series == old(series) && games == old(games) && authors == old(authors) && links == old(links)
      ensures requests == old(requests)
      ensures (exists c :: c in old(covers) && c.fileName == fileName) || GameById(games, game).None? ==>
        r == Err(IntegrityError) && covers == old(covers)
      ensures !(exists c :: c in old(covers) && c.fileName == fileName) && GameById(games, game).Some? ==>
        && r == Ok(Cover(NextId(old(CoverIds(covers))), text, fileName, urlPost, urlPostImage, game, None, dateTime))
        && covers == old(covers) + [r.value]
    {
      if (exists c :: c in covers && c.fileName == fileName) || GameById(games, game).None? {
        return Err(IntegrityError);
      }
      var ids := CoverIds(covers);
      var c := Cover(NextId(ids), text, fileName, urlPost, urlPostImage, game, None, dateTime);
      forall x | x in covers ensures x.id != c.id && x.fileName != c.fileName {
        var k :| 0 <= k < |covers| && covers[k] == x;
        assert ids[k] == x.id;
      }
      InsertCover(Rows(), c);
      covers := covers + [c];
      r := Ok(c);
    }

    /** `Author2Cover.create(author, cover)`: refused by the unique index when
        the pair is stored, and by the foreign keys when either row is missing. */
    method CreateLink(author: int, cover: int) returns (r: Result<Link, DbError>)
      requires Valid()
      modifies this
      ensures Valid()
      ensures series == old(series) && games == old(games) && covers == old(covers) && authors == old(authors)
      ensures requests == old(requests)
      ensures Link(author, cover) in old(links) || AuthorById(authors, author).None? || CoverById(covers, cover).None? ==>
        r == Err(IntegrityError) && links == old(links)
      ensures !(Link(author, cover) in old(links) || AuthorById(authors, author).None? || CoverById(covers, cover).None?) ==>
        r == Ok(Link(author, cover)) && links == old(links) + [Link(author, cover)]
    {
      if Link(author, cover) in links || AuthorById(authors, author).None? || CoverById(covers, cover).None? {
        return Err(IntegrityError);
      }
      InsertLink(Rows(), Link(author, cover));
      links := links + [Link(author, cover)];
      r := Ok(Link(author, cover));
    }

    /** `TgChat.add(id)`: loads the chat's row, creating it with no requests
        counted when there is none. */
    method AddChat(id: int) returns (chat: Chat)
      modifies this
      ensures fresh(chat) && chat.id == id
      ensures chat.numberRequests == if id in old(requests) then old(requests)[id] else 0
      ensures requests == old(requests)[id := chat.numberRequests]
      ensures Rows() == old(Rows())
      ensures id !in old(requests) ==> chat.IsFirstRequest()
    {
      var n := if id in requests then requests[id] else 0;
      requests := requests[id := n];
      chat := new Chat(id, n);
    }
  }
}
