/** The `get_filters` class methods of bot/db.py. Each scoping id that is
    given (not `None`; an id of 0 is given) adds one `WHERE` condition, built
    from the subqueries the source writes; caller-supplied extra filters are
    appended after them. A row passes a list of conditions when it passes
    each of them, so the empty list matches every row.

    Extra filters in the source are arbitrary peewee expressions; here they
    are id sets (`IdIn`), which is what any condition on a fixed table with
    unique ids selects. */
module Filters {
  import opened Wrappers
  import opened Catalog

  // ---------------------------------------------------------------------
  // The subqueries, as sets of ids.

  /** `Author2Cover.select(Author2Cover.cover).where(Author2Cover.author == a)` */
  function CoverIdsOfAuthor(t: Tables, a: int): set<int> {
    set l | l in t.links && l.author == a :: l.cover
  }

  /** `Cover.select(Cover.game).distinct().where(Cover.id.in_(...))` */
  function GameIdsOfAuthor(t: Tables, a: int): set<int> {
    set c | c in t.covers && c.id in CoverIdsOfAuthor(t, a) :: c.game
  }

  /** `Game.select(Game.series).distinct().where(Game.id.in_(...))`; a NULL
      series matches no id, so it is left out. */
  function SeriesIdsOfAuthor(t: Tables, a: int): set<int> {
    set g | g in t.games && g.id in GameIdsOfAuthor(t, a) && g.series.Some? :: g.series.value
  }

  /** `Game.select(Game.id).distinct().where(Game.series == s)`; SQL's `=`
      never holds for a NULL series. */
  function GameIdsInSeries(t: Tables, s: int): set<int> {
    set g | g in t.games && g.series == Some(s) :: g.id
  }

  /** `Cover.select(Cover.id).where(Cover.game.in_(games))` */
  function CoverIdsOfGames(t: Tables, games: set<int>): set<int> {
    set c | c in t.covers && c.game in games :: c.id
  }

  /** `Author2Cover.select(Author2Cover.author).distinct().where(Author2Cover.cover.in_(covers))` */
  function AuthorIdsOfCovers(t: Tables, covers: set<int>): set<int> {
    set l | l in t.links && l.cover in covers :: l.author
  }

  // ---------------------------------------------------------------------
  // What the scopes mean, stated over the rows without subqueries.

  predicate CoverLinked(t: Tables, a: int, c: Cover) {
    Link(a, c.id) in t.links
  }

  /** The cover's game belongs to series `s`. */
  predicate CoverInSeries(t: Tables, s: int, c: Cover) {
    exists g :: g in t.games && g.id == c.game && g.series == Some(s)
  }

  /** Some cover of the game is linked to author `a`. */
  predicate GameLinked(t: Tables, a: int, g: Game) {
    exists c :: c in t.covers && c.game == g.id && Link(a, c.id) in t.links
  }

  /** Some game of the series has a cover linked to author `a`. */
  predicate SeriesLinked(t: Tables, a: int, s: GameSeries) {
    exists g :: g in t.games && g.series == Some(s.id) && GameLinked(t, a, g)
  }

  /** The author is linked to a cover of a game of series `s`. */
  predicate AuthorInSeries(t: Tables, s: int, a: Author) {
    exists c :: c in t.covers && CoverInSeries(t, s, c) && Link(a.id, c.id) in t.links
  }

  /** The author is linked to a cover of game `g`. */
  predicate AuthorOfGame(t: Tables, g: int, a: Author) {
    exists c :: c in t.covers && c.game == g && Link(a.id, c.id) in t.links
  }

  // ---------------------------------------------------------------------
  // Covers.

  datatype CoverFilter =
    | CoverIdIn(ids: set<int>)               // `Cover.id.in_(ids)`
    | CoverGameIn(games: set<int>)           // `Cover.game.in_(ids)`
    | CoverGameIs(game: int)                 // `Cover.game == game`

  predicate CoverPasses(f: CoverFilter, c: Cover) {
    match f
    case CoverIdIn(ids) => c.id in ids
    case CoverGameIn(games) => c.game in games
    case CoverGameIs(game) => c.game == game
  }

  predicate CoverPassesAll(fs: seq<CoverFilter>, c: Cover) {
    forall i :: 0 <= i < |fs| ==> CoverPasses(fs[i], c)
  }

  /** The arguments of `Cover.get_filters`, shared by `count_by`,
      `get_by_page` and `get_page`. */
  datatype CoverScope = CoverScope(
    byAuthor: Option<int>,
    byGameSeries: Option<int>,
    byGame: Option<int>,
    filters: seq<CoverFilter>)

  /** A cover is in the scope when it is linked to the author, its game is in
      the series and it is of the game, for each scope given, and it passes
      the extra filters. */
  predicate InCoverScope(t: Tables, sc: CoverScope, c: Cover) {
    && (sc.byAuthor.Some? ==> CoverLinked(t, sc.byAuthor.value, c))
    && (sc.byGameSeries.Some? ==> CoverInSeries(t, sc.byGameSeries.value, c))
    && (sc.byGame.Some? ==> c.game == sc.byGame.value)
    && CoverPassesAll(sc.filters, c)
  }

  function Given(o: Option<int>): nat {
    if o.Some? then 1 else 0
  }

  lemma CoverOfAuthorMeaning(t: Tables, a: int, c: Cover)
    ensures CoverPasses(CoverIdIn(CoverIdsOfAuthor(t, a)), c) <==> CoverLinked(t, a, c)
  {
    if c.id in CoverIdsOfAuthor(t, a) {
      var l :| l in t.links && l.author == a && l.cover == c.id;
      assert l == Link(a, c.id);
    }
  }

  lemma CoverInSeriesMeaning(t: Tables, s: int, c: Cover)
    ensures CoverPasses(CoverGameIn(GameIdsInSeries(t, s)), c) <==> CoverInSeries(t, s, c)
  {
    if c.game in GameIdsInSeries(t, s) {
      var g :| g in t.games && g.series == Some(s) && g.id == c.game;
    }
  }

  lemma CoverPassesAllAppend(a: seq<CoverFilter>, b: seq<CoverFilter>, c: Cover)
    ensures CoverPassesAll(a + b, c) <==> CoverPassesAll(a, c) && CoverPassesAll(b, c)
  {
    if CoverPassesAll(a + b, c) {
      forall i | 0 <= i < |a| ensures CoverPasses(a[i], c) {
        assert (a + b)[i] == a[i];
      }
      forall i | 0 <= i < |b| ensures CoverPasses(b[i], c) {
        assert (a + b)[|a| + i] == b[i];
      }
    }
  }

  /** `Cover.get_filters`: one condition per given scope, in the order
      author, series, game, then the extra filters; a cover passes them all
      exactly when it is in the scope, so with nothing given every cover
      passes. */
  method CoverGetFilters(t: Tables, sc: CoverScope) returns (total: seq<CoverFilter>)
    ensures |total| == Given(sc.byAuthor) + Given(sc.byGameSeries) + Given(sc.byGame) + |sc.filters|
    ensures total[|total| - |sc.filters|..] == sc.filters
    ensures forall c :: CoverPassesAll(total, c) <==> InCoverScope(t, sc, c)
  {
    total := [];
    if sc.byAuthor.Some? {
      total := total + [CoverIdIn(CoverIdsOfAuthor(t, sc.byAuthor.value))];
    }
    if sc.byGameSeries.Some? {
      total := total + [CoverGameIn(GameIdsInSeries(t, sc.byGameSeries.value))];
    }
    if sc.byGame.Some? {
      total := total + [CoverGameIs(sc.byGame.value)];
    }
    ghost var byAuthor := if sc.byAuthor.Some? then [CoverIdIn(CoverIdsOfAuthor(t, sc.byAuthor.value))] else [];
    ghost var bySeries := if sc.byGameSeries.Some? then [CoverGameIn(GameIdsInSeries(t, sc.byGameSeries.value))] else [];
    ghost var byGame := if sc.byGame.Some? then [CoverGameIs(sc.byGame.value)] else [];
    assert total == byAuthor + bySeries + byGame;
    total := total + sc.filters;
    forall c ensures CoverPassesAll(total, c) <==> InCoverScope(t, sc, c) {
      if sc.byAuthor.Some? {
        CoverOfAuthorMeaning(t, sc.byAuthor.value, c);
      }
      if sc.byGameSeries.Some? {
        CoverInSeriesMeaning(t, sc.byGameSeries.value, c);
      }
      if sc.byAuthor.Some? {
        assert CoverPassesAll(byAuthor, c) <==> CoverPasses(byAuthor[0], c);
      }
      if sc.byGameSeries.Some? {
        assert CoverPassesAll(bySeries, c) <==> CoverPasses(bySeries[0], c);
      }
      if sc.byGame.Some? {
        assert CoverPassesAll(byGame, c) <==> CoverPasses(byGame[0], c);
      }
      CoverPassesAllAppend(byAuthor, bySeries, c);
      CoverPassesAllAppend(byAuthor + bySeries, byGame, c);
      CoverPassesAllAppend(byAuthor + bySeries + byGame, sc.filters, c);
    }
  }

  // ---------------------------------------------------------------------
  // Games.

  datatype GameFilter =
    | GameIdIn(ids: set<int>)                // `Game.id.in_(ids)`
    | GameSeriesIs(series: int)              // `Game.series == series`

  predicate GamePasses(f: GameFilter, g: Game) {
    match f
    case GameIdIn(ids) => g.id in ids
    case GameSeriesIs(s) => g.series == Some(s)
  }

  predicate GamePassesAll(fs: seq<GameFilter>, g: Game) {
    forall i :: 0 <= i < |fs| ==> GamePasses(fs[i], g)
  }

  predicate InGameScope(t: Tables, byAuthor: Option<int>, byGameSeries: Option<int>, filters: seq<GameFilter>, g: Game) {
    && (byAuthor.Some? ==> GameLinked(t, byAuthor.value, g))
    && (byGameSeries.Some? ==> g.series == Some(byGameSeries.value))
    && GamePassesAll(filters, g)
  }

  /** A game passes the author condition when one of its covers is linked
      to the author. */
  lemma GameOfAuthorMeaning(t: Tables, a: int, g: Game)
    ensures GamePasses(GameIdIn(GameIdsOfAuthor(t, a)), g) <==> GameLinked(t, a, g)
  {
    if g.id in GameIdsOfAuthor(t, a) {
      var c :| c in t.covers && c.id in CoverIdsOfAuthor(t, a) && c.game == g.id;
      CoverOfAuthorMeaning(t, a, c);
    }
    if GameLinked(t, a, g) {
      var c :| c in t.covers && c.game == g.id && Link(a, c.id) in t.links;
      CoverOfAuthorMeaning(t, a, c);
    }
  }

  lemma GamePassesAllAppend(a: seq<GameFilter>, b: seq<GameFilter>, g: Game)
    ensures GamePassesAll(a + b, g) <==> GamePassesAll(a, g) && GamePassesAll(b, g)
  {
    if GamePassesAll(a + b, g) {
      forall i | 0 <= i < |a| ensures GamePasses(a[i], g) {
        assert (a + b)[i] == a[i];
      }
      forall i | 0 <= i < |b| ensures GamePasses(b[i], g) {
        assert (a + b)[|a| + i] == b[i];
      }
    }
  }

  /** `Game.get_filters`. */
  method GameGetFilters(t: Tables, byAuthor: Option<int>, byGameSeries: Option<int>, filters: seq<GameFilter>)
    returns (total: seq<GameFilter>)
    ensures |total| == Given(byAuthor) + Given(byGameSeries) + |filters|
    ensures total[|total| - |filters|..] == filters
    ensures forall g :: GamePassesAll(total, g) <==> InGameScope(t, byAuthor, byGameSeries, filters, g)
  {
    total := [];
    if byAuthor.Some? {
      total := total + [GameIdIn(GameIdsOfAuthor(t, byAuthor.value))];
    }
    if byGameSeries.Some? {
      total := total + [GameSeriesIs(byGameSeries.value)];
    }
    ghost var first := if byAuthor.Some? then [GameIdIn(GameIdsOfAuthor(t, byAuthor.value))] else [];
    ghost var second := if byGameSeries.Some? then [GameSeriesIs(byGameSeries.value)] else [];
    assert total == first + second;
    total := total + filters;
    forall g ensures GamePassesAll(total, g) <==> InGameScope(t, byAuthor, byGameSeries, filters, g) {
      if byAuthor.Some? {
        GameOfAuthorMeaning(t, byAuthor.value, g);
      }
      if byAuthor.Some? {
        assert GamePassesAll(first, g) <==> GamePasses(first[0], g);
      }
      if byGameSeries.Some? {
        assert GamePassesAll(second, g) <==> GamePasses(second[0], g);
      }
      GamePassesAllAppend(first, second, g);
      GamePassesAllAppend(first + second, filters, g);
    }
  }

  // ---------------------------------------------------------------------
  // Game series.

  /** `GameSeries.id.in_(ids)`, the only condition `GameSeries.get_filters`
      builds. */
  datatype SeriesFilter = SeriesIdIn(ids: set<int>)

  predicate SeriesPassesAll(fs: seq<SeriesFilter>, s: GameSeries) {
    forall i :: 0 <= i < |fs| ==> s.id in fs[i].ids
  }

  predicate InSeriesScope(t: Tables, byAuthor: Option<int>, filters: seq<SeriesFilter>, s: GameSeries) {
    && (byAuthor.Some? ==> SeriesLinked(t, byAuthor.value, s))
    && SeriesPassesAll(filters, s)
  }

  /** A series passes the author condition when one of its games has a
      cover linked to the author. */
  lemma SeriesOfAuthorMeaning(t: Tables, a: int, s: GameSeries)
    ensures s.id in SeriesIdsOfAuthor(t, a) <==> SeriesLinked(t, a, s)
  {
    if s.id in SeriesIdsOfAuthor(t, a) {
      var g :| g in t.games && g.id in GameIdsOfAuthor(t, a) && g.series == Some(s.id);
      GameOfAuthorMeaning(t, a, g);
    }
    if SeriesLinked(t, a, s) {
      var g :| g in t.games && g.series == Some(s.id) && GameLinked(t, a, g);
      GameOfAuthorMeaning(t, a, g);
    }
  }

  lemma SeriesPassesAllAppend(a: seq<SeriesFilter>, b: seq<SeriesFilter>, s: GameSeries)
    ensures SeriesPassesAll(a + b, s) <==> SeriesPassesAll(a, s) && SeriesPassesAll(b, s)
  {
    if SeriesPassesAll(a + b, s) {
      forall i | 0 <= i < |a| ensures s.id in a[i].ids {
        assert (a + b)[i] == a[i];
      }
      forall i | 0 <= i < |b| ensures s.id in b[i].ids {
        assert (a + b)[|a| + i] == b[i];
      }
    }
  }

  /** `GameSeries.get_filters`. */
  method SeriesGetFilters(t: Tables, byAuthor: Option<int>, filters: seq<SeriesFilter>)
    returns (total: seq<SeriesFilter>)
    ensures |total| == Given(byAuthor) + |filters|
    ensures total[|total| - |filters|..] == filters
    ensures forall s :: SeriesPassesAll(total, s) <==> InSeriesScope(t, byAuthor, filters, s)
  {
    total := [];
    if byAuthor.Some? {
      total := total + [SeriesIdIn(SeriesIdsOfAuthor(t, byAuthor.value))];
    }
    ghost var first := total;
    total := total + filters;
    forall s ensures SeriesPassesAll(total, s) <==> InSeriesScope(t, byAuthor, filters, s) {
      if byAuthor.Some? {
        SeriesOfAuthorMeaning(t, byAuthor.value, s);
      }
      if byAuthor.Some? {
        assert SeriesPassesAll(first, s) <==> s.id in first[0].ids;
      }
      SeriesPassesAllAppend(first, filters, s);
    }
  }

  // ---------------------------------------------------------------------
  // Authors.

  /** `Author.id.in_(ids)`, the only condition `Author.get_filters` builds. */
  datatype AuthorFilter = AuthorIdIn(ids: set<int>)

  predicate AuthorPassesAll(fs: seq<AuthorFilter>, a: Author) {
    forall i :: 0 <= i < |fs| ==> a.id in fs[i].ids
  }

  predicate InAuthorScope(t: Tables, byGameSeries: Option<int>, byGame: Option<int>, filters: seq<AuthorFilter>, a: Author) {
    && (byGameSeries.Some? ==> AuthorInSeries(t, byGameSeries.value, a))
    && (byGame.Some? ==> AuthorOfGame(t, byGame.value, a))
    && AuthorPassesAll(filters, a)
  }

  lemma AuthorInSeriesMeaning(t: Tables, s: int, a: Author)
    ensures a.id in AuthorIdsOfCovers(t, CoverIdsOfGames(t, GameIdsInSeries(t, s))) <==> AuthorInSeries(t, s, a)
  {
    var covers := CoverIdsOfGames(t, GameIdsInSeries(t, s));
    if a.id in AuthorIdsOfCovers(t, covers) {
      var l :| l in t.links && l.cover in covers && l.author == a.id;
      var c :| c in t.covers && c.game in GameIdsInSeries(t, s) && c.id == l.cover;
      CoverInSeriesMeaning(t, s, c);
      assert l == Link(a.id, c.id);
    }
    if AuthorInSeries(t, s, a) {
      var c :| c in t.covers && CoverInSeries(t, s, c) && Link(a.id, c.id) in t.links;
      CoverInSeriesMeaning(t, s, c);
      assert c.id in covers;
      assert Link(a.id, c.id).author == a.id;
    }
  }

  lemma AuthorOfGameMeaning(t: Tables, g: int, a: Author)
    ensures a.id in AuthorIdsOfCovers(t, CoverIdsOfGames(t, {g})) <==> AuthorOfGame(t, g, a)
  {
    var covers := CoverIdsOfGames(t, {g});
    if a.id in AuthorIdsOfCovers(t, covers) {
      var l :| l in t.links && l.cover in covers && l.author == a.id;
      var c :| c in t.covers && c.game in {g} && c.id == l.cover;
      assert l == Link(a.id, c.id);
    }
    if AuthorOfGame(t, g, a) {
      var c :| c in t.covers && c.game == g && Link(a.id, c.id) in t.links;
      assert c.id in covers;
      assert Link(a.id, c.id).author == a.id;
    }
  }

  lemma AuthorPassesAllAppend(a: seq<AuthorFilter>, b: seq<AuthorFilter>, x: Author)
    ensures AuthorPassesAll(a + b, x) <==> AuthorPassesAll(a, x) && AuthorPassesAll(b, x)
  {
    if AuthorPassesAll(a + b, x) {
      forall i | 0 <= i < |a| ensures x.id in a[i].ids {
        assert (a + b)[i] == a[i];
      }
      forall i | 0 <= i < |b| ensures x.id in b[i].ids {
        assert (a + b)[|a| + i] == b[i];
      }
    }
  }

  /** `Author.get_filters`. */
  method AuthorGetFilters(t: Tables, byGameSeries: Option<int>, byGame: Option<int>, filters: seq<AuthorFilter>)
    returns (total: seq<AuthorFilter>)
    ensures |total| == Given(byGameSeries) + Given(byGame) + |filters|
    ensures total[|total| - |filters|..] == filters
    ensures forall a :: AuthorPassesAll(total, a) <==> InAuthorScope(t, byGameSeries, byGame, filters, a)
  {
    total := [];
    if byGameSeries.Some? {
      total := total + [AuthorIdIn(AuthorIdsOfCovers(t, CoverIdsOfGames(t, GameIdsInSeries(t, byGameSeries.value))))];
    }
    if byGame.Some? {
      total := total + [AuthorIdIn(AuthorIdsOfCovers(t, CoverIdsOfGames(t, {byGame.value})))];
    }
    ghost var first := if byGameSeries.Some? then [AuthorIdIn(AuthorIdsOfCovers(t, CoverIdsOfGames(t, GameIdsInSeries(t, byGameSeries.value))))] else [];
    ghost var second := if byGame.Some? then [AuthorIdIn(AuthorIdsOfCovers(t, CoverIdsOfGames(t, {byGame.value})))] else [];
    assert total == first + second;
    total := total + filters;
    forall a ensures AuthorPassesAll(total, a) <==> InAuthorScope(t, byGameSeries, byGame, filters, a) {
      if byGameSeries.Some? {
        AuthorInSeriesMeaning(t, byGameSeries.value, a);
      }
      if byGame.Some? {
        AuthorOfGameMeaning(t, byGame.value, a);
      }
      if byGameSeries.Some? {
        assert AuthorPassesAll(first, a) <==> a.id in first[0].ids;
      }
      if byGame.Some? {
        assert AuthorPassesAll(second, a) <==> a.id in second[0].ids;
      }
      AuthorPassesAllAppend(first, second, a);
      AuthorPassesAllAppend(first + second, filters, a);
    }
  }
}
