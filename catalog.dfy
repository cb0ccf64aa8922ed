/** The catalog tables of bot/db.py as in-memory rows, in table order:
    game series, games, covers, authors and the author-to-cover links.
    Foreign keys hold ids; a game without a series has `series == None`
    (the column is nullable). `date_time` is an integer timestamp. */
module Catalog {
  import opened Wrappers
  import Seqs

  datatype GameSeries = GameSeries(id: int, name: string, slug: string)

  datatype Game = Game(id: int, name: string, slug: string, series: Option<int>)

  datatype Cover = Cover(
    id: int,
    text: string,
    fileName: string,
    urlPost: string,
    urlPostImage: string,
    game: int,
    serverFileId: Option<string>,
    dateTime: int)

  datatype Author = Author(id: int, name: string, url: string)

  /** A row of `Author2Cover`. */
  datatype Link = Link(author: int, cover: int)

  datatype Tables = Tables(
    series: seq<GameSeries>,
    games: seq<Game>,
    covers: seq<Cover>,
    authors: seq<Author>,
    links: seq<Link>)

  function SeriesId(s: GameSeries): int { s.id }
  function GameId(g: Game): int { g.id }
  function CoverId(c: Cover): int { c.id }
  function AuthorId(a: Author): int { a.id }
  function DateTimeOf(c: Cover): int { c.dateTime }

  /** The primary keys. */
  predicate UniqueIds(t: Tables) {
    && Seqs.UniqueBy(t.series, SeriesId)
    && Seqs.UniqueBy(t.games, GameId)
    && Seqs.UniqueBy(t.covers, CoverId)
    && Seqs.UniqueBy(t.authors, AuthorId)
  }

  /** `Game.series` refers to a series when it is not NULL. */
  predicate SeriesKeys(t: Tables) {
    forall g :: g in t.games && g.series.Some? ==> exists s :: s in t.series && s.id == g.series.value
  }

  /** `Cover.game` refers to a game. */
  predicate GameKeys(t: Tables) {
    forall c :: c in t.covers ==> exists g :: g in t.games && g.id == c.game
  }

  /** Both ends of an `Author2Cover` row refer to rows. */
  predicate LinkKeys(t: Tables) {
    && (forall l :: l in t.links ==> exists a :: a in t.authors && a.id == l.author)
    && (forall l :: l in t.links ==> exists c :: c in t.covers && c.id == l.cover)
  }

  /** The foreign keys, which the database enforces (`foreign_keys` is on). */
  predicate ForeignKeys(t: Tables) {
    SeriesKeys(t) && GameKeys(t) && LinkKeys(t)
  }

  function SeriesSlug(s: GameSeries): string { s.slug }
  function GameSlug(g: Game): string { g.slug }
  function FileName(c: Cover): string { c.fileName }
  function AuthorUrl(a: Author): string { a.url }

  /** No two rows agree on `f`. */
  predicate UniqueKey<T, K(==)>(s: seq<T>, f: T -> K) {
    forall i, j :: 0 <= i < j < |s| ==> f(s[i]) != f(s[j])
  }

  /** The `unique=True` columns and the unique `(author, cover)` index. */
  predicate UniqueColumns(t: Tables) {
    && UniqueKey(t.series, SeriesSlug)
    && UniqueKey(t.games, GameSlug)
    && UniqueKey(t.covers, FileName)
    && UniqueKey(t.authors, AuthorUrl)
    && Seqs.NoDuplicates(t.links)
  }

  /** The integrity the schema guarantees to every query. */
  predicate Consistent(t: Tables) {
    UniqueIds(t) && UniqueColumns(t) && ForeignKeys(t)
  }

  function CoverById(covers: seq<Cover>, id: int): (r: Option<Cover>)
    ensures r.Some? ==> r.value in covers && r.value.id == id
    ensures r.None? ==> forall c :: c in covers ==> c.id != id
  {
    if covers == [] then None
    else if covers[0].id == id then Some(covers[0])
    else CoverById(covers[1..], id)
  }

  function GameById(games: seq<Game>, id: int): (r: Option<Game>)
    ensures r.Some? ==> r.value in games && r.value.id == id
    ensures r.None? ==> forall g :: g in games ==> g.id != id
  {
    if games == [] then None
    else if games[0].id == id then Some(games[0])
    else GameById(games[1..], id)
  }

  function SeriesById(series: seq<GameSeries>, id: int): (r: Option<GameSeries>)
    ensures r.Some? ==> r.value in series && r.value.id == id
    ensures r.None? ==> forall s :: s in series ==> s.id != id
  {
    if series == [] then None
    else if series[0].id == id then Some(series[0])
    else SeriesById(series[1..], id)
  }

  function AuthorById(authors: seq<Author>, id: int): (r: Option<Author>)
    ensures r.Some? ==> r.value in authors && r.value.id == id
    ensures r.None? ==> forall a :: a in authors ==> a.id != id
  {
    if authors == [] then None
    else if authors[0].id == id then Some(authors[0])
    else AuthorById(authors[1..], id)
  }

  /** With a unique key, a row is the one its id looks up. */
  lemma CoverByIdUnique(covers: seq<Cover>, c: Cover)
    requires Seqs.UniqueBy(covers, CoverId) && c in covers
    ensures CoverById(covers, c.id) == Some(c)
  {
    var k :| 0 <= k < |covers| && covers[k] == c;
    var r := CoverById(covers, c.id).value;
    var m :| 0 <= m < |covers| && covers[m] == r;
    assert m == k;
  }

  lemma GameByIdUnique(games: seq<Game>, g: Game)
    requires Seqs.UniqueBy(games, GameId) && g in games
    ensures GameById(games, g.id) == Some(g)
  {
    var k :| 0 <= k < |games| && games[k] == g;
    var r := GameById(games, g.id).value;
    var m :| 0 <= m < |games| && games[m] == r;
    assert m == k;
  }

  lemma SeriesByIdUnique(series: seq<GameSeries>, s: GameSeries)
    requires Seqs.UniqueBy(series, SeriesId) && s in series
    ensures SeriesById(series, s.id) == Some(s)
  {
    var k :| 0 <= k < |series| && series[k] == s;
    var r := SeriesById(series, s.id).value;
    var m :| 0 <= m < |series| && series[m] == r;
    assert m == k;
  }

  lemma AuthorByIdUnique(authors: seq<Author>, a: Author)
    requires Seqs.UniqueBy(authors, AuthorId) && a in authors
    ensures AuthorById(authors, a.id) == Some(a)
  {
    var k :| 0 <= k < |authors| && authors[k] == a;
    var r := AuthorById(authors, a.id).value;
    var m :| 0 <= m < |authors| && authors[m] == r;
    assert m == k;
  }
}
