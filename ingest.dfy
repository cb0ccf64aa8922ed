/** The ingestion of data_vk/fill_db.py: `append_to_db` stores one post of
    the dump (its series, game, authors, cover and the author-cover links),
    reusing every row that is already there, and
    `make_identical_authors_unique` tags the names that several authors
    share with each author's id. */
module Ingest {
  import opened Wrappers
  import opened Catalog
  import opened Lookups
  import opened Store
  import Slug
  import Decimal
  import Seqs

  /** One entry of `dump['authors']`. */
  datatype AuthorDump = AuthorDump(id: int, name: string)

  /** One post of the dump. A missing `game_series` is `None`; `date_time`
      is the instant the ISO text names. */
  datatype Dump = Dump(
    gameSeries: Option<string>,
    gameName: string,
    authors: seq<AuthorDump>,
    photoFileName: string,
    postUrl: string,
    photoPostUrl: string,
    coverText: string,
    dateTime: int)

  /** `if series`: the post names a series. */
  predicate HasSeries(d: Dump) {
    d.gameSeries.Some? && d.gameSeries.value != ""
  }

  /** Every table of `t` is a prefix of the same table of `u`: rows are only
      ever appended, never changed or removed. */
  predicate Grown(t: Tables, u: Tables) {
    && t.series <= u.series && t.games <= u.games && t.covers <= u.covers
    && t.authors <= u.authors && t.links <= u.links
  }

  /** The post is in the tables: its series (when it names one) and its game
      under their slugs, each of its authors by id, and its cover by file
      name, linked to each of its authors. */
  predicate ContainsDump(t: Tables, d: Dump) {
    && (HasSeries(d) ==> exists s :: s in t.series && s.slug == Slug.GetSlug(d.gameSeries))
    && (exists g :: g in t.games && g.slug == Slug.GetSlug(Some(d.gameName)))
    && (forall a :: a in d.authors ==> exists x :: x in t.authors && x.id == a.id)
    && (exists c :: c in t.covers && c.fileName == d.photoFileName &&
         forall a :: a in d.authors ==> Link(a.id, c.id) in t.links)
  }

  lemma PrefixMembers<T(!new)>(a: seq<T>, b: seq<T>)
    requires a <= b
    ensures forall x :: x in a ==> x in b
  {
    forall x | x in a ensures x in b {
      var k :| 0 <= k < |a| && a[k] == x;
      assert b[k] == x;
    }
  }

  /** Under a unique column, the column names the row. */
  lemma SameKeySameRow<T, K>(s: seq<T>, f: T -> K, x: T, y: T)
    requires UniqueKey(s, f) && x in s && y in s && f(x) == f(y)
    ensures x == y
  {
    var i :| 0 <= i < |s| && s[i] == x;
    var j :| 0 <= j < |s| && s[j] == y;
    assert i == j;
  }

  /** Growing tables keep the post they contain. */
  lemma ContainsDumpGrown(t: Tables, u: Tables, d: Dump)
    requires Grown(t, u) && ContainsDump(t, d)
    ensures ContainsDump(u, d)
  {
    PrefixMembers(t.series, u.series);
    PrefixMembers(t.games, u.games);
    PrefixMembers(t.covers, u.covers);
    PrefixMembers(t.authors, u.authors);
    PrefixMembers(t.links, u.links);
  }

  /** `Cover.get_or_none(file_name=...)`. */
  function CoverByFileName(covers: seq<Cover>, fileName: string): (r: Option<Cover>)
    ensures r.Some? ==> r.value in covers && r.value.fileName == fileName
    ensures r.None? ==> forall c :: c in covers ==> c.fileName != fileName
  {
    if covers == [] then None
    else if covers[0].fileName == fileName then Some(covers[0])
    else
      var r := CoverByFileName(covers[1..], fileName);
      assert forall c :: c in covers ==> c == covers[0] || c in covers[1..];
      r
  }

  function DumpIds(authors: seq<AuthorDump>): (r: seq<int>)
    ensures |r| == |authors| && forall i :: 0 <= i < |authors| ==> r[i] == authors[i].id
  {
    if authors == [] then [] else [authors[0].id] + DumpIds(authors[1..])
  }

  /** The tables after a step of `append_to_db`, and what the step answered. */
  datatype Stepped<T> = Stepped(rows: Tables, result: Result<T, DbError>)

  /** The tables after `append_to_db`, and the exception it raised, if any. */
  datatype Outcome = Outcome(rows: Tables, err: Option<DbError>)

  // ---------------------------------------------------------------------
  // The steps of `append_to_db`, on the tables.

  /** `GameSeries.add(name=series) if series else None`: the id of the
      series, or `None` when the post names none. */
  function SeriesStep(t: Tables, d: Dump): (r: Stepped<Option<int>>)
    ensures r.rows == t.(series := r.rows.series) && t.series <= r.rows.series
  {
    if HasSeries(d) then
      var a := AddSeriesTo(t.series, d.gameSeries.value, None);
      Stepped(t.(series := a.rows), if a.result.Ok? then Ok(Some(a.result.value.id)) else Err(a.result.error))
    else Stepped(t, Ok(None))
  }

  /** `Game.add(name=name, series=game_series)` after the series step. */
  function GameStep(t: Tables, d: Dump): (r: Stepped<Game>)
    ensures r.rows == t.(series := r.rows.series, games := r.rows.games)
    ensures t.series <= r.rows.series && t.games <= r.rows.games
    ensures r.result.Ok? ==> r.result.value in r.rows.games
  {
    var s := SeriesStep(t, d);
    if s.result.Err? then Stepped(s.rows, Err(s.result.error))
    else
      var a := AddGameTo(s.rows.games, s.rows.series, d.gameName, s.result.value);
      Stepped(s.rows.(games := a.rows), a.result)
  }

  /** The author loop: `Author.get_or_none(id=...)`, else `Author.create`
      under the profile address of the id, author after author; the first
      refusal ends the run. */
  function AuthorsStep(t: Tables, ds: seq<AuthorDump>): (r: Outcome)
    ensures r.rows == t.(authors := r.rows.authors) && t.authors <= r.rows.authors
    decreases |ds|
  {
    if ds == [] then Outcome(t, None)
    else
      var a := AddAuthorTo(t.authors, ds[0].id, ds[0].name, None);
      if a.result.Err? then Outcome(t.(authors := a.rows), Some(a.result.error))
      else AuthorsStep(t.(authors := a.rows), ds[1..])
  }

  /** `Cover.get_or_none(file_name=...)`, else `Cover.create` with the post's
      fields in the given game and SQLite's next id. */
  function CoverStep(t: Tables, d: Dump, game: int): (r: (Tables, Cover))
    ensures r.0 == t.(covers := r.0.covers) && t.covers <= r.0.covers
    ensures r.1 in r.0.covers && r.1.fileName == d.photoFileName
  {
    match CoverByFileName(t.covers, d.photoFileName)
    case Some(c) => (t, c)
    case None =>
      var c := Cover(NextId(CoverIds(t.covers)), d.coverText, d.photoFileName, d.postUrl, d.photoPostUrl, game, None, d.dateTime);
      (t.(covers := t.covers + [c]), c)
  }

  /** The link table after the link loop, one author at a time:
      `Author2Cover.create` for each pair not stored yet. */
  function LinksAfter(links: seq<Link>, ids: seq<int>, cover: int): seq<Link> {
    if ids == [] then links
    else
      var l := LinksAfter(links, ids[..|ids| - 1], cover);
      var k := Link(ids[|ids| - 1], cover);
      if k in l then l else l + [k]
  }

  /** `append_to_db(dump)` on the tables. Each step commits on its own, so a
      refusal keeps what the earlier steps stored. */
  function AppendTo(t: Tables, d: Dump): Outcome {
    var g := GameStep(t, d);
    if g.result.Err? then Outcome(g.rows, Some(g.result.error))
    else
      var au := AuthorsStep(g.rows, d.authors);
      if au.err.Some? then au
      else
        var cs := CoverStep(au.rows, d, g.result.value.id);
        Outcome(cs.0.(links := LinksAfter(cs.0.links, DumpIds(d.authors), cs.1.id)), None)
  }

  // ---------------------------------------------------------------------
  // What each step promises.

  /** The author loop stores each author of the post unless it refused, and
      every author it stores comes from the post, under its profile address. */
  lemma {:induction false} AuthorsStepMeaning(t: Tables, ds: seq<AuthorDump>)
    ensures var r := AuthorsStep(t, ds);
      r.err.None? ==> forall d :: d in ds ==> exists x :: x in r.rows.authors && x.id == d.id
    ensures var r := AuthorsStep(t, ds);
      forall a :: a in r.rows.authors && a !in t.authors ==>
        exists d :: d in ds && a == Author(d.id, d.name, ProfileUrl(d.id))
    decreases |ds|
  {
    if ds != [] {
      var a := AddAuthorTo(t.authors, ds[0].id, ds[0].name, None);
      var t' := t.(authors := a.rows);
      assert forall d :: d in ds ==> d == ds[0] || d in ds[1..];
      assert forall d :: d in ds[1..] ==> d in ds;
      if a.result.Ok? {
        AuthorsStepMeaning(t', ds[1..]);
        PrefixMembers(a.rows, AuthorsStep(t', ds[1..]).rows.authors);
        if a.rows != t.authors {
          AddAuthorNew(t.authors, ds[0].id, ds[0].name, None);
        }
      }
    }
  }

  /** When every author of the post is stored, the author loop stores
      nothing and does not refuse. */
  lemma {:induction false} AuthorsStepExisting(t: Tables, ds: seq<AuthorDump>)
    requires Seqs.UniqueBy(t.authors, AuthorId)
    requires forall d :: d in ds ==> exists x :: x in t.authors && x.id == d.id
    ensures AuthorsStep(t, ds) == Outcome(t, None)
    decreases |ds|
  {
    if ds != [] {
      assert ds[0] in ds;
      var x :| x in t.authors && x.id == ds[0].id;
      AddAuthorExisting(t.authors, x, ds[0].name, None);
      assert t.(authors := t.authors) == t;
      assert forall d :: d in ds[1..] ==> d in ds;
      AuthorsStepExisting(t, ds[1..]);
    }
  }

  lemma {:induction false} AuthorsStepKeepsValid(t: Tables, ds: seq<AuthorDump>)
    requires ValidTables(t)
    ensures ValidTables(AuthorsStep(t, ds).rows)
    decreases |ds|
  {
    if ds != [] {
      AddAuthorKeepsValid(t, ds[0].id, ds[0].name, None);
      AuthorsStepKeepsValid(t.(authors := AddAuthorTo(t.authors, ds[0].id, ds[0].name, None).rows), ds[1..]);
    }
  }

  /** A new cover is stored only when no cover has the file name, and then
      with the post's fields. */
  lemma CoverStepNew(t: Tables, d: Dump, game: int)
    ensures var r := CoverStep(t, d, game);
      forall c :: c in r.0.covers && c !in t.covers ==>
        && c.fileName == d.photoFileName && c.text == d.coverText
        && c.urlPost == d.postUrl && c.urlPostImage == d.photoPostUrl
        && c.game == game && c.dateTime == d.dateTime && c.serverFileId.None?
    ensures CoverByFileName(t.covers, d.photoFileName).Some? ==> CoverStep(t, d, game).0 == t
  {
    var r := CoverStep(t, d, game);
    if CoverByFileName(t.covers, d.photoFileName).None? {
      assert forall c :: c in r.0.covers ==> c in t.covers || c == r.1;
    }
  }

  /** A stored cover with the file name is answered as it is. */
  lemma CoverStepExisting(t: Tables, d: Dump, game: int, c: Cover)
    requires UniqueKey(t.covers, FileName)
    requires c in t.covers && c.fileName == d.photoFileName
    ensures CoverStep(t, d, game) == (t, c)
  {
    SameKeySameRow(t.covers, FileName, c, CoverByFileName(t.covers, d.photoFileName).value);
  }

  lemma CoverStepKeepsValid(t: Tables, d: Dump, game: int)
    requires ValidTables(t)
    requires exists g :: g in t.games && g.id == game
    ensures ValidTables(CoverStep(t, d, game).0)
  {
    if CoverByFileName(t.covers, d.photoFileName).None? {
      var ids := CoverIds(t.covers);
      var c := CoverStep(t, d, game).1;
      forall x | x in t.covers ensures x.id != c.id && x.fileName != c.fileName {
        var k :| 0 <= k < |t.covers| && t.covers[k] == x;
        assert ids[k] == x.id;
      }
      InsertCover(t, c);
    }
  }

  /** The link loop stores every pair of an author of the post with the
      cover, keeps the stored links, adds nothing else, and adds nothing
      when every pair is stored already. */
  lemma {:induction false} LinksAfterMeaning(links: seq<Link>, ids: seq<int>, cover: int)
    ensures links <= LinksAfter(links, ids, cover)
    ensures forall l :: l in LinksAfter(links, ids, cover) ==> l in links || (l.cover == cover && l.author in ids)
    ensures forall id :: id in ids ==> Link(id, cover) in LinksAfter(links, ids, cover)
    ensures (forall id :: id in ids ==> Link(id, cover) in links) ==> LinksAfter(links, ids, cover) == links
  {
    if ids != [] {
      var init := ids[..|ids| - 1];
      LinksAfterMeaning(links, init, cover);
      assert forall id :: id in init ==> id in ids;
      assert forall id :: id in ids ==> id in init || id == ids[|ids| - 1];
      var l := LinksAfter(links, init, cover);
      PrefixMembers(l, l + [Link(ids[|ids| - 1], cover)]);
    }
  }

  lemma {:induction false} LinksAfterKeepsValid(t: Tables, ids: seq<int>, cover: int)
    requires ValidTables(t)
    requires forall id :: id in ids ==> exists a :: a in t.authors && a.id == id
    requires exists c :: c in t.covers && c.id == cover
    ensures ValidTables(t.(links := LinksAfter(t.links, ids, cover)))
  {
    if ids != [] {
      var init := ids[..|ids| - 1];
      assert forall id :: id in init ==> id in ids;
      LinksAfterKeepsValid(t, init, cover);
      var l := LinksAfter(t.links, init, cover);
      var k := Link(ids[|ids| - 1], cover);
      if k !in l {
        assert ids[|ids| - 1] in ids;
        InsertLink(t.(links := l), k);
      }
    }
  }

  // ---------------------------------------------------------------------
  // What `append_to_db` promises.

  /** Rows are only appended. */
  lemma AppendGrows(t: Tables, d: Dump)
    ensures Grown(t, AppendTo(t, d).rows)
  {
    var g := GameStep(t, d);
    if g.result.Ok? {
      var au := AuthorsStep(g.rows, d.authors);
      if au.err.None? {
        var cs := CoverStep(au.rows, d, g.result.value.id);
        LinksAfterMeaning(cs.0.links, DumpIds(d.authors), cs.1.id);
      }
    }
  }

  /** Authors of the post are stored before the cover and the links. */
  lemma AuthorsBeforeLinks(t: Tables, d: Dump, ids: seq<int>)
    requires AuthorsStep(t, d.authors).err.None?
    requires ids == DumpIds(d.authors)
    ensures forall id :: id in ids ==> exists a :: a in AuthorsStep(t, d.authors).rows.authors && a.id == id
  {
    AuthorsStepMeaning(t, d.authors);
    forall id | id in ids ensures exists a :: a in AuthorsStep(t, d.authors).rows.authors && a.id == id {
      var k :| 0 <= k < |ids| && ids[k] == id;
      assert d.authors[k] in d.authors;
    }
  }

  /** `append_to_db` keeps the tables valid: every key it stores is fresh
      and every reference it stores names a row. */
  lemma AppendKeepsValid(t: Tables, d: Dump)
    requires ValidTables(t)
    ensures ValidTables(AppendTo(t, d).rows)
  {
    if HasSeries(d) {
      AddSeriesKeepsValid(t, d.gameSeries.value, None);
    }
    var s := SeriesStep(t, d);
    if s.result.Ok? {
      AddGameKeepsValid(s.rows, d.gameName, s.result.value);
    }
    var g := GameStep(t, d);
    if g.result.Ok? {
      AuthorsStepKeepsValid(g.rows, d.authors);
      var au := AuthorsStep(g.rows, d.authors);
      if au.err.None? {
        var ids := DumpIds(d.authors);
        AuthorsBeforeLinks(g.rows, d, ids);
        CoverStepKeepsValid(au.rows, d, g.result.value.id);
        var cs := CoverStep(au.rows, d, g.result.value.id);
        LinksAfterKeepsValid(cs.0, ids, cs.1.id);
      }
    }
  }

  /** A run that raised nothing has stored the series and the game under
      the slugs of their names. */
  lemma AppendStoresGame(t: Tables, d: Dump)
    requires ValidTables(t)
    ensures var r := AppendTo(t, d);
      r.err.None? ==>
        && (HasSeries(d) ==> exists s :: s in r.rows.series && s.slug == Slug.GetSlug(d.gameSeries))
        && (exists g :: g in r.rows.games && g.slug == Slug.GetSlug(Some(d.gameName)))
  {
    var r := AppendTo(t, d);
    if r.err.None? {
      var s := SeriesStep(t, d);
      if HasSeries(d) {
        AddSeriesFinds(t.series, d.gameSeries.value, None);
        assert AddSeriesTo(t.series, d.gameSeries.value, None).result.value in r.rows.series;
      }
      AddGameFinds(s.rows.games, s.rows.series, d.gameName, s.result.value);
      assert GameStep(t, d).result.value in r.rows.games;
    }
  }

  /** A run that raised nothing has stored each author of the post. */
  lemma AppendStoresAuthors(t: Tables, d: Dump)
    ensures var r := AppendTo(t, d);
      r.err.None? ==> forall a :: a in d.authors ==> exists x :: x in r.rows.authors && x.id == a.id
  {
    var g := GameStep(t, d);
    if g.result.Ok? {
      AuthorsStepMeaning(g.rows, d.authors);
    }
  }

  /** A run that raised nothing has stored the cover, linked to each author
      of the post. */
  lemma AppendStoresCover(t: Tables, d: Dump)
    ensures var r := AppendTo(t, d);
      r.err.None? ==>
        exists c :: c in r.rows.covers && c.fileName == d.photoFileName &&
          forall a :: a in d.authors ==> Link(a.id, c.id) in r.rows.links
  {
    var r := AppendTo(t, d);
    if r.err.None? {
      var g := GameStep(t, d);
      var au := AuthorsStep(g.rows, d.authors);
      var cs := CoverStep(au.rows, d, g.result.value.id);
      var ids := DumpIds(d.authors);
      LinksAfterMeaning(cs.0.links, ids, cs.1.id);
      forall a | a in d.authors ensures Link(a.id, cs.1.id) in r.rows.links {
        var k :| 0 <= k < |d.authors| && d.authors[k] == a;
        assert ids[k] == a.id;
      }
      assert cs.1 in r.rows.covers;
    }
  }

  /** A run that raised nothing leaves the post in the tables. */
  lemma AppendStores(t: Tables, d: Dump)
    requires ValidTables(t)
    ensures AppendTo(t, d).err.None? ==> ContainsDump(AppendTo(t, d).rows, d)
  {
    AppendStoresGame(t, d);
    AppendStoresAuthors(t, d);
    AppendStoresCover(t, d);
  }

  /** On tables that hold the post already, `append_to_db` raises nothing
      and stores nothing. */
  lemma AppendIdempotent(t: Tables, d: Dump)
    requires ValidTables(t) && ContainsDump(t, d)
    ensures AppendTo(t, d) == Outcome(t, None)
  {
    var sid: Option<int> := None;
    if HasSeries(d) {
      var s :| s in t.series && s.slug == Slug.GetSlug(d.gameSeries);
      AddSeriesExisting(t.series, s, d.gameSeries.value, None);
      sid := Some(s.id);
    }
    assert SeriesStep(t, d) == Stepped(t, Ok(sid));
    var g :| g in t.games && g.slug == Slug.GetSlug(Some(d.gameName));
    AddGameExisting(t.games, t.series, g, d.gameName, sid);
    assert GameStep(t, d) == Stepped(t, Ok(g));
    AuthorsStepExisting(t, d.authors);
    var c :| c in t.covers && c.fileName == d.photoFileName &&
      forall a :: a in d.authors ==> Link(a.id, c.id) in t.links;
    CoverStepExisting(t, d, g.id, c);
    var ids := DumpIds(d.authors);
    forall id | id in ids ensures Link(id, c.id) in t.links {
      var k :| 0 <= k < |ids| && ids[k] == id;
      assert d.authors[k] in d.authors;
    }
    LinksAfterMeaning(t.links, ids, c.id);
    assert t.(links := t.links) == t;
  }

  /** `append_to_db` twice with the same post: the second call changes
      nothing. */
  lemma AppendTwice(t: Tables, d: Dump)
    requires ValidTables(t)
    requires AppendTo(t, d).err.None?
    ensures AppendTo(AppendTo(t, d).rows, d) == Outcome(AppendTo(t, d).rows, None)
  {
    AppendKeepsValid(t, d);
    AppendStores(t, d);
    AppendIdempotent(AppendTo(t, d).rows, d);
  }

  /** A game name whose slug is empty is refused, as a blank name or as a
      blank slug. */
  lemma AppendRefusesSluglessGame(t: Tables, d: Dump)
    requires Slug.GetSlug(Some(d.gameName)) == ""
    ensures AppendTo(t, d).err.Some?
  {
    var s := SeriesStep(t, d);
    GetByMeaning(s.rows.games, Some(d.gameName), GameSlug);
  }

  /** A game a run adds is in no series when the post names none. */
  lemma AppendNewGames(t: Tables, d: Dump)
    requires !HasSeries(d)
    ensures forall g :: g in AppendTo(t, d).rows.games && g !in t.games ==> g.series.None?
  {
    var a := AddGameTo(t.games, t.series, d.gameName, None);
    assert forall g :: g in a.rows ==> g in t.games || g == a.result.value;
  }

  /** The authors a run adds are authors of the post, under their profile
      addresses. */
  lemma AppendNewAuthors(t: Tables, d: Dump)
    ensures forall a :: a in AppendTo(t, d).rows.authors && a !in t.authors ==>
      exists x :: x in d.authors && a == Author(x.id, x.name, ProfileUrl(x.id))
  {
    var g := GameStep(t, d);
    if g.result.Ok? {
      AuthorsStepMeaning(g.rows, d.authors);
    }
  }

  /** Every stored author has the profile address of its own id, as the
      ingestion stores them. */
  predicate DerivedUrls(authors: seq<Author>) {
    forall a :: a in authors ==> a.url == ProfileUrl(a.id)
  }

  /** The author loop refuses an author only when another author already
      holds the profile address of its id: on authors stored under their own
      addresses it never refuses, and it stores new ones the same way. */
  lemma {:induction false} AuthorsStepNeverRefuses(t: Tables, ds: seq<AuthorDump>)
    requires DerivedUrls(t.authors)
    ensures AuthorsStep(t, ds).err.None?
    ensures DerivedUrls(AuthorsStep(t, ds).rows.authors)
    decreases |ds|
  {
    if ds != [] {
      var id := ds[0].id;
      var a := AddAuthorTo(t.authors, id, ds[0].name, None);
      if AuthorById(t.authors, id).None? {
        forall x | x in t.authors ensures x.url != ProfileUrl(id) {
          if x.url == ProfileUrl(id) {
            ProfileUrlInjective(x.id, id);
          }
        }
      }
      assert a.result.Ok? && DerivedUrls(a.rows);
      AuthorsStepNeverRefuses(t.(authors := a.rows), ds[1..]);
    }
  }

  /** A run keeps every author under the profile address of its id. */
  lemma AppendKeepsDerivedUrls(t: Tables, d: Dump)
    requires DerivedUrls(t.authors)
    ensures DerivedUrls(AppendTo(t, d).rows.authors)
  {
    AppendNewAuthors(t, d);
  }

  /** The cover a run adds has the post's fields. */
  lemma AppendNewCovers(t: Tables, d: Dump)
    ensures forall c :: c in AppendTo(t, d).rows.covers && c !in t.covers ==>
      && c.fileName == d.photoFileName && c.text == d.coverText
      && c.urlPost == d.postUrl && c.urlPostImage == d.photoPostUrl
      && c.dateTime == d.dateTime && c.serverFileId.None?
  {
    var g := GameStep(t, d);
    if g.result.Ok? {
      var au := AuthorsStep(g.rows, d.authors);
      if au.err.None? {
        CoverStepNew(au.rows, d, g.result.value.id);
      }
    }
  }

  /** The links a run adds join an author of the post to its cover. */
  lemma AppendNewLinks(t: Tables, d: Dump)
    ensures var r := AppendTo(t, d).rows;
      forall l :: l in r.links && l !in t.links ==>
        exists a, c :: a in d.authors && c in r.covers && c.fileName == d.photoFileName && l == Link(a.id, c.id)
  {
    var r := AppendTo(t, d);
    var g := GameStep(t, d);
    if g.result.Ok? {
      var au := AuthorsStep(g.rows, d.authors);
      if au.err.None? {
        var cs := CoverStep(au.rows, d, g.result.value.id);
        var ids := DumpIds(d.authors);
        LinksAfterMeaning(cs.0.links, ids, cs.1.id);
        forall l | l in r.rows.links && l !in t.links
          ensures exists a, c :: a in d.authors && c in r.rows.covers && c.fileName == d.photoFileName && l == Link(a.id, c.id)
        {
          var k :| 0 <= k < |ids| && ids[k] == l.author;
          assert d.authors[k] in d.authors;
        }
      }
    }
  }

  // ---------------------------------------------------------------------
  // `append_to_db` on the database, step by step.

  /** The first lines of `append_to_db`: the series, then the game. */
  method AddGameOf(db: Database, dump: Dump) returns (game: Result<Game, DbError>)
    requires db.Valid()
    modifies db
    ensures db.Valid()
    ensures Stepped(db.Rows(), game) == GameStep(old(db.Rows()), dump)
    ensures db.requests == old(db.requests)
  {
    var seriesId: Option<int> := None;
    if HasSeries(dump) {
      var s := db.AddSeries(dump.gameSeries.value, None);
      if s.Err? {
        return Err(s.error);
      }
      seriesId := Some(s.value.id);
    }
    game := db.AddGame(dump.gameName, seriesId);
  }

  /** The author loop of `append_to_db`. */
  method AddAuthors(db: Database, authors: seq<AuthorDump>) returns (err: Option<DbError>)
    requires db.Valid()
    modifies db
    ensures db.Valid()
    ensures Outcome(db.Rows(), err) == AuthorsStep(old(db.Rows()), authors)
    ensures db.requests == old(db.requests)
  {
    for i := 0 to |authors|
      invariant db.Valid()
      invariant db.requests == old(db.requests)
      invariant AuthorsStep(old(db.Rows()), authors) == AuthorsStep(db.Rows(), authors[i..])
    {
      assert authors[i..][1..] == authors[i + 1..];
      var r := db.AddAuthor(authors[i].id, authors[i].name, None);
      if r.Err? {
        return Some(r.error);
      }
    }
    err := None;
  }

  /** The cover step of `append_to_db`. */
  method CoverOf(db: Database, dump: Dump, game: int) returns (cover: Cover)
    requires db.Valid()
    requires exists g :: g in db.games && g.id == game
    modifies db
    ensures db.Valid()
    ensures (db.Rows(), cover) == CoverStep(old(db.Rows()), dump, game)
    ensures db.requests == old(db.requests)
  {
    var found := CoverByFileName(db.covers, dump.photoFileName);
    if found.Some? {
      cover := found.value;
    } else {
      var g :| g in db.games && g.id == game;
      var created := db.CreateCover(dump.coverText, dump.photoFileName, dump.postUrl, dump.photoPostUrl, game, dump.dateTime);
      cover := created.value;
    }
  }

  /** One step of the link loop: `Author2Cover.get_or_none`, then `create`
      when the pair is not stored. */
  method LinkOnce(db: Database, author: int, cover: int)
    requires db.Valid()
    requires exists a :: a in db.authors && a.id == author
    requires exists c :: c in db.covers && c.id == cover
    modifies db
    ensures db.Valid()
    ensures db.series == old(db.series) && db.games == old(db.games)
    ensures db.covers == old(db.covers) && db.authors == old(db.authors)
    ensures db.requests == old(db.requests)
    ensures db.links == old(db.links) + if Link(author, cover) in old(db.links) then [] else [Link(author, cover)]
  {
    if Link(author, cover) !in db.links {
      var a :| a in db.authors && a.id == author;
      var c :| c in db.covers && c.id == cover;
      var r := db.CreateLink(author, cover);
    }
  }

  /** The link loop of `append_to_db`. */
  method AddLinks(db: Database, ids: seq<int>, cover: int)
    requires db.Valid()
    requires forall id :: id in ids ==> exists a :: a in db.authors && a.id == id
    requires exists c :: c in db.covers && c.id == cover
    modifies db
    ensures db.Valid()
    ensures db.Rows() == old(db.Rows()).(links := LinksAfter(old(db.links), ids, cover))
    ensures db.requests == old(db.requests)
  {
    for i := 0 to |ids|
      invariant db.Valid()
      invariant db.series == old(db.series) && db.games == old(db.games)
      invariant db.covers == old(db.covers) && db.authors == old(db.authors)
      invariant db.requests == old(db.requests)
      invariant db.links == LinksAfter(old(db.links), ids[..i], cover)
    {
      assert ids[i] in ids;
      assert ids[..i + 1][..i] == ids[..i];
      LinkOnce(db, ids[i], cover);
    }
    assert ids[..|ids|] == ids;
  }

  /** `append_to_db(dump)`: what it stores and raises is `AppendTo`. */
  method AppendToDb(db: Database, dump: Dump) returns (err: Option<DbError>)
    requires db.Valid()
    modifies db
    ensures db.Valid()
    ensures Outcome(db.Rows(), err) == AppendTo(old(db.Rows()), dump)
    ensures db.requests == old(db.requests)
  {
    var game := AddGameOf(db, dump);
    if game.Err? {
      return Some(game.error);
    }
    ghost var afterGame := db.Rows();
    err := AddAuthors(db, dump.authors);
    if err.Some? {
      return;
    }
    assert game.value in db.games;
    var cover := CoverOf(db, dump, game.value.id);
    var ids := DumpIds(dump.authors);
    AuthorsBeforeLinks(afterGame, dump, ids);
    AddLinks(db, ids, cover.id);
  }

  // ---------------------------------------------------------------------
  // `make_identical_authors_unique`.

  /** The positions of the authors with the name, in table order: the list
      `name_by_objects[name]` holds. */
  function Positions(s: seq<Author>, name: string): (r: seq<nat>)
    ensures forall k :: 0 <= k < |r| ==> r[k] < |s| && s[r[k]].name == name
    ensures forall j :: 0 <= j < |s| && s[j].name == name ==> j in r
    ensures forall a, b :: 0 <= a < b < |r| ==> r[a] < r[b]
  {
    if s == [] then []
    else
      var p := Positions(s[..|s| - 1], name);
      if s[|s| - 1].name == name then p + [|s| - 1] else p
  }

  /** `f'{name} (id{author.id})'`. */
  function Tagged(a: Author): string {
    a.name + " (id" + Decimal.IntToString(a.id) + ")"
  }

  /** The name the author at `i` has afterwards: tagged when another author
      shares it. */
  function NewName(s: seq<Author>, i: nat): string
    requires i < |s|
  {
    if |Positions(s, s[i].name)| > 1 then Tagged(s[i]) else s[i].name
  }

  /** The author at `i` afterwards. */
  function Renamed(s: seq<Author>, i: nat): Author
    requires i < |s|
  {
    s[i].(name := NewName(s, i))
  }

  /** A name's group has more than one author exactly when another author
      has the name. */
  lemma GroupSize(s: seq<Author>, i: nat)
    requires i < |s|
    ensures |Positions(s, s[i].name)| > 1 <==> exists j :: 0 <= j < |s| && j != i && s[j].name == s[i].name
  {
    var r := Positions(s, s[i].name);
    if |r| > 1 {
      var j := if r[0] != i then r[0] else r[1];
      assert j != i && s[j].name == s[i].name;
    }
    if exists j :: 0 <= j < |s| && j != i && s[j].name == s[i].name {
      var j :| 0 <= j < |s| && j != i && s[j].name == s[i].name;
      var a :| 0 <= a < |r| && r[a] == i;
      var b :| 0 <= b < |r| && r[b] == j;
      assert a != b;
    }
  }

  /** An author whose name no other author has keeps it. */
  lemma UniqueNameKept(s: seq<Author>, i: nat)
    requires i < |s|
    requires forall j :: 0 <= j < |s| && j != i ==> s[j].name != s[i].name
    ensures NewName(s, i) == s[i].name
  {
    GroupSize(s, i);
  }

  /** An author whose name another author has is tagged with its id. */
  lemma SharedNameTagged(s: seq<Author>, i: nat, j: nat)
    requires i < |s| && j < |s| && i != j && s[i].name == s[j].name
    ensures NewName(s, i) == Tagged(s[i])
  {
    GroupSize(s, i);
  }

  /** Tagging a name with an id is one-to-one in the id. */
  lemma TaggedInjective(a: Author, b: Author)
    requires a.name == b.name
    ensures Tagged(a) == Tagged(b) ==> a.id == b.id
  {
    if Tagged(a) == Tagged(b) {
      var p := |a.name + " (id"|;
      assert Tagged(a)[p..|Tagged(a)| - 1] == Decimal.IntToString(a.id);
      assert Tagged(b)[p..|Tagged(b)| - 1] == Decimal.IntToString(b.id);
      Decimal.IntToStringInjective(a.id, b.id);
    }
  }

  /** Two authors of one group get different names, since their ids
      differ. */
  lemma RenamedDistinctInGroup(s: seq<Author>, i: nat, j: nat)
    requires Seqs.UniqueBy(s, AuthorId)
    requires i < |s| && j < |s| && i != j && s[i].name == s[j].name
    ensures NewName(s, i) != NewName(s, j)
  {
    SharedNameTagged(s, i, j);
    SharedNameTagged(s, j, i);
    TaggedInjective(s[i], s[j]);
    assert AuthorId(s[i]) != AuthorId(s[j]);
  }

  /** Renaming keeps ids and urls, so the tables stay valid. */
  lemma RenamingKeepsValid(t: Tables, authors: seq<Author>)
    requires ValidTables(t)
    requires |authors| == |t.authors|
    requires forall i :: 0 <= i < |authors| ==> authors[i] == t.authors[i].(name := authors[i].name)
    ensures ValidTables(t.(authors := authors))
  {
    var u := t.(authors := authors);
    forall l | l in u.links ensures exists a :: a in u.authors && a.id == l.author {
      var a :| a in t.authors && a.id == l.author;
      var k :| 0 <= k < |t.authors| && t.authors[k] == a;
      assert authors[k] in u.authors;
    }
  }

  /** `name_by_objects` after the first loop: the positions of the authors
      by name. */
  function GroupsOf(s: seq<Author>): map<string, seq<nat>> {
    if s == [] then map[]
    else
      var g := GroupsOf(s[..|s| - 1]);
      var n := s[|s| - 1].name;
      g[n := (if n in g then g[n] else []) + [|s| - 1]]
  }

  /** The keys of `name_by_objects` in the order they were inserted. */
  function NamesOf(s: seq<Author>): seq<string> {
    if s == [] then []
    else
      var ns := NamesOf(s[..|s| - 1]);
      if s[|s| - 1].name in ns then ns else ns + [s[|s| - 1].name]
  }

  /** A name no author has has no group. */
  lemma {:induction false} PositionsOfAbsent(s: seq<Author>, name: string)
    requires forall j :: 0 <= j < |s| ==> s[j].name != name
    ensures Positions(s, name) == []
  {
    if s != [] {
      PositionsOfAbsent(s[..|s| - 1], name);
    }
  }

  /** The keys of `name_by_objects` are the names inserted. */
  lemma {:induction false} GroupsKeys(s: seq<Author>)
    ensures forall n :: n in GroupsOf(s) <==> n in NamesOf(s)
  {
    if s != [] {
      GroupsKeys(s[..|s| - 1]);
    }
  }

  /** Each name of the table is a key exactly once, and its group is the
      positions of the authors with that name. */
  lemma {:induction false} GroupsMeaning(s: seq<Author>)
    ensures forall n :: n in GroupsOf(s) <==> n in NamesOf(s)
    ensures Seqs.NoDuplicates(NamesOf(s))
    ensures forall n :: n in GroupsOf(s) ==> GroupsOf(s)[n] == Positions(s, n)
    ensures forall j :: 0 <= j < |s| ==> s[j].name in GroupsOf(s)
  {
    if s != [] {
      var init := s[..|s| - 1];
      GroupsMeaning(init);
      var n := s[|s| - 1].name;
      forall m | m in GroupsOf(s) ensures GroupsOf(s)[m] == Positions(s, m) {
        if m == n && n !in GroupsOf(init) {
          PositionsOfAbsent(init, n);
        }
      }
      assert forall j :: 0 <= j < |s| - 1 ==> s[j] == init[j];
    }
  }

  /** The first loop of `make_identical_authors_unique`: the positions of
      the authors by name, and the names in the order they first appear. */
  method GroupByName(authors: seq<Author>) returns (nameByObjects: map<string, seq<nat>>, names: seq<string>)
    ensures forall n :: n in nameByObjects <==> n in names
    ensures Seqs.NoDuplicates(names)
    ensures forall n :: n in nameByObjects ==> nameByObjects[n] == Positions(authors, n)
    ensures forall j :: 0 <= j < |authors| ==> authors[j].name in nameByObjects
  {
    nameByObjects, names := map[], [];
    for i := 0 to |authors|
      invariant nameByObjects == GroupsOf(authors[..i])
      invariant names == NamesOf(authors[..i])
    {
      GroupsKeys(authors[..i]);
      assert authors[..i + 1][..i] == authors[..i];
      assert authors[..i + 1][i] == authors[i];
      var name := authors[i].name;
      if name !in nameByObjects {
        names := names + [name];
      }
      var objects := if name in nameByObjects then nameByObjects[name] else [];
      nameByObjects := nameByObjects[name := objects + [i]];
    }
    assert authors[..|authors|] == authors;
    GroupsMeaning(authors);
  }

  /** The inner loop of `make_identical_authors_unique`: each author of one
      group, still under its original name, is renamed to that name tagged
      with its id and saved. */
  method TagAuthors(db: Database, objects: seq<nat>, ghost original: seq<Author>)
    requires |db.authors| == |original|
    requires forall k :: 0 <= k < |objects| ==> objects[k] < |original| && db.authors[objects[k]] == original[objects[k]]
    requires forall a, b :: 0 <= a < b < |objects| ==> objects[a] < objects[b]
    modifies db
    ensures db.series == old(db.series) && db.games == old(db.games)
    ensures db.covers == old(db.covers) && db.links == old(db.links)
    ensures db.requests == old(db.requests)
    ensures |db.authors| == |original|
    ensures forall j :: 0 <= j < |original| ==>
      db.authors[j] == if j in objects then original[j].(name := Tagged(original[j])) else old(db.authors)[j]
  {
    for m := 0 to |objects|
      invariant db.series == old(db.series) && db.games == old(db.games)
      invariant db.covers == old(db.covers) && db.links == old(db.links)
      invariant db.requests == old(db.requests)
      invariant |db.authors| == |original|
      invariant forall j :: 0 <= j < |original| ==>
        db.authors[j] == if j in objects[..m] then original[j].(name := Tagged(original[j])) else old(db.authors)[j]
    {
      var p := objects[m];
      assert p !in objects[..m];
      var author := db.authors[p];
      db.authors := db.authors[p := author.(name := author.name + " (id" + Decimal.IntToString(author.id) + ")")];
      assert forall j :: j in objects[..m + 1] <==> j in objects[..m] || j == p;
    }
    assert objects[..|objects|] == objects;
  }

  /** `make_identical_authors_unique()`: the authors are grouped by name,
      in the order the names first appear; in every group of more than one
      author each is renamed to its name tagged with its id. */
  method MakeIdenticalAuthorsUnique(db: Database)
    requires db.Valid()
    modifies db
    ensures db.Valid()
    ensures |db.authors| == |old(db.authors)|
    ensures forall i :: 0 <= i < |db.authors| ==> db.authors[i] == Renamed(old(db.authors), i)
    ensures db.series == old(db.series) && db.games == old(db.games)
    ensures db.covers == old(db.covers) && db.links == old(db.links)
    ensures db.requests == old(db.requests)
  {
    var authors := db.authors;
    var nameByObjects, names := GroupByName(authors);
    for k := 0 to |names|
      invariant db.series == old(db.series) && db.games == old(db.games)
      invariant db.covers == old(db.covers) && db.links == old(db.links)
      invariant db.requests == old(db.requests)
      invariant |db.authors| == |authors|
      invariant forall j :: 0 <= j < |authors| ==>
        db.authors[j] == if authors[j].name in names[..k] then Renamed(authors, j) else authors[j]
    {
      var objects := nameByObjects[names[k]];
      assert forall j :: 0 <= j < |authors| ==>
        (authors[j].name in names[..k + 1] <==> authors[j].name in names[..k] || authors[j].name == names[k]);
      assert names[k] !in names[..k];
      if |objects| > 1 {
        TagAuthors(db, objects, authors);
      }
    }
    assert names[..|names|] == names;
    RenamingKeepsValid(old(db.Rows()), db.authors);
  }
}
