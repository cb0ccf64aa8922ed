/** The relation helpers of bot/db.py that walk the author-to-cover links of
    one row: `Cover.get_authors`, `Author.get_covers`, `Author.get_games`
    and `Author.get_game_series`. A row's backreference (`links_to_authors`,
    `links_to_covers`) is its links in table order; following a foreign key
    looks the row up by id. Rows are equal when their ids are, as peewee
    compares them. */
module Relations {
  import opened Wrappers
  import opened Catalog
  import Filters
  import Seqs

  // ---------------------------------------------------------------------
  // Following the links, in link order.

  /** `link.author` for every link to cover `cid`. */
  function LinkedAuthors(t: Tables, links: seq<Link>, cid: int): seq<Author> {
    if links == [] then []
    else
      var init := LinkedAuthors(t, links[..|links| - 1], cid);
      var l := links[|links| - 1];
      if l.cover == cid && AuthorById(t.authors, l.author).Some? then init + [AuthorById(t.authors, l.author).value]
      else init
  }

  /** `link.cover` for every link from author `aid`. */
  function LinkedCovers(t: Tables, links: seq<Link>, aid: int): seq<Cover> {
    if links == [] then []
    else
      var init := LinkedCovers(t, links[..|links| - 1], aid);
      var l := links[|links| - 1];
      if l.author == aid && CoverById(t.covers, l.cover).Some? then init + [CoverById(t.covers, l.cover).value]
      else init
  }

  /** The game of a cover, looked up by id. */
  function GameOf(t: Tables, c: Cover): Option<Game> {
    GameById(t.games, c.game)
  }

  /** `link.cover.game` for every link from author `aid`. */
  function LinkedGames(t: Tables, links: seq<Link>, aid: int): seq<Game> {
    if links == [] then []
    else
      var init := LinkedGames(t, links[..|links| - 1], aid);
      var l := links[|links| - 1];
      var c := CoverById(t.covers, l.cover);
      if l.author == aid && c.Some? && GameOf(t, c.value).Some? then init + [GameOf(t, c.value).value]
      else init
  }

  /** `game.series`: `None` for a game without a series. */
  function SeriesOf(t: Tables, g: Game): Option<GameSeries> {
    if g.series.Some? then SeriesById(t.series, g.series.value) else None
  }

  /** `Game.series_name`: the name of the game's series, or the empty text
      for a game without one. */
  function SeriesName(t: Tables, g: Game): string {
    match SeriesOf(t, g)
    case Some(s) => s.name
    case None => ""
  }

  /** The series name is the name of the series row the game refers to, and
      empty exactly when the game has no series. */
  lemma SeriesNameMeaning(t: Tables, g: Game, s: GameSeries)
    requires UniqueIds(t)
    ensures g.series.None? ==> SeriesName(t, g) == ""
    ensures s in t.series && g.series == Some(s.id) ==> SeriesName(t, g) == s.name
  {
    if s in t.series {
      SeriesByIdUnique(t.series, s);
    }
  }

  /** `link.cover.game.series` for every link from author `aid`. */
  function LinkedSeries(t: Tables, links: seq<Link>, aid: int): seq<Option<GameSeries>> {
    if links == [] then []
    else
      var init := LinkedSeries(t, links[..|links| - 1], aid);
      var l := links[|links| - 1];
      var c := CoverById(t.covers, l.cover);
      if l.author == aid && c.Some? && GameOf(t, c.value).Some? then init + [SeriesOf(t, GameOf(t, c.value).value)]
      else init
  }

  // ---------------------------------------------------------------------
  // What the links reach.

  lemma {:induction false} LinkedAuthorsMembers(t: Tables, links: seq<Link>, cid: int)
    requires Seqs.UniqueBy(t.authors, AuthorId)
    ensures forall a :: a in LinkedAuthors(t, links, cid) <==> a in t.authors && Link(a.id, cid) in links
    decreases |links|
  {
    if links != [] {
      var init := links[..|links| - 1];
      LinkedAuthorsMembers(t, init, cid);
      assert links == init + [links[|links| - 1]];
      forall a | a in t.authors {
        AuthorByIdUnique(t.authors, a);
      }
    }
  }

  lemma {:induction false} LinkedCoversMembers(t: Tables, links: seq<Link>, aid: int)
    requires Seqs.UniqueBy(t.covers, CoverId)
    ensures forall c :: c in LinkedCovers(t, links, aid) <==> c in t.covers && Link(aid, c.id) in links
    decreases |links|
  {
    if links != [] {
      var init := links[..|links| - 1];
      LinkedCoversMembers(t, init, aid);
      assert links == init + [links[|links| - 1]];
      forall c | c in t.covers {
        CoverByIdUnique(t.covers, c);
      }
    }
  }

  /** Some cover of game `g` is linked to author `aid` by one of `links`. */
  predicate GameReached(t: Tables, links: seq<Link>, aid: int, g: Game) {
    exists c :: c in t.covers && c.game == g.id && Link(aid, c.id) in links
  }

  lemma {:induction false} LinkedGamesMembers(t: Tables, links: seq<Link>, aid: int)
    requires Seqs.UniqueBy(t.covers, CoverId) && Seqs.UniqueBy(t.games, GameId)
    ensures forall g :: g in LinkedGames(t, links, aid) <==> g in t.games && GameReached(t, links, aid, g)
    decreases |links|
  {
    if links != [] {
      var init := links[..|links| - 1];
      var l := links[|links| - 1];
      LinkedGamesMembers(t, init, aid);
      assert links == init + [l];
      forall g | g in t.games && GameReached(t, links, aid, g)
        ensures g in LinkedGames(t, links, aid)
      {
        var c :| c in t.covers && c.game == g.id && Link(aid, c.id) in links;
        if Link(aid, c.id) !in init {
          assert l == Link(aid, c.id);
          CoverByIdUnique(t.covers, c);
          GameByIdUnique(t.games, g);
        }
      }
    }
  }

  lemma {:induction false} LinkedSeriesSome(t: Tables, links: seq<Link>, aid: int)
    requires Seqs.UniqueBy(t.covers, CoverId) && Seqs.UniqueBy(t.games, GameId) && Seqs.UniqueBy(t.series, SeriesId)
    ensures forall s :: Some(s) in LinkedSeries(t, links, aid) <==>
      s in t.series && exists g :: g in t.games && g.series == Some(s.id) && GameReached(t, links, aid, g)
    decreases |links|
  {
    if links != [] {
      var init := links[..|links| - 1];
      var l := links[|links| - 1];
      LinkedSeriesSome(t, init, aid);
      assert links == init + [l];
      forall s | s in t.series && exists g :: g in t.games && g.series == Some(s.id) && GameReached(t, links, aid, g)
        ensures Some(s) in LinkedSeries(t, links, aid)
      {
        var g :| g in t.games && g.series == Some(s.id) && GameReached(t, links, aid, g);
        if !GameReached(t, init, aid, g) {
          var c :| c in t.covers && c.game == g.id && Link(aid, c.id) in links;
          assert l == Link(aid, c.id);
          CoverByIdUnique(t.covers, c);
          GameByIdUnique(t.games, g);
          SeriesByIdUnique(t.series, s);
        }
      }
    }
  }

  lemma {:induction false} LinkedSeriesNone(t: Tables, links: seq<Link>, aid: int)
    requires Seqs.UniqueBy(t.covers, CoverId) && Seqs.UniqueBy(t.games, GameId)
    requires SeriesKeys(t)
    ensures None in LinkedSeries(t, links, aid) <==>
      exists g :: g in t.games && g.series == None && GameReached(t, links, aid, g)
    decreases |links|
  {
    if links != [] {
      var init := links[..|links| - 1];
      var l := links[|links| - 1];
      LinkedSeriesNone(t, init, aid);
      assert links == init + [l];
      var c := CoverById(t.covers, l.cover);
      if l.author == aid && c.Some? && GameOf(t, c.value).Some? {
        var g := GameOf(t, c.value).value;
        assert GameReached(t, links, aid, g);
        if g.series.Some? {
          var s :| s in t.series && s.id == g.series.value;
        }
      }
      if exists g :: g in t.games && g.series == None && GameReached(t, links, aid, g) {
        var g :| g in t.games && g.series == None && GameReached(t, links, aid, g);
        if !GameReached(t, init, aid, g) {
          var c' :| c' in t.covers && c'.game == g.id && Link(aid, c'.id) in links;
          assert l == Link(aid, c'.id);
          CoverByIdUnique(t.covers, c');
          GameByIdUnique(t.games, g);
        }
      }
    }
  }

  /** Distinct rows of a table with unique ids have distinct ids. */
  lemma DistinctRowsDistinctIds(items: seq<Author>, authors: seq<Author>)
    requires Seqs.NoDuplicates(items) && Seqs.UniqueBy(authors, AuthorId)
    requires forall i :: 0 <= i < |items| ==> items[i] in authors
    ensures Seqs.UniqueBy(items, AuthorId)
  {
    forall i, j | 0 <= i < j < |items| ensures items[i].id != items[j].id {
      var a :| 0 <= a < |authors| && authors[a] == items[i];
      var b :| 0 <= b < |authors| && authors[b] == items[j];
      assert a != b;
    }
  }

  /** Sorted by a key no two rows share: strictly increasing. */
  lemma SortedUniqueIncreasing<T>(s: seq<T>, key: T -> int)
    requires Seqs.SortedBy(s, key) && Seqs.UniqueBy(s, key)
    ensures forall i, j :: 0 <= i < j < |s| ==> key(s[i]) < key(s[j])
  {
  }

  /** One step of `if x not in items: items.append(x)`. */
  lemma DedupSnoc<T>(s: seq<T>, x: T)
    ensures Seqs.Dedup(s + [x]) == if x in Seqs.Dedup(s) then Seqs.Dedup(s) else Seqs.Dedup(s) + [x]
  {
    assert (s + [x])[..|s + [x]| - 1] == s;
  }

  /** The de-duplicated authors of a cover's links are its linked authors,
      with distinct ids. */
  lemma DedupedAuthors(t: Tables, coverId: int)
    requires Seqs.UniqueBy(t.authors, AuthorId)
    ensures var items := Seqs.Dedup(LinkedAuthors(t, t.links, coverId));
      && (forall a :: a in items <==> a in t.authors && Link(a.id, coverId) in t.links)
      && Seqs.UniqueBy(items, AuthorId)
  {
    var items := Seqs.Dedup(LinkedAuthors(t, t.links, coverId));
    LinkedAuthorsMembers(t, t.links, coverId);
    Seqs.DedupElements(LinkedAuthors(t, t.links, coverId));
    DistinctRowsDistinctIds(items, t.authors);
  }

  // ---------------------------------------------------------------------
  // The helpers.

  /** `Cover.get_authors`: the authors linked to the cover, each once, by
      increasing id, or by decreasing id when `reverse` is set. */
  method GetAuthors(t: Tables, coverId: int, reverse: bool) returns (items: seq<Author>)
    requires Seqs.UniqueBy(t.authors, AuthorId)
    ensures forall a :: a in items <==> a in t.authors && Link(a.id, coverId) in t.links
    ensures !reverse ==> forall i, j :: 0 <= i < j < |items| ==> items[i].id < items[j].id
    ensures reverse ==> forall i, j :: 0 <= i < j < |items| ==> items[i].id > items[j].id
  {
    items := [];
    var i := 0;
    while i < |t.links|
      invariant 0 <= i <= |t.links|
      invariant items == Seqs.Dedup(LinkedAuthors(t, t.links[..i], coverId))
    {
      var link := t.links[i];
      assert t.links[..i + 1][..i] == t.links[..i];
      if link.cover == coverId {
        var author := AuthorById(t.authors, link.author);
        if author.Some? {
          DedupSnoc(LinkedAuthors(t, t.links[..i], coverId), author.value);
          if author.value !in items {
            items := items + [author.value];
          }
        }
      }
      i := i + 1;
    }
    assert t.links[..i] == t.links;
    DedupedAuthors(t, coverId);
    Seqs.SortKeepsUnique(items, AuthorId, AuthorId);
    Seqs.SortSameElements(items, AuthorId);
    var sorted := Seqs.SortBy(items, AuthorId);
    SortedUniqueIncreasing(sorted, AuthorId);
    if reverse {
      Seqs.ReverseSameElements(sorted);
      items := Seqs.Reverse(sorted);
    } else {
      items := sorted;
    }
  }

  /** With no duplicate links, an author's links reach each cover once. */
  lemma {:induction false} LinkedCoversUnique(t: Tables, links: seq<Link>, aid: int)
    requires Seqs.UniqueBy(t.covers, CoverId) && Seqs.NoDuplicates(links)
    ensures Seqs.UniqueBy(LinkedCovers(t, links, aid), CoverId)
    decreases |links|
  {
    if links != [] {
      var init := links[..|links| - 1];
      var l := links[|links| - 1];
      assert Seqs.NoDuplicates(init);
      LinkedCoversUnique(t, init, aid);
      LinkedCoversMembers(t, init, aid);
      assert l !in init;
    }
  }

  predicate IdsIncreasing(s: seq<Cover>) {
    forall i, j :: 0 <= i < j < |s| ==> s[i].id < s[j].id
  }

  predicate IdsDecreasing(s: seq<Cover>) {
    forall i, j :: 0 <= i < j < |s| ==> s[i].id > s[j].id
  }

  /** With no duplicate links, the author's covers sorted by id have
      strictly increasing ids. */
  lemma SortedCoversIncreasing(t: Tables, authorId: int)
    requires Seqs.UniqueBy(t.covers, CoverId)
    ensures Seqs.NoDuplicates(t.links) ==> IdsIncreasing(Seqs.SortBy(LinkedCovers(t, t.links, authorId), CoverId))
  {
    if Seqs.NoDuplicates(t.links) {
      var items := LinkedCovers(t, t.links, authorId);
      LinkedCoversUnique(t, t.links, authorId);
      Seqs.SortKeepsUnique(items, CoverId, CoverId);
      SortedUniqueIncreasing(Seqs.SortBy(items, CoverId), CoverId);
    }
  }

  /** Covers sorted by id, reversed: the same covers, as often, by
      decreasing id, and strictly so when the ids were strictly increasing. */
  lemma ReversedCovers(sorted: seq<Cover>)
    requires Seqs.SortedBy(sorted, CoverId)
    ensures var r := Seqs.Reverse(sorted);
      && multiset(r) == multiset(sorted)
      && (forall c :: c in r <==> c in sorted)
      && (forall i, j :: 0 <= i < j < |r| ==> r[i].id >= r[j].id)
      && (IdsIncreasing(sorted) ==> IdsDecreasing(r))
  {
    var r := Seqs.Reverse(sorted);
    Seqs.ReverseSameElements(sorted);
    Seqs.ReverseSorted(sorted, CoverId);
    Seqs.ReverseMultiset(sorted);
    if IdsIncreasing(sorted) {
      forall i, j | 0 <= i < j < |r| ensures r[i].id > r[j].id {
        assert r[i] == sorted[|sorted| - 1 - i] && r[j] == sorted[|sorted| - 1 - j];
      }
    }
  }

  /** `Author.get_covers`: the covers of the author's links, sorted by
      increasing id, or by decreasing id when `reverse` is set. */
  function GetCovers(t: Tables, authorId: int, reverse: bool): (r: seq<Cover>)
    requires Seqs.UniqueBy(t.covers, CoverId)
    ensures multiset(r) == multiset(LinkedCovers(t, t.links, authorId))
    ensures forall c :: c in r <==> c in t.covers && Link(authorId, c.id) in t.links
    ensures !reverse ==> Seqs.SortedBy(r, CoverId)
    ensures reverse ==> forall i, j :: 0 <= i < j < |r| ==> r[i].id >= r[j].id
    ensures Seqs.NoDuplicates(t.links) && !reverse ==> IdsIncreasing(r)
    ensures Seqs.NoDuplicates(t.links) && reverse ==> IdsDecreasing(r)
  {
    var items := LinkedCovers(t, t.links, authorId);
    LinkedCoversMembers(t, t.links, authorId);
    Seqs.SortSameElements(items, CoverId);
    var sorted := Seqs.SortBy(items, CoverId);
    SortedCoversIncreasing(t, authorId);
    if reverse then
      ReversedCovers(sorted);
      Seqs.Reverse(sorted)
    else sorted
  }

  /** `Author.get_games`: the games of the author's covers, each once, in
      the order of the author's links (the first link to a game places it). */
  method GetGames(t: Tables, authorId: int) returns (items: seq<Game>)
    requires Seqs.UniqueBy(t.covers, CoverId) && Seqs.UniqueBy(t.games, GameId)
    ensures items == Seqs.Dedup(LinkedGames(t, t.links, authorId))
    ensures forall g :: g in items <==> g in t.games && Filters.GameLinked(t, authorId, g)
    ensures Seqs.NoDuplicates(items)
  {
    items := [];
    var i := 0;
    while i < |t.links|
      invariant 0 <= i <= |t.links|
      invariant items == Seqs.Dedup(LinkedGames(t, t.links[..i], authorId))
    {
      var link := t.links[i];
      assert t.links[..i + 1][..i] == t.links[..i];
      if link.author == authorId {
        var cover := CoverById(t.covers, link.cover);
        if cover.Some? {
          var game := GameOf(t, cover.value);
          if game.Some? {
            DedupSnoc(LinkedGames(t, t.links[..i], authorId), game.value);
            if game.value !in items {
              items := items + [game.value];
            }
          }
        }
      }
      i := i + 1;
    }
    assert t.links[..i] == t.links;
    LinkedGamesMembers(t, t.links, authorId);
    Seqs.DedupElements(LinkedGames(t, t.links, authorId));
  }

  /** `Author.get_game_series`: the series of the author's games, each once,
      in link order; `None` stands for games without a series and is listed
      once if there are any. */
  method GetGameSeries(t: Tables, authorId: int) returns (items: seq<Option<GameSeries>>)
    requires Consistent(t)
    ensures items == Seqs.Dedup(LinkedSeries(t, t.links, authorId))
    ensures forall s :: Some(s) in items <==> s in t.series && Filters.SeriesLinked(t, authorId, s)
    ensures None in items <==> exists g :: g in t.games && g.series == None && Filters.GameLinked(t, authorId, g)
    ensures Seqs.NoDuplicates(items)
  {
    items := [];
    var i := 0;
    while i < |t.links|
      invariant 0 <= i <= |t.links|
      invariant items == Seqs.Dedup(LinkedSeries(t, t.links[..i], authorId))
    {
      var link := t.links[i];
      assert t.links[..i + 1][..i] == t.links[..i];
      if link.author == authorId {
        var cover := CoverById(t.covers, link.cover);
        if cover.Some? {
          var game := GameOf(t, cover.value);
          if game.Some? {
            var series := SeriesOf(t, game.value);
            DedupSnoc(LinkedSeries(t, t.links[..i], authorId), series);
            if series !in items {
              items := items + [series];
            }
          }
        }
      }
      i := i + 1;
    }
    assert t.links[..i] == t.links;
    LinkedSeriesSome(t, t.links, authorId);
    LinkedSeriesNone(t, t.links, authorId);
    Seqs.DedupElements(LinkedSeries(t, t.links, authorId));
  }
}
