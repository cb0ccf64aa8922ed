/** Pagination over the catalog (bot/db.py): `BaseModel.paginating` and
    `BaseModel.count`, and the cover browser built on them,
    `Cover.count_by`, `Cover.get_by_page` and its inverse `Cover.get_page`.
    A query keeps the rows that pass its filters in table order, orders
    them by `date_time` (ties keep table order) and cuts out a page. */
module Pages {
  import opened Wrappers
  import opened Catalog
  import opened Filters
  import Seqs

  /** `query.paginate(page, items_per_page)` as peewee and SQLite evaluate
      it: a positive page becomes the offset `(page - 1) * items_per_page`,
      any other page the offset `page * items_per_page <= 0`, which SQLite
      treats as 0; at most `items_per_page` rows are returned. */
  function Paginate<T>(rows: seq<T>, page: int, perPage: nat): (r: seq<T>)
    ensures |r| <= perPage
  {
    var offset := if page > 0 then (page - 1) * perPage else 0;
    if offset >= |rows| then []
    else rows[offset..if offset + perPage <= |rows| then offset + perPage else |rows|]
  }

  lemma MulMonotonic(k: nat, m: nat, n: nat)
    requires k <= m
    ensures k * n <= m * n
  {
  }

  /** The page after `k - 1` full pages of `n` rows starts at their end. */
  lemma PageOffset(k: nat, n: nat)
    requires 1 <= k
    ensures 0 <= (k - 1) * n && (k - 1) * n + n == k * n
  {
  }

  /** Page `k` is the window of at most `n` rows at offset `(k-1)*n`. */
  lemma PaginateWindow<T>(rows: seq<T>, k: nat, n: nat, offset: nat)
    requires 1 <= k && offset == (k - 1) * n
    ensures Paginate(rows, k, n) ==
      if offset >= |rows| then [] else rows[offset..if offset + n <= |rows| then offset + n else |rows|]
  {
  }

  /** The first page of `n` rows is the first `n` rows, or all of them. */
  lemma FirstPage<T>(rows: seq<T>, n: nat)
    ensures Paginate(rows, 1, n) == rows[..if n <= |rows| then n else |rows|]
  {
    assert (1 - 1) * n == 0;
  }

  /** Two adjacent slices of the rows make up the longer one. */
  lemma SliceJoin<T>(rows: seq<T>, i: nat, j: nat)
    requires i <= j <= |rows|
    ensures rows[..i] + rows[i..j] == rows[..j]
  {
  }

  /** Page `k` holds the rows from position `(k-1)*n` on, and it is full
      whenever the rows reach to the end of it. */
  lemma PaginateRows<T>(rows: seq<T>, k: nat, n: nat)
    requires 1 <= k
    ensures k * n <= |rows| ==> |Paginate(rows, k, n)| == n
    ensures forall i :: 0 <= i < |Paginate(rows, k, n)| ==>
      (k - 1) * n + i < |rows| && Paginate(rows, k, n)[i] == rows[(k - 1) * n + i]
  {
    PageOffset(k, n);
    var offset := (k - 1) * n;
    PaginateWindow(rows, k, n, offset);
  }

  /** Every page number below 1 gives the first page. */
  lemma PaginateNonPositive<T>(rows: seq<T>, page: int, n: nat)
    requires page <= 1
    ensures Paginate(rows, page, n) == Paginate(rows, 1, n)
  {
  }

  /** With one row per page, page `p` is the `p`-th row, and there is no
      page past the last row. */
  lemma PaginateSingle<T>(rows: seq<T>, p: int)
    ensures 1 <= p <= |rows| ==> Paginate(rows, p, 1) == [rows[p - 1]]
    ensures p > |rows| ==> Paginate(rows, p, 1) == []
  {
  }

  /** Pages of `n` rows cut from the first page of `m * n` rows are the same
      pages cut from all rows, for page numbers 1 to `m` (the `test_paginating`
      check with three pages of three). */
  lemma PaginateWithin<T>(rows: seq<T>, k: nat, m: nat, n: nat)
    requires 1 <= k <= m
    ensures Paginate(rows, k, n) == Paginate(Paginate(rows, 1, m * n), k, n)
  {
    MulMonotonic(k, m, n);
    PageOffset(k, n);
    var offset := (k - 1) * n;
    var first := Paginate(rows, 1, m * n);
    FirstPage(rows, m * n);
    PaginateWindow(rows, k, n, offset);
    PaginateWindow(first, k, n, offset);
  }

  /** Pages 1 to `m`, one after the other. */
  function Pages<T>(rows: seq<T>, m: nat, n: nat): seq<T> {
    if m == 0 then [] else Pages(rows, m - 1, n) + Paginate(rows, m, n)
  }

  /** Reading pages 1 to `m` of `n` rows gives the first `m * n` rows:
      consecutive pages neither overlap nor skip a row. */
  lemma {:induction false} PagesJoin<T>(rows: seq<T>, m: nat, n: nat)
    ensures Pages(rows, m, n) == Paginate(rows, 1, m * n)
  {
    if m == 0 {
      FirstPage(rows, 0);
    } else {
      PagesJoin(rows, m - 1, n);
      PageOffset(m, n);
      var offset := (m - 1) * n;
      PaginateWindow(rows, m, n, offset);
      FirstPage(rows, offset);
      FirstPage(rows, offset + n);
      var before := if offset <= |rows| then offset else |rows|;
      var after := if offset + n <= |rows| then offset + n else |rows|;
      SliceJoin(rows, before, after);
    }
  }

  // ---------------------------------------------------------------------
  // Covers.

  /** `Cover.select().filter(*filters)`: the covers passing every filter, in
      table order. */
  function Selected(fs: seq<CoverFilter>, covers: seq<Cover>): (r: seq<Cover>)
    ensures |r| <= |covers|
    ensures forall i :: 0 <= i < |r| ==> r[i] in covers && CoverPassesAll(fs, r[i])
    ensures forall i :: 0 <= i < |covers| && CoverPassesAll(fs, covers[i]) ==> covers[i] in r
  {
    if covers == [] then []
    else
      var rest := Selected(fs, covers[1..]);
      assert forall i :: 1 <= i < |covers| ==> covers[i] == covers[1..][i - 1];
      if CoverPassesAll(fs, covers[0]) then [covers[0]] + rest else rest
  }

  /** The covers in a scope, in table order, stated by what the scope means. */
  function InScope(t: Tables, sc: CoverScope, covers: seq<Cover>): seq<Cover> {
    if covers == [] then []
    else if InCoverScope(t, sc, covers[0]) then [covers[0]] + InScope(t, sc, covers[1..])
    else InScope(t, sc, covers[1..])
  }

  /** The covers a scope browses: those in it, ordered by `date_time`. */
  function Ordered(t: Tables, sc: CoverScope): seq<Cover> {
    Seqs.SortBy(InScope(t, sc, t.covers), DateTimeOf)
  }

  /** Filters that a cover passes exactly when it is in the scope select the
      covers of the scope. */
  lemma {:induction false} SelectedInScope(t: Tables, sc: CoverScope, fs: seq<CoverFilter>, covers: seq<Cover>)
    requires forall c :: CoverPassesAll(fs, c) <==> InCoverScope(t, sc, c)
    ensures Selected(fs, covers) == InScope(t, sc, covers)
    decreases |covers|
  {
    if covers != [] {
      SelectedInScope(t, sc, fs, covers[1..]);
    }
  }

  lemma {:induction false} InScopeMembers(t: Tables, sc: CoverScope, covers: seq<Cover>)
    ensures forall c :: c in InScope(t, sc, covers) <==> c in covers && InCoverScope(t, sc, c)
    decreases |covers|
  {
    if covers != [] {
      InScopeMembers(t, sc, covers[1..]);
      assert covers == [covers[0]] + covers[1..];
    }
  }

  lemma {:induction false} InScopeUnique(t: Tables, sc: CoverScope, covers: seq<Cover>)
    requires Seqs.UniqueBy(covers, CoverId)
    ensures Seqs.UniqueBy(InScope(t, sc, covers), CoverId)
    decreases |covers|
  {
    if covers != [] {
      var rest := covers[1..];
      assert Seqs.UniqueBy(rest, CoverId) by {
        forall i, j | 0 <= i < j < |rest| ensures rest[i].id != rest[j].id {
          assert rest[i] == covers[i + 1] && rest[j] == covers[j + 1];
        }
      }
      InScopeUnique(t, sc, rest);
      InScopeMembers(t, sc, rest);
      var r := InScope(t, sc, rest);
      if InCoverScope(t, sc, covers[0]) {
        forall k | 0 <= k < |r| ensures r[k].id != covers[0].id {
          assert r[k] in rest;
          var m :| 0 <= m < |rest| && rest[m] == r[k];
          assert covers[m + 1] == r[k];
        }
        var s := [covers[0]] + r;
        forall i, j | 0 <= i < j < |s| ensures s[i].id != s[j].id {
          assert s[j] == r[j - 1];
          if i > 0 {
            assert s[i] == r[i - 1];
          }
        }
      }
    }
  }

  /** A cover is browsed by a scope exactly when it is in the table and in
      the scope, and with unique cover ids no id is browsed twice. */
  lemma OrderedMembers(t: Tables, sc: CoverScope)
    ensures forall c :: c in Ordered(t, sc) <==> c in t.covers && InCoverScope(t, sc, c)
    ensures Seqs.SortedBy(Ordered(t, sc), DateTimeOf)
    ensures Consistent(t) ==> Seqs.UniqueBy(Ordered(t, sc), CoverId)
  {
    InScopeMembers(t, sc, t.covers);
    Seqs.SortSameElements(InScope(t, sc, t.covers), DateTimeOf);
    if Consistent(t) {
      OrderedUnique(t, sc);
    }
  }

  /** With unique cover ids no id is browsed twice. */
  lemma OrderedUnique(t: Tables, sc: CoverScope)
    requires Consistent(t)
    ensures Seqs.UniqueBy(Ordered(t, sc), CoverId)
  {
    InScopeUnique(t, sc, t.covers);
    Seqs.SortKeepsUnique(InScope(t, sc, t.covers), DateTimeOf, CoverId);
  }

  /** `BaseModel.count(filters)`. */
  function Count(fs: seq<CoverFilter>, covers: seq<Cover>): (n: nat)
    ensures n <= |covers|
  {
    |Selected(fs, covers)|
  }

  /** Counting with filters that a cover passes exactly when it is in the
      scope gives the number of covers the scope browses. */
  lemma CountInScope(t: Tables, sc: CoverScope, fs: seq<CoverFilter>)
    requires forall c :: CoverPassesAll(fs, c) <==> InCoverScope(t, sc, c)
    ensures Count(fs, t.covers) == |Ordered(t, sc)|
  {
    SelectedInScope(t, sc, fs, t.covers);
  }

  /** `Cover.count_by`: the number of covers the scope browses. */
  method CountBy(t: Tables, sc: CoverScope) returns (n: nat)
    ensures n == |Ordered(t, sc)|
    ensures n == |InScope(t, sc, t.covers)|
  {
    var total := CoverGetFilters(t, sc);
    CountInScope(t, sc, total);
    SelectedInScope(t, sc, total, t.covers);
    n := Count(total, t.covers);
  }

  /** `Cover.paginating(page, items_per_page, order_by=Cover.date_time, filters)`. */
  function Paginating(t: Tables, fs: seq<CoverFilter>, page: int, perPage: nat): seq<Cover> {
    Paginate(Seqs.SortBy(Selected(fs, t.covers), DateTimeOf), page, perPage)
  }

  /** `Cover.get_by_page`: page `p` of a scope, one cover per page, is its
      `p`-th cover by date; past the last cover there is none, and a page
      below 1 is the first. */
  method GetByPage(t: Tables, page: int, sc: CoverScope) returns (r: Option<Cover>)
    ensures 1 <= page <= |Ordered(t, sc)| ==> r == Some(Ordered(t, sc)[page - 1])
    ensures page > |Ordered(t, sc)| ==> r == None
    ensures page < 1 ==> r == (if Ordered(t, sc) == [] then None else Some(Ordered(t, sc)[0]))
  {
    var total := CoverGetFilters(t, sc);
    SelectedInScope(t, sc, total, t.covers);
    var covers := Paginating(t, total, page, 1);
    PaginateSingle(Ordered(t, sc), page);
    if page < 1 {
      PaginateNonPositive(Ordered(t, sc), page, 1);
    }
    PaginateSingle(Ordered(t, sc), 1);
    r := if covers != [] then Some(covers[0]) else None;
  }

  /** The rows a query with the scope's filters orders by date are the
      covers the scope browses. */
  lemma QueryIsOrdered(t: Tables, sc: CoverScope, fs: seq<CoverFilter>)
    requires forall c :: CoverPassesAll(fs, c) <==> InCoverScope(t, sc, c)
    ensures Seqs.SortBy(Selected(fs, t.covers), DateTimeOf) == Ordered(t, sc)
  {
    SelectedInScope(t, sc, fs, t.covers);
  }

  /** No row has the id. */
  predicate NoCoverWithId(rows: seq<Cover>, id: int) {
    forall k :: 0 <= k < |rows| ==> rows[k].id != id
  }

  /** Why `get_page` finds no number. */
  datatype PageError = NotInScope(coverId: int)

  /** The query of `get_page` before numbering: the covers passing the
      scope's filters, ordered by `date_time`. */
  method ScopeRows(t: Tables, sc: CoverScope) returns (rows: seq<Cover>)
    ensures rows == Ordered(t, sc)
  {
    var total := CoverGetFilters(t, sc);
    rows := Seqs.SortBy(Selected(total, t.covers), DateTimeOf);
    QueryIsOrdered(t, sc, total);
  }

  /** `Cover.get_page`: walks the scope's covers, numbered from 1 by date
      (`row_number() over (order by date_time)`), and returns the number of
      the first with the wanted id; it fails exactly when no cover of the
      scope has that id. */
  method GetPage(t: Tables, needCoverId: int, sc: CoverScope) returns (r: Result<nat, PageError>)
    ensures r.Ok? ==> 1 <= r.value <= |Ordered(t, sc)| && Ordered(t, sc)[r.value - 1].id == needCoverId
    ensures r.Ok? ==> NoCoverWithId(Ordered(t, sc)[..r.value - 1], needCoverId)
    ensures r.Err? <==> NoCoverWithId(Ordered(t, sc), needCoverId)
    ensures r.Err? ==> r.error == NotInScope(needCoverId)
  {
    var rows := ScopeRows(t, sc);
    var page := FirstPageOf(rows, needCoverId);
    if page.Some? {
      return Ok(page.value);
    }
    return Err(NotInScope(needCoverId));
  }

  /** The loop of `get_page` over the numbered rows: the number (from 1) of
      the first row with the wanted id, if any. */
  method FirstPageOf(rows: seq<Cover>, needCoverId: int) returns (page: Option<nat>)
    ensures page.Some? ==> 1 <= page.value <= |rows| && rows[page.value - 1].id == needCoverId
    ensures page.Some? ==> NoCoverWithId(rows[..page.value - 1], needCoverId)
    ensures page.None? <==> NoCoverWithId(rows, needCoverId)
  {
    var i := 0;
    while i < |rows|
      invariant 0 <= i <= |rows|
      invariant forall k :: 0 <= k < i ==> rows[k].id != needCoverId
    {
      if rows[i].id == needCoverId {
        return Some(i + 1);
      }
      i := i + 1;
    }
    return None;
  }

  /** The bot's navigation round trip: the number `get_page` gives for the
      cover shown on page `p` is `p` again, since cover ids are unique. */
  method PageRoundTrip(t: Tables, p: int, sc: CoverScope) returns (shown: Option<Cover>, back: Result<nat, PageError>)
    requires Consistent(t)
    requires 1 <= p <= |Ordered(t, sc)|
    ensures shown.Some? && back == Ok(p)
  {
    shown := GetByPage(t, p, sc);
    back := GetPage(t, shown.value.id, sc);
    var rows := Ordered(t, sc);
    assert !NoCoverWithId(rows, shown.value.id) by {
      assert rows[p - 1].id == shown.value.id;
    }
    OrderedUnique(t, sc);
    assert rows[back.value - 1].id == rows[p - 1].id;
  }

  /** Ties in `date_time` are the one place where the two queries of the
      round trip could disagree: with distinct dates, any ordering of the
      scope's covers by date is the one browsed. */
  lemma OrderIsForced(t: Tables, sc: CoverScope, rows: seq<Cover>)
    requires Seqs.SortedBy(rows, DateTimeOf)
    requires multiset(rows) == multiset(InScope(t, sc, t.covers))
    requires Seqs.UniqueBy(Ordered(t, sc), DateTimeOf)
    ensures rows == Ordered(t, sc)
  {
    Seqs.SortedDistinctForced(Ordered(t, sc), rows, DateTimeOf);
  }
}
