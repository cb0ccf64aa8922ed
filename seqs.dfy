/** Sequence operations the queries are built from: ordering rows by a key
    (SQL `ORDER BY`, Python's `list.sort(key=...)`), uniqueness of a key
    column, and the "append if not already present" de-duplication loops. */
module Seqs {

  predicate SortedBy<T>(s: seq<T>, key: T -> int) {
    forall i, j :: 0 <= i < j < |s| ==> key(s[i]) <= key(s[j])
  }

  /** No two rows share a value of the column `id`. */
  predicate UniqueBy<T>(s: seq<T>, id: T -> int) {
    forall i, j :: 0 <= i < j < |s| ==> id(s[i]) != id(s[j])
  }

  predicate NoDuplicates<T(==)>(s: seq<T>) {
    forall i, j :: 0 <= i < j < |s| ==> s[i] != s[j]
  }

  /** Puts `x` in front of the first row whose key is larger. */
  function InsertBy<T>(x: T, s: seq<T>, key: T -> int): (r: seq<T>)
    ensures |r| == |s| + 1
    ensures multiset(r) == multiset(s) + multiset{x}
    ensures forall i :: 0 <= i < |r| ==> r[i] == x || r[i] in s
  {
    if s == [] || key(x) <= key(s[0]) then [x] + s
    else
      var r := [s[0]] + InsertBy(x, s[1..], key);
      assert s == [s[0]] + s[1..];
      r
  }

  /** A row no larger than any of a sorted sequence can go in front of it. */
  lemma PrependSorted<T>(h: T, rest: seq<T>, key: T -> int)
    requires SortedBy(rest, key)
    requires forall i :: 0 <= i < |rest| ==> key(h) <= key(rest[i])
    ensures SortedBy([h] + rest, key)
  {
    var r := [h] + rest;
    forall i, j | 0 <= i < j < |r| ensures key(r[i]) <= key(r[j]) {
      assert r[j] == rest[j - 1];
      if i > 0 {
        assert r[i] == rest[i - 1];
      }
    }
  }

  lemma {:induction false} InsertSorted<T>(x: T, s: seq<T>, key: T -> int)
    requires SortedBy(s, key)
    ensures SortedBy(InsertBy(x, s, key), key)
    decreases |s|
  {
    if s != [] && key(x) > key(s[0]) {
      var rest := InsertBy(x, s[1..], key);
      InsertSorted(x, s[1..], key);
      forall i | 0 <= i < |rest| ensures key(s[0]) <= key(rest[i]) {
        if rest[i] != x {
          var k :| 0 <= k < |s[1..]| && s[1..][k] == rest[i];
          assert s[k + 1] == rest[i];
        }
      }
      PrependSorted(s[0], rest, key);
    }
  }

  /** The rows ordered by `key` (an insertion sort): a sorted permutation. */
  function SortBy<T>(s: seq<T>, key: T -> int): (r: seq<T>)
    ensures |r| == |s|
    ensures multiset(r) == multiset(s)
    ensures SortedBy(r, key)
  {
    if s == [] then []
    else
      var rest := SortBy(s[1..], key);
      HeadTailMultiset(s);
      InsertSorted(s[0], rest, key);
      InsertBy(s[0], rest, key)
  }

  /** A non-empty sequence holds its first element and the rest. */
  lemma HeadTailMultiset<T>(s: seq<T>)
    requires s != []
    ensures multiset(s) == multiset(s[1..]) + multiset{s[0]}
  {
    assert s == [s[0]] + s[1..];
  }

  function Reverse<T>(s: seq<T>): (r: seq<T>)
    ensures |r| == |s|
    ensures forall i :: 0 <= i < |s| ==> r[i] == s[|s| - 1 - i]
  {
    if s == [] then [] else Reverse(s[1..]) + [s[0]]
  }

  /** Reversing rows sorted by `key` puts them in non-increasing order. */
  lemma ReverseSorted<T>(s: seq<T>, key: T -> int)
    requires SortedBy(s, key)
    ensures forall i, j :: 0 <= i < j < |s| ==> key(Reverse(s)[i]) >= key(Reverse(s)[j])
  {
    var r := Reverse(s);
    forall i, j | 0 <= i < j < |s| ensures key(r[i]) >= key(r[j]) {
      assert r[i] == s[|s| - 1 - i] && r[j] == s[|s| - 1 - j];
    }
  }

  lemma ReverseSameElements<T(!new)>(s: seq<T>)
    ensures forall x :: x in Reverse(s) <==> x in s
  {
    var r := Reverse(s);
    forall x | x in s ensures x in r {
      var i :| 0 <= i < |s| && s[i] == x;
      assert r[|s| - 1 - i] == x;
    }
  }

  /** Reversing keeps every element, as many times as before. */
  lemma {:induction false} ReverseMultiset<T>(s: seq<T>)
    ensures multiset(Reverse(s)) == multiset(s)
    decreases |s|
  {
    if s != [] {
      ReverseMultiset(s[1..]);
      assert s == [s[0]] + s[1..];
    }
  }

  /** The first occurrence of each value, in the order of first occurrence:
      what `if x not in items: items.append(x)` leaves in `items`. */
  function Dedup<T(==)>(s: seq<T>): seq<T> {
    if s == [] then []
    else
      var r := Dedup(s[..|s| - 1]);
      if s[|s| - 1] in r then r else r + [s[|s| - 1]]
  }

  lemma {:induction false} DedupElements<T(!new)>(s: seq<T>)
    ensures forall x :: x in Dedup(s) <==> x in s
    ensures NoDuplicates(Dedup(s))
    decreases |s|
  {
    if s != [] {
      var init := s[..|s| - 1];
      DedupElements(init);
      assert s == init + [s[|s| - 1]];
    }
  }

  /** Values keep the order of their first occurrences: a value first seen
      earlier stands earlier in the result. */
  lemma {:induction false} DedupFirstOccurrence<T(!new)>(s: seq<T>, i: nat, j: nat)
    requires i < j < |Dedup(s)|
    ensures exists a :: 0 <= a < |s| && s[a] == Dedup(s)[i] && Dedup(s)[j] !in s[..a + 1]
    decreases |s|
  {
    var init := s[..|s| - 1];
    var r := Dedup(init);
    DedupElements(init);
    if j < |r| {
      DedupFirstOccurrence(init, i, j);
      var a :| 0 <= a < |init| && init[a] == r[i] && r[j] !in init[..a + 1];
      assert s[..a + 1] == init[..a + 1];
    } else {
      assert Dedup(s)[j] == s[|s| - 1] && s[|s| - 1] !in r;
      assert i < |r|;
      assert Dedup(s)[i] == r[i] && r[i] in r;
      assert r[i] in init;
      var a :| 0 <= a < |init| && init[a] == r[i];
      assert s[a] == r[i];
      assert s[|s| - 1] !in init;
      assert s[..a + 1] == init[..a + 1];
    }
  }

  lemma {:induction false} InsertKeepsUnique<T>(x: T, s: seq<T>, key: T -> int, id: T -> int)
    requires UniqueBy(s, id)
    requires forall y :: y in s ==> id(y) != id(x)
    ensures UniqueBy(InsertBy(x, s, key), id)
    decreases |s|
  {
    if s != [] && key(x) > key(s[0]) {
      InsertKeepsUnique(x, s[1..], key, id);
      var rest := InsertBy(x, s[1..], key);
      forall y | y in rest ensures id(y) != id(s[0]) {
        if y != x {
          var k :| 0 <= k < |s[1..]| && s[1..][k] == y;
          assert s[k + 1] == y;
        }
      }
      var r := [s[0]] + rest;
      forall i, j | 0 <= i < j < |r| ensures id(r[i]) != id(r[j]) {
        assert r[j] == rest[j - 1] && r[j] in rest;
        if i > 0 {
          assert r[i] == rest[i - 1];
        }
      }
    } else {
      var r := [x] + s;
      forall i, j | 0 <= i < j < |r| ensures id(r[i]) != id(r[j]) {
        assert r[j] == s[j - 1] && r[j] in s;
        if i > 0 {
          assert r[i] == s[i - 1];
        }
      }
    }
  }

  /** Ordering rows keeps a column unique. */
  lemma {:induction false} SortKeepsUnique<T>(s: seq<T>, key: T -> int, id: T -> int)
    requires UniqueBy(s, id)
    ensures UniqueBy(SortBy(s, key), id)
    decreases |s|
  {
    if s != [] {
      SortKeepsUnique(s[1..], key, id);
      var r := SortBy(s[1..], key);
      forall y | y in r ensures id(y) != id(s[0]) {
        assert y in multiset(s[1..]);
        var k :| 0 <= k < |s[1..]| && s[1..][k] == y;
        assert s[k + 1] == y;
      }
      InsertKeepsUnique(s[0], r, key, id);
    }
  }

  /** Two orderings by a key of the same rows, no two sharing a key, start
      with the same row. */
  lemma SortedDistinctHead<T>(a: seq<T>, b: seq<T>, key: T -> int)
    requires a != [] && b != []
    requires SortedBy(a, key) && SortedBy(b, key)
    requires multiset(a) == multiset(b)
    requires UniqueBy(a, key)
    ensures a[0] == b[0]
  {
    assert a[0] in multiset(b) && b[0] in multiset(a);
    var i :| 0 <= i < |b| && b[i] == a[0];
    var k :| 0 <= k < |a| && a[k] == b[0];
    assert key(b[0]) <= key(b[i]);
    assert key(a[0]) <= key(a[k]);
  }

  /** Removing the same first row from two permutations leaves two
      permutations. */
  lemma TailsSameElements<T>(a: seq<T>, b: seq<T>)
    requires a != [] && b != [] && a[0] == b[0]
    requires multiset(a) == multiset(b)
    ensures multiset(a[1..]) == multiset(b[1..])
  {
    assert a == [a[0]] + a[1..] && b == [b[0]] + b[1..];
    assert multiset(a[1..]) == multiset(a) - multiset{a[0]};
    assert multiset(b[1..]) == multiset(b) - multiset{b[0]};
  }

  /** When no two rows share a key, ordering by that key leaves no choice:
      two orderings of the same rows are the same sequence. */
  lemma {:induction false} SortedDistinctForced<T>(a: seq<T>, b: seq<T>, key: T -> int)
    requires SortedBy(a, key) && SortedBy(b, key)
    requires multiset(a) == multiset(b)
    requires UniqueBy(a, key)
    ensures a == b
    decreases |a|
  {
    assert |a| == |multiset(a)| == |multiset(b)| == |b|;
    if a != [] {
      SortedDistinctHead(a, b, key);
      TailsSameElements(a, b);
      SortedDistinctForced(a[1..], b[1..], key);
    }
  }

  /** A row is in the ordered rows exactly when it is in the rows. */
  lemma SortSameElements<T>(s: seq<T>, key: T -> int)
    ensures forall x :: x in SortBy(s, key) <==> x in s
  {
    var r := SortBy(s, key);
    forall x ensures x in r <==> x in s {
      assert x in r <==> x in multiset(r);
      assert x in s <==> x in multiset(s);
    }
  }
}
