/** The listing pipeline both halves use: keep the records a query matches,
    order them newest first by a timestamp, skip some, keep at most some.
    The store orders by `createdAt` alone; records with equal timestamps may
    come back in any order, so nothing here promises an order among them. */
module Feed {
  import opened Wrappers
  import opened Seqs

  /** The records of a table with keys in `[0, n)`, in ascending key order:
      the order in which the store hands them to the sort. Each record
      carries its own key (`idOf`). */
  function Rows<T(==)>(table: map<int, T>, n: int, idOf: T -> int): (r: seq<T>)
    requires forall k :: k in table ==> idOf(table[k]) == k
    ensures forall x :: x in r ==> idOf(x) in table && table[idOf(x)] == x && idOf(x) < n
    ensures forall k :: k in table && 0 <= k < n ==> table[k] in r
    ensures NoDup(r)
    decreases n
  {
    if n <= 0 then []
    else Rows(table, n - 1, idOf) + (if n - 1 in table then [table[n - 1]] else [])
  }

  /** Non-increasing by `key`: newest first. */
  predicate NewestFirst<T>(s: seq<T>, key: T -> int)
  {
    forall i, j :: 0 <= i < j < |s| ==> key(s[i]) >= key(s[j])
  }

  /** The elements of `s` that `keep` accepts, in their order. */
  function Filter<T>(s: seq<T>, keep: T -> bool): (r: seq<T>)
    ensures forall x :: x in r ==> x in s && keep(x)
    ensures forall x :: x in s && keep(x) ==> x in r
    ensures |r| <= |s|
  {
    if s == [] then []
    else Filter(s[..|s| - 1], keep) + (if keep(s[|s| - 1]) then [s[|s| - 1]] else [])
  }

  /** Places `x` after every element of the newest-first `s` that is at least as new. */
  function Insert<T(==)>(x: T, s: seq<T>, key: T -> int): (r: seq<T>)
    requires NewestFirst(s, key)
    ensures NewestFirst(r, key)
    ensures multiset(r) == multiset(s) + multiset{x}
  {
    if s == [] then [x]
    else if key(s[0]) >= key(x) then
      var rest := Insert(x, s[1..], key);
      assert s == [s[0]] + s[1..];
      HeadBoundsRest(s, x, rest, key);
      PrependNewest(s[0], rest, key);
      [s[0]] + rest
    else
      PrependNewest(x, s, key);
      [x] + s
  }

  /** The head of a newest-first `s` is at least as new as anything in `s[1..]` and `x`. */
  lemma HeadBoundsRest<T>(s: seq<T>, x: T, rest: seq<T>, key: T -> int)
    requires NewestFirst(s, key) && s != [] && key(s[0]) >= key(x)
    requires multiset(rest) == multiset(s[1..]) + multiset{x}
    ensures forall y :: y in rest ==> key(y) <= key(s[0])
  {
    forall y | y in rest ensures key(y) <= key(s[0]) {
      assert y in multiset(rest);
      assert y in multiset(s[1..]) || y == x;
      if y != x {
        assert y in s[1..];
      }
    }
  }

  lemma PrependNewest<T>(a: T, rest: seq<T>, key: T -> int)
    requires NewestFirst(rest, key)
    requires forall y :: y in rest ==> key(y) <= key(a)
    ensures NewestFirst([a] + rest, key)
  {
    var r := [a] + rest;
    forall i, j | 0 <= i < j < |r| ensures key(r[i]) >= key(r[j]) {
      assert r[j] == rest[j - 1];
      if i > 0 {
        assert r[i] == rest[i - 1];
      } else {
        assert rest[j - 1] in rest;
      }
    }
  }

  /** `s` rearranged newest first. */
  function SortNewestFirst<T(==)>(s: seq<T>, key: T -> int): (r: seq<T>)
    ensures NewestFirst(r, key)
    ensures multiset(r) == multiset(s)
  {
    if s == [] then []
    else
      assert s == s[..|s| - 1] + [s[|s| - 1]];
      Insert(s[|s| - 1], SortNewestFirst(s[..|s| - 1], key), key)
  }

  /** Drops the first `n` elements (all of them when there are fewer). */
  function Skip<T>(s: seq<T>, n: nat): (r: seq<T>)
    ensures |r| == if n <= |s| then |s| - n else 0
    ensures forall i :: 0 <= i < |r| ==> r[i] == s[n + i]
  {
    if n <= |s| then s[n..] else []
  }

  /** Keeps at most the first `n` elements. */
  function Take<T>(s: seq<T>, n: nat): (r: seq<T>)
    ensures |r| == if n <= |s| then n else |s|
    ensures forall i :: 0 <= i < |r| ==> r[i] == s[i]
  {
    if n <= |s| then s[..n] else s
  }

  /** A prefix of a newest-first sequence is newest first. */
  lemma TakeKeepsOrder<T>(s: seq<T>, n: nat, key: T -> int)
    requires NewestFirst(s, key)
    ensures NewestFirst(Take(s, n), key)
  {
  }

  /** A suffix of a newest-first sequence is newest first. */
  lemma SkipKeepsOrder<T>(s: seq<T>, n: nat, key: T -> int)
    requires NewestFirst(s, key)
    ensures NewestFirst(Skip(s, n), key)
  {
  }

  /** The first `k` of the newest-first arrangement of `s` are the `k` newest of `s`:
      every element left off the page is no newer than anything on it. */
  lemma {:induction false} FirstPageIsNewest<T>(s: seq<T>, key: T -> int, k: nat)
    ensures var page := Take(SortNewestFirst(s, key), k);
      && |page| == (if k <= |s| then k else |s|)
      && multiset(page) <= multiset(s)
      && (|page| < k ==> multiset(page) == multiset(s))
      && forall z :: z in s && multiset(page)[z] < multiset(s)[z] ==>
           forall i :: 0 <= i < |page| ==> key(z) <= key(page[i])
  {
    var sorted := SortNewestFirst(s, key);
    var page := Take(sorted, k);
    assert |sorted| == |s| by {
      assert |multiset(sorted)| == |multiset(s)|;
    }
    if k < |sorted| {
      assert sorted == page + sorted[k..];
      assert multiset(sorted) == multiset(page) + multiset(sorted[k..]);
      forall z | z in s && multiset(page)[z] < multiset(s)[z]
        ensures forall i :: 0 <= i < |page| ==> key(z) <= key(page[i])
      {
        assert multiset(sorted[k..])[z] > 0;
        RestBelowPage(sorted, key, k, z);
      }
    } else {
      assert page == sorted;
    }
  }

  /** In a newest-first sequence, whatever lies past position `k` is no newer
      than anything before it. */
  lemma RestBelowPage<T>(sorted: seq<T>, key: T -> int, k: nat, z: T)
    requires NewestFirst(sorted, key) && k <= |sorted| && z in sorted[k..]
    ensures forall i :: 0 <= i < k ==> key(z) <= key(sorted[i])
  {
    var j :| k <= j < |sorted| && sorted[j] == z;
  }

  /** An element of `s` that the first page of `k` leaves out is no newer than
      anything on that page, and the page is full. */
  lemma FirstPageKeepsNewest<T>(s: seq<T>, key: T -> int, k: nat, z: T)
    requires z in s && z !in Take(SortNewestFirst(s, key), k)
    ensures var page := Take(SortNewestFirst(s, key), k);
      && |page| == k
      && forall i :: 0 <= i < |page| ==> key(z) <= key(page[i])
  {
    var page := Take(SortNewestFirst(s, key), k);
    FirstPageIsNewest(s, key, k);
    assert multiset(page)[z] == 0 < multiset(s)[z];
  }

  /** A prefix of a duplicate-free sequence is duplicate-free. */
  lemma TakeKeepsNoDup<T>(s: seq<T>, n: nat)
    requires NoDup(s)
    ensures NoDup(Take(s, n))
  {
  }

  /** Filtering keeps a sequence duplicate-free. */
  lemma {:induction false} FilterKeepsNoDup<T>(s: seq<T>, keep: T -> bool)
    requires NoDup(s)
    ensures NoDup(Filter(s, keep))
  {
    if s != [] {
      var init := s[..|s| - 1];
      assert NoDup(init);
      FilterKeepsNoDup(init, keep);
      assert s[|s| - 1] !in init;
    }
  }

  /** Sorting keeps a sequence duplicate-free. */
  lemma SortKeepsNoDup<T>(s: seq<T>, key: T -> int)
    requires NoDup(s)
    ensures NoDup(SortNewestFirst(s, key))
  {
    PermutationKeepsNoDup(s, SortNewestFirst(s, key));
  }

  /** A store query: the records `keep` accepts, newest first, skipping
      `skip`, at most `limit` of them when there is a limit. */
  function Listing<T(==)>(s: seq<T>, keep: T -> bool, key: T -> int, skip: nat, limit: Option<nat>): seq<T>
  {
    var rest := Skip(SortNewestFirst(Filter(s, keep), key), skip);
    if limit.None? then rest else Take(rest, limit.value)
  }

  /** Consecutive pages tile the listing: a page of `m` rows after `skip`,
      followed by everything after `skip + m`, is everything after `skip`, so
      paging neither repeats nor misses a row. */
  lemma PagesTile<T>(s: seq<T>, keep: T -> bool, key: T -> int, skip: nat, m: nat)
    ensures Listing(s, keep, key, skip, Some(m)) + Listing(s, keep, key, skip + m, None) == Listing(s, keep, key, skip, None)
  {
    var q := SortNewestFirst(Filter(s, keep), key);
    if skip <= |q| {
      var rest := q[skip..];
      if m <= |rest| {
        assert rest[..m] + q[skip + m..] == rest;
      } else {
        assert Skip(q, skip + m) == [];
        assert rest + [] == rest;
      }
    }
  }

  /** What a store query promises: matching records only, each once, newest
      first, no more than the limit. */
  lemma ListingFacts<T>(s: seq<T>, keep: T -> bool, key: T -> int, skip: nat, limit: Option<nat>)
    requires NoDup(s)
    ensures var r := Listing(s, keep, key, skip, limit);
      && (forall x :: x in r ==> x in s && keep(x))
      && NoDup(r)
      && NewestFirst(r, key)
      && (limit.Some? ==> |r| <= limit.value)
  {
    var f := Filter(s, keep);
    var sorted := SortNewestFirst(f, key);
    var r := Listing(s, keep, key, skip, limit);
    FilterKeepsNoDup(s, keep);
    SortKeepsNoDup(f, key);
    forall x | x in r ensures x in f {
      var i :| 0 <= i < |r| && r[i] == x;
      assert x == sorted[skip + i];
      assert x in multiset(sorted);
    }
    forall i, j | 0 <= i < j < |r| ensures r[i] != r[j] && key(r[i]) >= key(r[j]) {
      assert r[i] == sorted[skip + i] && r[j] == sorted[skip + j];
    }
  }

  /** A first page holds the newest: any matching record it leaves out is no
      newer than all it shows, and then the page is full. */
  lemma FirstListingIsNewest<T>(s: seq<T>, keep: T -> bool, key: T -> int, limit: Option<nat>, z: T)
    requires z in s && keep(z) && z !in Listing(s, keep, key, 0, limit)
    ensures var r := Listing(s, keep, key, 0, limit);
      limit.Some? && |r| == limit.value && forall i :: 0 <= i < |r| ==> key(z) <= key(r[i])
  {
    var f := Filter(s, keep);
    var sorted := SortNewestFirst(f, key);
    assert Skip(sorted, 0) == sorted;
    assert z in multiset(f);
    if limit.Some? {
      FirstPageKeepsNewest(f, key, limit.value, z);
    }
  }
}
