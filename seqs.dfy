/** Sequence helpers shared by both halves of the model: counting occurrences,
    removing every occurrence of a value (MongoDB's `$pull`, Prisma's
    `deleteMany` on an exact row), and duplicate-freedom. */
module Seqs {

  /** Number of occurrences of `x` in `s`. */
  function Count<T(==)>(s: seq<T>, x: T): nat
  {
    if s == [] then 0
    else Count(s[..|s| - 1], x) + (if s[|s| - 1] == x then 1 else 0)
  }

  /** `s` with every occurrence of `x` removed, the rest in order. */
  function RemoveAll<T(==)>(s: seq<T>, x: T): seq<T>
  {
    if s == [] then []
    else RemoveAll(s[..|s| - 1], x) + (if s[|s| - 1] == x then [] else [s[|s| - 1]])
  }

  /** No value occurs twice. */
  predicate NoDup<T(==)>(s: seq<T>)
  {
    forall i, j :: 0 <= i < j < |s| ==> s[i] != s[j]
  }

  lemma CountAppend<T>(s: seq<T>, y: T, x: T)
    ensures Count(s + [y], x) == Count(s, x) + (if y == x then 1 else 0)
  {
    assert (s + [y])[..|s|] == s;
  }

  lemma RemoveAllAppend<T>(s: seq<T>, y: T, x: T)
    ensures RemoveAll(s + [y], x) == RemoveAll(s, x) + (if y == x then [] else [y])
  {
    assert (s + [y])[..|s|] == s;
  }

  /** A value occurs in `s` exactly when its count is positive. */
  lemma {:induction false} CountPositiveIffIn<T>(s: seq<T>, x: T)
    ensures Count(s, x) > 0 <==> x in s
  {
    if s != [] {
      var init := s[..|s| - 1];
      CountPositiveIffIn(init, x);
      assert s == init + [s[|s| - 1]];
      assert x in s <==> x in init || x == s[|s| - 1];
    }
  }

  /** In a duplicate-free sequence every value occurs at most once. */
  lemma {:induction false} NoDupCountAtMostOne<T>(s: seq<T>, x: T)
    requires NoDup(s)
    ensures Count(s, x) <= 1
    ensures Count(s, x) == 1 <==> x in s
  {
    CountPositiveIffIn(s, x);
    if s != [] {
      var init := s[..|s| - 1];
      assert NoDup(init);
      NoDupCountAtMostOne(init, x);
      CountPositiveIffIn(init, x);
      if s[|s| - 1] == x {
        assert x !in init;
      }
    }
  }

  /** Removing every `x` shortens `s` by the number of `x`s and leaves no `x`. */
  lemma {:induction false} RemoveAllShape<T>(s: seq<T>, x: T)
    ensures |RemoveAll(s, x)| == |s| - Count(s, x)
    ensures x !in RemoveAll(s, x)
    ensures forall y :: y in RemoveAll(s, x) ==> y in s
  {
    if s != [] {
      RemoveAllShape(s[..|s| - 1], x);
    }
  }

  /** Removing `x` does not change how often any other value occurs. */
  lemma {:induction false} RemoveAllCountOthers<T>(s: seq<T>, x: T, y: T)
    requires y != x
    ensures Count(RemoveAll(s, x), y) == Count(s, y)
  {
    if s != [] {
      var init := s[..|s| - 1];
      var last := s[|s| - 1];
      RemoveAllCountOthers(init, x, y);
      assert s == init + [last];
      RemoveAllAppend(init, last, x);
      CountAppend(init, last, y);
      if last != x {
        CountAppend(RemoveAll(init, x), last, y);
      } else {
        assert RemoveAll(s, x) == RemoveAll(init, x);
      }
    }
  }

  /** Removing `x` keeps every other value that was there, and adds none. */
  lemma {:induction false} RemoveAllKeepsOthers<T>(s: seq<T>, x: T)
    ensures forall y :: y != x ==> (y in RemoveAll(s, x) <==> y in s)
  {
    if s != [] {
      var init := s[..|s| - 1];
      RemoveAllKeepsOthers(init, x);
      assert s == init + [s[|s| - 1]];
    }
  }

  /** Removing `x` keeps a sequence duplicate-free. */
  lemma {:induction false} RemoveAllKeepsNoDup<T>(s: seq<T>, x: T)
    requires NoDup(s)
    ensures NoDup(RemoveAll(s, x))
  {
    if s != [] {
      var init := s[..|s| - 1];
      assert NoDup(init);
      RemoveAllKeepsNoDup(init, x);
      RemoveAllShape(init, x);
      var last := s[|s| - 1];
      if last != x {
        assert last !in init;
        assert last !in RemoveAll(init, x);
      }
    }
  }

  /** Removing a value that does not occur changes nothing. */
  lemma {:induction false} RemoveAllAbsent<T>(s: seq<T>, x: T)
    requires x !in s
    ensures RemoveAll(s, x) == s
  {
    if s != [] {
      var init := s[..|s| - 1];
      assert s == init + [s[|s| - 1]];
      RemoveAllAbsent(init, x);
    }
  }

  /** Appending a fresh value and then removing it restores the sequence:
      `$pull` undoes `$push` and `deleteMany` undoes `create`. */
  lemma PushThenPull<T>(s: seq<T>, x: T)
    requires x !in s
    ensures RemoveAll(s + [x], x) == s
  {
    RemoveAllAppend(s, x, x);
    RemoveAllAbsent(s, x);
  }

  /** Appending a fresh value keeps a sequence duplicate-free. */
  lemma AppendKeepsNoDup<T>(s: seq<T>, x: T)
    requires NoDup(s) && x !in s
    ensures NoDup(s + [x])
  {
  }

  /** A multiset counts occurrences the way `Count` does. */
  lemma {:induction false} MultisetIsCount<T>(s: seq<T>, x: T)
    ensures multiset(s)[x] == Count(s, x)
  {
    if s != [] {
      var init := s[..|s| - 1];
      assert s == init + [s[|s| - 1]];
      MultisetIsCount(init, x);
    }
  }

  lemma {:induction false} TwoIndicesCountTwice<T>(s: seq<T>, i: int, j: int)
    requires 0 <= i < j < |s| && s[i] == s[j]
    ensures Count(s, s[i]) >= 2
  {
    var init := s[..|s| - 1];
    if j == |s| - 1 {
      assert s[i] in init;
      CountPositiveIffIn(init, s[i]);
    } else {
      TwoIndicesCountTwice(init, i, j);
    }
  }

  /** A rearrangement of a duplicate-free sequence is duplicate-free. */
  lemma PermutationKeepsNoDup<T>(a: seq<T>, b: seq<T>)
    requires NoDup(a) && multiset(a) == multiset(b)
    ensures NoDup(b)
  {
    forall i, j | 0 <= i < j < |b| ensures b[i] != b[j] {
      if b[i] == b[j] {
        TwoIndicesCountTwice(b, i, j);
        MultisetIsCount(b, b[i]);
        MultisetIsCount(a, b[i]);
        NoDupCountAtMostOne(a, b[i]);
      }
    }
  }
}
