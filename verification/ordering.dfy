/**
 The stable orderings the container uses: LINQ `OrderBy(..).ThenBy(..)` on
 (priority, full name compared ordinal-ignore-case) for type listings, and
 `OrderByDescending` on the parameter count for constructors. Both are stable
 sorts on a rank, modelled here as one stable insertion sort.
 */
module Ordering {

  /** Upper-case folding of an ordinal, case-insensitive comparison (ASCII letters). */
  function FoldUpper(c: char): (u: char)
    ensures 'a' <= c <= 'z' ==> u as int == c as int - 32
    ensures !('a' <= c <= 'z') ==> u == c
  {
    if 'a' <= c <= 'z' then (c as int - 32) as char else c
  }

  /** `s` sorts no later than `t` under `StringComparer.OrdinalIgnoreCase`. */
  predicate NameLe(s: string, t: string) {
    if s == [] then true
    else if t == [] then false
    else if FoldUpper(s[0]) < FoldUpper(t[0]) then true
    else if FoldUpper(s[0]) > FoldUpper(t[0]) then false
    else NameLe(s[1..], t[1..])
  }

  lemma NameLeTotal(s: string, t: string)
    ensures NameLe(s, t) || NameLe(t, s)
  {
  }

  lemma NameLeTransitive(s: string, t: string, w: string)
    requires NameLe(s, t) && NameLe(t, w)
    ensures NameLe(s, w)
  {
  }

  /** The sort key: a major integer and a minor name. */
  datatype Rank = Rank(major: int, minor: string)

  predicate RankLe(a: Rank, b: Rank) {
    a.major < b.major || (a.major == b.major && NameLe(a.minor, b.minor))
  }

  lemma RankLeTotal(a: Rank, b: Rank)
    ensures RankLe(a, b) || RankLe(b, a)
  {
    NameLeTotal(a.minor, b.minor);
  }

  lemma RankLeTransitive(a: Rank, b: Rank, c: Rank)
    requires RankLe(a, b) && RankLe(b, c)
    ensures RankLe(a, c)
  {
    if a.major == b.major && b.major == c.major {
      NameLeTransitive(a.minor, b.minor, c.minor);
    }
  }

  /** Every element ranks no later than every element after it. */
  ghost predicate SortedBy<T>(s: seq<T>, rank: T -> Rank) {
    forall i, j | 0 <= i < j < |s| :: RankLe(rank(s[i]), rank(s[j]))
  }

  /** Inserts `x` into sorted `s` before the first element that does not rank earlier. */
  function Insert<T>(x: T, s: seq<T>, rank: T -> Rank): (r: seq<T>)
    requires SortedBy(s, rank)
    ensures multiset(r) == multiset(s) + multiset{x}
    ensures SortedBy(r, rank)
  {
    if s == [] || RankLe(rank(x), rank(s[0])) then
      assert forall j | 0 < j < |s| :: RankLe(rank(s[0]), rank(s[j]));
      forall j | 0 <= j < |s|
        ensures RankLe(rank(x), rank(s[j]))
      {
        if j > 0 { RankLeTransitive(rank(x), rank(s[0]), rank(s[j])); }
      }
      [x] + s
    else
      RankLeTotal(rank(x), rank(s[0]));
      var rest := Insert(x, s[1..], rank);
      assert s == [s[0]] + s[1..];
      assert multiset(rest) == multiset(s[1..]) + multiset{x};
      assert forall k | 0 <= k < |rest| :: RankLe(rank(s[0]), rank(rest[k])) by {
        forall k | 0 <= k < |rest|
          ensures RankLe(rank(s[0]), rank(rest[k]))
        {
          assert rest[k] in multiset(rest);
          assert rest[k] == x || rest[k] in multiset(s[1..]);
          if rest[k] != x {
            var m :| 0 <= m < |s[1..]| && s[1..][m] == rest[k];
            assert RankLe(rank(s[0]), rank(s[m + 1]));
          }
        }
      }
      [s[0]] + rest
  }

  /**
   Stable sort of `xs` by `rank`: the result is a permutation of the input
   ordered by rank.
   */
  function SortBy<T>(xs: seq<T>, rank: T -> Rank): (r: seq<T>)
    ensures multiset(r) == multiset(xs)
    ensures |r| == |xs|
    ensures SortedBy(r, rank)
  {
    if xs == [] then []
    else
      assert xs == [xs[0]] + xs[1..];
      var rest := SortBy(xs[1..], rank);
      var r := Insert(xs[0], rest, rank);
      assert |r| == |multiset(r)|;
      r
  }

  /** `a` and `b` rank equally: each ranks no later than the other. */
  predicate SameRank(a: Rank, b: Rank) {
    RankLe(a, b) && RankLe(b, a)
  }

  /** The elements of `s` that rank equally with `key`, in their order in `s`. */
  function Tied<T>(s: seq<T>, rank: T -> Rank, key: Rank): seq<T> {
    if s == [] then []
    else (if SameRank(rank(s[0]), key) then [s[0]] else []) + Tied(s[1..], rank, key)
  }

  /** Inserting `x` puts it after nothing it ties with: ties keep their relative order. */
  lemma {:induction false} InsertTied<T>(x: T, s: seq<T>, rank: T -> Rank, key: Rank)
    requires SortedBy(s, rank)
    ensures Tied(Insert(x, s, rank), rank, key)
      == (if SameRank(rank(x), key) then [x] else []) + Tied(s, rank, key)
    decreases |s|
  {
    if s == [] || RankLe(rank(x), rank(s[0])) {
      assert ([x] + s)[1..] == s;
    } else {
      var rest := Insert(x, s[1..], rank);
      assert Insert(x, s, rank) == [s[0]] + rest;
      assert ([s[0]] + rest)[1..] == rest;
      InsertTied(x, s[1..], rank, key);
      if SameRank(rank(x), key) && SameRank(rank(s[0]), key) {
        RankLeTransitive(rank(x), key, rank(s[0]));
        assert false;
      }
    }
  }

  /** `SortBy` is stable: for every rank, the elements of that rank keep their input order. */
  lemma {:induction false} SortByStable<T>(xs: seq<T>, rank: T -> Rank, key: Rank)
    ensures Tied(SortBy(xs, rank), rank, key) == Tied(xs, rank, key)
    decreases |xs|
  {
    if xs != [] {
      SortByStable(xs[1..], rank, key);
      InsertTied(xs[0], SortBy(xs[1..], rank), rank, key);
    }
  }

  lemma {:induction false} SortByKeepsElements<T>(xs: seq<T>, rank: T -> Rank, x: T)
    ensures x in SortBy(xs, rank) <==> x in xs
  {
    var r := SortBy(xs, rank);
    assert x in r <==> x in multiset(r);
    assert x in xs <==> x in multiset(xs);
  }

  /** Sorting keeps a list of distinct elements free of duplicates. */
  lemma SortByNoDup<T>(xs: seq<T>, rank: T -> Rank)
    requires forall i, j | 0 <= i < j < |xs| :: xs[i] != xs[j]
    ensures forall i, j | 0 <= i < j < |SortBy(xs, rank)| :: SortBy(xs, rank)[i] != SortBy(xs, rank)[j]
  {
    var r := SortBy(xs, rank);
    forall i, j | 0 <= i < j < |r|
      ensures r[i] != r[j]
    {
      if r[i] == r[j] {
        MultisetCountAtLeastTwo(r, i, j);
        DistinctCountAtMostOne(xs, r[i]);
        assert false;
      }
    }
  }

  lemma MultisetCountAtLeastTwo<T>(s: seq<T>, i: int, j: int)
    requires 0 <= i < j < |s| && s[i] == s[j]
    ensures multiset(s)[s[i]] >= 2
  {
    var x := s[i];
    assert s == s[..i] + [s[i]] + s[i + 1..j] + [s[j]] + s[j + 1..];
    assert multiset(s) == multiset(s[..i]) + multiset{x} + multiset(s[i + 1..j]) + multiset{x} + multiset(s[j + 1..]);
  }

  lemma DistinctCountAtMostOne<T>(s: seq<T>, x: T)
    requires forall i, j | 0 <= i < j < |s| :: s[i] != s[j]
    ensures multiset(s)[x] <= 1
  {
    if s != [] {
      assert s == [s[0]] + s[1..];
      DistinctCountAtMostOne(s[1..], x);
      if s[0] == x {
        assert x !in s[1..];
        assert multiset(s[1..])[x] == 0;
      }
    }
  }
}
