/**
 The list operations behind port ranking: filtering by a name pattern,
 Python's stable `list.sort` with a key, and the "likely ports first, then
 every other enumerated port" composition.
 */
module Ranking {
  import opened Text

  /** A sort key as the ranking functions build them: an integer, then a string,
      compared as Python compares a pair (the integer first, then the string). */
  datatype Rank = Rank(major: int, minor: string)

  predicate RankLe(x: Rank, y: Rank)
  {
    x.major < y.major || (x.major == y.major && LexLe(x.minor, y.minor))
  }

  lemma RankLeReflexive(x: Rank)
    ensures RankLe(x, x)
  {
    LexLeReflexive(x.minor);
  }

  lemma RankLeTotal(x: Rank, y: Rank)
    ensures RankLe(x, y) || RankLe(y, x)
  {
    LexLeTotal(x.minor, y.minor);
  }

  lemma RankLeTransitive(x: Rank, y: Rank, z: Rank)
    requires RankLe(x, y) && RankLe(y, z)
    ensures RankLe(x, z)
  {
    if x.major == y.major == z.major {
      LexLeTransitive(x.minor, y.minor, z.minor);
    }
  }

  /** A list comprehension `[p for p in s if keep(p)]`. */
  function Filter(s: seq<string>, keep: string -> bool): (r: seq<string>)
    ensures |r| <= |s|
    ensures forall p :: p in r <==> p in s && keep(p)
  {
    if |s| == 0 then []
    else (if keep(s[0]) then [s[0]] else []) + Filter(s[1..], keep)
  }

  /** `[p for p in all if p not in likely]`. */
  function Others(all: seq<string>, likely: seq<string>): (r: seq<string>)
    ensures forall p :: p in r <==> p in all && p !in likely
  {
    if |all| == 0 then []
    else (if all[0] in likely then [] else [all[0]]) + Others(all[1..], likely)
  }

  /** Filtering keeps enumeration order and multiplicity: it distributes over
      concatenation, and a single port is kept exactly when it matches. */
  lemma {:induction false} FilterAppend(a: seq<string>, b: seq<string>, keep: string -> bool)
    ensures Filter(a + b, keep) == Filter(a, keep) + Filter(b, keep)
    ensures |a| == 1 ==> Filter(a, keep) == (if keep(a[0]) then a else [])
    decreases |a|
  {
    if |a| == 0 {
      assert a + b == b;
    } else {
      var head := if keep(a[0]) then [a[0]] else [];
      assert Filter(a + b, keep) == head + Filter(a[1..] + b, keep) by {
        assert (a + b)[0] == a[0] && (a + b)[1..] == a[1..] + b;
      }
      FilterAppend(a[1..], b, keep);
      if |a| == 1 {
        assert a[1..] == [];
      }
    }
  }

  /** The ports that are not likely, in enumeration order and multiplicity. */
  lemma {:induction false} OthersAppend(a: seq<string>, b: seq<string>, likely: seq<string>)
    ensures Others(a + b, likely) == Others(a, likely) + Others(b, likely)
    ensures |a| == 1 ==> Others(a, likely) == (if a[0] in likely then [] else a)
    decreases |a|
  {
    if |a| == 0 {
      assert a + b == b;
    } else {
      var head := if a[0] in likely then [] else [a[0]];
      assert Others(a + b, likely) == head + Others(a[1..] + b, likely) by {
        assert (a + b)[0] == a[0] && (a + b)[1..] == a[1..] + b;
      }
      OthersAppend(a[1..], b, likely);
      if |a| == 1 {
        assert a[1..] == [];
      }
    }
  }

  /** The candidate order: the likely ports, then the other enumerated ports in
      enumeration order. */
  function Ranked(likely: seq<string>, all: seq<string>): seq<string>
  {
    likely + Others(all, likely)
  }

  /** The elements of `s` whose rank is `k`, in their order in `s`. */
  function WithRank(s: seq<string>, rank: string -> Rank, k: Rank): seq<string>
  {
    if |s| == 0 then []
    else (if rank(s[0]) == k then [s[0]] else []) + WithRank(s[1..], rank, k)
  }

  /** Ascending by rank. */
  predicate Sorted(s: seq<string>, rank: string -> Rank)
  {
    forall i, j :: 0 <= i < j < |s| ==> RankLe(rank(s[i]), rank(s[j]))
  }

  /** Insert `x` before the first element it does not rank after. */
  function Insert(x: string, t: seq<string>, rank: string -> Rank): (r: seq<string>)
    ensures multiset(r) == multiset(t) + multiset{x}
  {
    if |t| == 0 then [x]
    else if RankLe(rank(x), rank(t[0])) then [x] + t
    else
      assert t == [t[0]] + t[1..];
      [t[0]] + Insert(x, t[1..], rank)
  }

  /** `sorted(s, key=rank)`, stable: an insertion sort that inserts each element
      ahead of the already sorted ones of equal rank that followed it. */
  function SortBy(s: seq<string>, rank: string -> Rank): (r: seq<string>)
    ensures multiset(r) == multiset(s)
  {
    if |s| == 0 then []
    else
      assert s == [s[0]] + s[1..];
      Insert(s[0], SortBy(s[1..], rank), rank)
  }

  /** Every element of `Insert(x, t)` is `x` or an element of `t`. */
  lemma InsertMember(x: string, t: seq<string>, rank: string -> Rank, e: string)
    requires e in Insert(x, t, rank)
    ensures e == x || e in t
  {
    assert e in multiset(Insert(x, t, rank));
  }

  /** An element of a tail sits one place further on in the whole sequence. */
  lemma TailIndex(t: seq<string>, e: string) returns (m: int)
    requires |t| > 0 && e in t[1..]
    ensures 0 < m < |t| && t[m] == e
  {
    var i :| 0 <= i < |t[1..]| && t[1..][i] == e;
    m := i + 1;
  }

  /** A sorted sequence with an element in front that ranks no higher than
      any of them is sorted. */
  lemma SortedCons(y: string, u: seq<string>, rank: string -> Rank)
    requires Sorted(u, rank)
    requires forall e :: e in u ==> RankLe(rank(y), rank(e))
    ensures Sorted([y] + u, rank)
  {
    var r := [y] + u;
    forall i, j | 0 <= i < j < |r|
      ensures RankLe(rank(r[i]), rank(r[j]))
    {
      assert r[j] == u[j - 1];
      if i > 0 {
        assert r[i] == u[i - 1];
      }
    }
  }

  lemma {:induction false} InsertSorted(x: string, t: seq<string>, rank: string -> Rank)
    requires Sorted(t, rank)
    ensures Sorted(Insert(x, t, rank), rank)
  {
    if |t| == 0 {
      assert Insert(x, t, rank) == [x];
    } else if RankLe(rank(x), rank(t[0])) {
      forall e | e in t
        ensures RankLe(rank(x), rank(e))
      {
        if e != t[0] {
          var m := TailIndex(t, e);
          RankLeTransitive(rank(x), rank(t[0]), rank(e));
        }
      }
      SortedCons(x, t, rank);
    } else {
      var u := Insert(x, t[1..], rank);
      assert Sorted(u, rank) by {
        assert Sorted(t[1..], rank);
        InsertSorted(x, t[1..], rank);
      }
      forall e | e in u
        ensures RankLe(rank(t[0]), rank(e))
      {
        InsertMember(x, t[1..], rank, e);
        if e == x {
          RankLeTotal(rank(x), rank(t[0]));
        } else {
          var m := TailIndex(t, e);
        }
      }
      SortedCons(t[0], u, rank);
    }
  }

  lemma {:induction false} SortSorted(s: seq<string>, rank: string -> Rank)
    ensures Sorted(SortBy(s, rank), rank)
  {
    if |s| > 0 {
      SortSorted(s[1..], rank);
      InsertSorted(s[0], SortBy(s[1..], rank), rank);
    }
  }

  lemma WithRankCons(y: string, s: seq<string>, rank: string -> Rank, k: Rank)
    ensures rank(y) == k ==> WithRank([y] + s, rank, k) == [y] + WithRank(s, rank, k)
    ensures rank(y) != k ==> WithRank([y] + s, rank, k) == WithRank(s, rank, k)
  {
    assert ([y] + s)[0] == y && ([y] + s)[1..] == s;
  }

  lemma {:induction false} WithRankInsert(x: string, t: seq<string>, rank: string -> Rank, k: Rank)
    ensures rank(x) == k ==> WithRank(Insert(x, t, rank), rank, k) == [x] + WithRank(t, rank, k)
    ensures rank(x) != k ==> WithRank(Insert(x, t, rank), rank, k) == WithRank(t, rank, k)
  {
    if |t| == 0 {
      WithRankCons(x, t, rank, k);
      assert Insert(x, t, rank) == [x] + t;
    } else if RankLe(rank(x), rank(t[0])) {
      WithRankCons(x, t, rank, k);
    } else {
      var u := Insert(x, t[1..], rank);
      RankLeReflexive(rank(x));
      WithRankInsert(x, t[1..], rank, k);
      WithRankCons(t[0], u, rank, k);
      WithRankCons(t[0], t[1..], rank, k);
      assert t == [t[0]] + t[1..];
    }
  }

  /** Stability: among elements of equal rank, sorting keeps the input order. */
  lemma {:induction false} SortStable(s: seq<string>, rank: string -> Rank, k: Rank)
    ensures WithRank(SortBy(s, rank), rank, k) == WithRank(s, rank, k)
  {
    if |s| > 0 {
      SortStable(s[1..], rank, k);
      WithRankInsert(s[0], SortBy(s[1..], rank), rank, k);
    }
  }

  /** Every enumerated port is a candidate exactly as often as it was
      enumerated: whichever ports the pattern picks, the likely ports followed
      by the others are a permutation of the enumeration. */
  lemma {:induction false} FilterOthers(all: seq<string>, keep: string -> bool, likely: seq<string>)
    requires forall p :: p in all ==> (p in likely <==> keep(p))
    ensures multiset(Filter(all, keep)) + multiset(Others(all, likely)) == multiset(all)
  {
    if |all| > 0 {
      var x, rest := all[0], all[1..];
      assert all == [x] + rest;
      var fr, or := Filter(rest, keep), Others(rest, likely);
      assert multiset(fr) + multiset(or) == multiset(rest) by {
        FilterOthers(rest, keep, likely);
      }
      if keep(x) {
        assert Filter(all, keep) == [x] + fr;
        assert Others(all, likely) == or;
      } else {
        assert Filter(all, keep) == fr;
        assert Others(all, likely) == [x] + or;
      }
    }
  }

  lemma RankedPermutation(all: seq<string>, keep: string -> bool, likely: seq<string>)
    requires multiset(likely) == multiset(Filter(all, keep))
    ensures multiset(Ranked(likely, all)) == multiset(all)
  {
    forall p | p in all
      ensures p in likely <==> keep(p)
    {
      assert p in likely <==> p in multiset(Filter(all, keep));
    }
    FilterOthers(all, keep, likely);
  }

  /** When every enumerated port is likely, nothing is appended. */
  lemma {:induction false} OthersEmpty(all: seq<string>, likely: seq<string>)
    requires forall p :: p in all ==> p in likely
    ensures Others(all, likely) == []
  {
    if |all| > 0 {
      OthersEmpty(all[1..], likely);
    }
  }

  /** Ascending by name. */
  predicate InNameOrder(s: seq<string>)
  {
    forall i, j :: 0 <= i < j < |s| ==> LexLe(s[i], s[j])
  }

  /** Filtering keeps name order. */
  lemma {:induction false} FilterKeepsNameOrder(s: seq<string>, keep: string -> bool)
    requires InNameOrder(s)
    ensures InNameOrder(Filter(s, keep))
  {
    if |s| > 0 {
      var rest := Filter(s[1..], keep);
      FilterKeepsNameOrder(s[1..], keep);
      if keep(s[0]) {
        var r := Filter(s, keep);
        assert r == [s[0]] + rest;
        forall j | 0 < j < |r|
          ensures LexLe(r[0], r[j])
        {
          assert r[j] in rest;
          var m :| 0 <= m < |s[1..]| && s[1..][m] == r[j];
          assert s[m + 1] == r[j];
        }
      }
    }
  }

  /** Elements of equal rank appear in name order. */
  predicate TiesInNameOrder(s: seq<string>, rank: string -> Rank)
  {
    forall i, j :: 0 <= i < j < |s| && rank(s[i]) == rank(s[j]) ==> LexLe(s[i], s[j])
  }

  /** Name order among ties survives putting an element in front that comes
      by name before every element of its rank. */
  lemma TiesCons(y: string, u: seq<string>, rank: string -> Rank)
    requires TiesInNameOrder(u, rank)
    requires forall e :: e in u && rank(e) == rank(y) ==> LexLe(y, e)
    ensures TiesInNameOrder([y] + u, rank)
  {
    var r := [y] + u;
    forall i, j | 0 <= i < j < |r| && rank(r[i]) == rank(r[j])
      ensures LexLe(r[i], r[j])
    {
      assert r[j] == u[j - 1];
      if i > 0 {
        assert r[i] == u[i - 1];
      }
    }
  }

  lemma {:induction false} InsertKeepsTies(x: string, t: seq<string>, rank: string -> Rank)
    requires TiesInNameOrder(t, rank)
    requires forall e :: e in t ==> LexLe(x, e)
    ensures TiesInNameOrder(Insert(x, t, rank), rank)
  {
    if |t| == 0 {
      assert Insert(x, t, rank) == [x];
    } else if RankLe(rank(x), rank(t[0])) {
      TiesCons(x, t, rank);
    } else {
      var u := Insert(x, t[1..], rank);
      assert TiesInNameOrder(u, rank) by {
        assert TiesInNameOrder(t[1..], rank);
        InsertKeepsTies(x, t[1..], rank);
      }
      RankLeReflexive(rank(x));
      forall e | e in u && rank(e) == rank(t[0])
        ensures LexLe(t[0], e)
      {
        InsertMember(x, t[1..], rank, e);
        if e != x {
          var m := TailIndex(t, e);
        }
      }
      TiesCons(t[0], u, rank);
    }
  }

  /** Sorting a list that is in name order leaves elements of equal rank in
      name order (a consequence of stability). */
  lemma {:induction false} SortKeepsTies(s: seq<string>, rank: string -> Rank)
    requires InNameOrder(s)
    ensures TiesInNameOrder(SortBy(s, rank), rank)
  {
    if |s| > 0 {
      var t := SortBy(s[1..], rank);
      SortKeepsTies(s[1..], rank);
      forall e | e in t
        ensures LexLe(s[0], e)
      {
        assert e in multiset(s[1..]);
        var m :| 0 <= m < |s[1..]| && s[1..][m] == e;
        assert s[m + 1] == e;
      }
      InsertKeepsTies(s[0], t, rank);
    }
  }
}
