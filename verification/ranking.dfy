/**
 Ordering of the found matches by severity, critical first. The comparator
 subtracts the ranks of the two severities, an unknown severity ranking like
 `low`; `Array.prototype.sort` is stable, so results of equal rank keep the
 dictionary order in which they were found.
 */
module Ranking {
  import opened Entries

  /** `severityOrder[severity] || 0`. */
  function Rank(severity: string): (r: nat)
    ensures r <= 3
  {
    if severity == "critical" then 3
    else if severity == "high" then 2
    else if severity == "medium" then 1
    else 0
  }

  function Key(x: AnalysisResult): nat {
    Rank(x.severity)
  }

  /** Ranks never increase from left to right. */
  predicate SortedByRank(xs: seq<AnalysisResult>) {
    forall i, j :: 0 <= i < j < |xs| ==> Key(xs[i]) >= Key(xs[j])
  }

  /** The results of rank `v`, in their order in `xs`. */
  function WithRank(xs: seq<AnalysisResult>, v: nat): (r: seq<AnalysisResult>)
    ensures |r| <= |xs|
  {
    if |xs| == 0 then []
    else if Key(xs[0]) == v then [xs[0]] + WithRank(xs[1..], v)
    else WithRank(xs[1..], v)
  }

  lemma SortedTail(xs: seq<AnalysisResult>)
    requires SortedByRank(xs) && |xs| > 0
    ensures SortedByRank(xs[1..])
  {
    forall i, j | 0 <= i < j < |xs[1..]|
      ensures Key(xs[1..][i]) >= Key(xs[1..][j])
    {
      assert Key(xs[i + 1]) >= Key(xs[j + 1]);
    }
  }

  lemma {:induction false} WithRankMembers(xs: seq<AnalysisResult>, v: nat, y: AnalysisResult)
    ensures y in WithRank(xs, v) <==> y in xs && Key(y) == v
    decreases |xs|
  {
    if |xs| > 0 {
      WithRankMembers(xs[1..], v, y);
      assert xs == [xs[0]] + xs[1..];
    }
  }

  /** Every result has one of the four ranks, so the four rank classes make up the whole list. */
  lemma {:induction false} RankClassesCover(xs: seq<AnalysisResult>)
    ensures |xs| == |WithRank(xs, 0)| + |WithRank(xs, 1)| + |WithRank(xs, 2)| + |WithRank(xs, 3)|
    decreases |xs|
  {
    if |xs| > 0 {
      RankClassesCover(xs[1..]);
    }
  }

  /** Place `x` in front of the first result whose rank it reaches. */
  function Insert(x: AnalysisResult, xs: seq<AnalysisResult>): (r: seq<AnalysisResult>)
    ensures |r| == |xs| + 1
  {
    if |xs| == 0 || Key(x) >= Key(xs[0]) then [x] + xs
    else [xs[0]] + Insert(x, xs[1..])
  }

  lemma {:induction false} InsertMembers(x: AnalysisResult, xs: seq<AnalysisResult>, y: AnalysisResult)
    ensures y in Insert(x, xs) <==> y == x || y in xs
    decreases |xs|
  {
    if |xs| > 0 && Key(x) < Key(xs[0]) {
      InsertMembers(x, xs[1..], y);
      assert xs == [xs[0]] + xs[1..];
    }
  }

  /** Inserting adds `x` to the results of its own rank, in front of them. */
  lemma {:induction false} InsertWithRank(x: AnalysisResult, xs: seq<AnalysisResult>, v: nat)
    ensures WithRank(Insert(x, xs), v) == (if Key(x) == v then [x] else []) + WithRank(xs, v)
    decreases |xs|
  {
    var r := Insert(x, xs);
    if |xs| == 0 || Key(x) >= Key(xs[0]) {
      assert r[1..] == xs;
    } else {
      InsertWithRank(x, xs[1..], v);
      assert r[1..] == Insert(x, xs[1..]);
      assert r[0] == xs[0];
    }
  }

  lemma {:induction false} InsertPermutes(x: AnalysisResult, xs: seq<AnalysisResult>)
    ensures multiset(Insert(x, xs)) == multiset(xs) + multiset{x}
    decreases |xs|
  {
    if |xs| > 0 && Key(x) < Key(xs[0]) {
      InsertPermutes(x, xs[1..]);
      assert xs == [xs[0]] + xs[1..];
    }
  }

  lemma {:induction false} InsertSorted(x: AnalysisResult, xs: seq<AnalysisResult>)
    requires SortedByRank(xs)
    ensures SortedByRank(Insert(x, xs))
    decreases |xs|
  {
    var r := Insert(x, xs);
    if |xs| > 0 && Key(x) < Key(xs[0]) {
      var tail := Insert(x, xs[1..]);
      SortedTail(xs);
      InsertSorted(x, xs[1..]);
      assert r == [xs[0]] + tail;
      forall i, j | 0 <= i < j < |r|
        ensures Key(r[i]) >= Key(r[j])
      {
        if i == 0 {
          InsertMembers(x, xs[1..], r[j]);
          assert r[j] == tail[j - 1];
          if r[j] != x {
            var m :| 0 <= m < |xs[1..]| && xs[1..][m] == r[j];
            assert Key(xs[0]) >= Key(xs[m + 1]);
          }
        } else {
          assert r[i] == tail[i - 1] && r[j] == tail[j - 1];
        }
      }
    } else if |xs| > 0 {
      forall i, j | 0 <= i < j < |r|
        ensures Key(r[i]) >= Key(r[j])
      {
        if i == 0 {
          assert Key(xs[0]) >= Key(xs[j - 1]);
        } else {
          assert r[i] == xs[i - 1] && r[j] == xs[j - 1];
        }
      }
    }
  }

  /**
   The order the stable sort with the severity comparator produces: each
   result is inserted into the sorted rest, ahead of results of equal rank
   that come after it in the input.
   */
  function SortByRank(xs: seq<AnalysisResult>): (r: seq<AnalysisResult>)
    ensures |r| == |xs|
  {
    if |xs| == 0 then [] else Insert(xs[0], SortByRank(xs[1..]))
  }

  /** Critical results come first, then high, medium, and low or unknown. */
  lemma {:induction false} SortByRankSorted(xs: seq<AnalysisResult>)
    ensures SortedByRank(SortByRank(xs))
    decreases |xs|
  {
    if |xs| > 0 {
      SortByRankSorted(xs[1..]);
      InsertSorted(xs[0], SortByRank(xs[1..]));
    }
  }

  /** Stability: the results of each rank keep their input order. */
  lemma {:induction false} SortByRankWithRank(xs: seq<AnalysisResult>, v: nat)
    ensures WithRank(SortByRank(xs), v) == WithRank(xs, v)
    decreases |xs|
  {
    if |xs| > 0 {
      SortByRankWithRank(xs[1..], v);
      InsertWithRank(xs[0], SortByRank(xs[1..]), v);
    }
  }

  /** The sort only rearranges: nothing is dropped or duplicated. */
  lemma {:induction false} SortByRankPermutes(xs: seq<AnalysisResult>)
    ensures multiset(SortByRank(xs)) == multiset(xs)
    decreases |xs|
  {
    if |xs| > 0 {
      SortByRankPermutes(xs[1..]);
      InsertPermutes(xs[0], SortByRank(xs[1..]));
      assert xs == [xs[0]] + xs[1..];
    }
  }

  lemma FirstIsHighest(xs: seq<AnalysisResult>, y: AnalysisResult)
    requires SortedByRank(xs) && y in xs
    ensures Key(xs[0]) >= Key(y)
  {
    var j :| 0 <= j < |xs| && xs[j] == y;
    if j > 0 {
      assert Key(xs[0]) >= Key(xs[j]);
    }
  }

  /**
   Two rank-sorted lists that list the results of each rank in the same order
   are equal: sortedness and per-rank order determine the result completely.
   */
  lemma {:induction false} SortedUnique(a: seq<AnalysisResult>, b: seq<AnalysisResult>)
    requires SortedByRank(a) && SortedByRank(b)
    requires forall v :: WithRank(a, v) == WithRank(b, v)
    ensures a == b
    decreases |a|
  {
    RankClassesCover(a);
    RankClassesCover(b);
    assert |a| == |b|;
    if |a| > 0 {
      assert WithRank(a, Key(a[0]))[0] == a[0];
      WithRankMembers(b, Key(a[0]), a[0]);
      FirstIsHighest(b, a[0]);
      WithRankMembers(a, Key(b[0]), b[0]);
      FirstIsHighest(a, b[0]);
      var k := Key(a[0]);
      assert Key(b[0]) == k;
      assert WithRank(b, k)[0] == b[0];
      assert a[0] == b[0];
      forall v
        ensures WithRank(a[1..], v) == WithRank(b[1..], v)
      {
        assert WithRank(a, v) == WithRank(b, v);
        if v == k {
          assert WithRank(a[1..], v) == WithRank(a, v)[1..];
          assert WithRank(b[1..], v) == WithRank(b, v)[1..];
        } else {
          assert WithRank(a, v) == WithRank(a[1..], v);
          assert WithRank(b, v) == WithRank(b[1..], v);
        }
      }
      SortedTail(a);
      SortedTail(b);
      SortedUnique(a[1..], b[1..]);
      assert a == [a[0]] + a[1..] && b == [b[0]] + b[1..];
    }
  }

  /** `ys` is rank-sorted and keeps the results of each rank in the order of `xs`. */
  ghost predicate IsStableSortOf(ys: seq<AnalysisResult>, xs: seq<AnalysisResult>) {
    SortedByRank(ys) && forall v :: WithRank(ys, v) == WithRank(xs, v)
  }

  /**
   The stable severity sort is the only rank-sorted rearrangement of its input
   that keeps results of equal rank in input order.
   */
  lemma SortByRankIsTheStableSort(xs: seq<AnalysisResult>, ys: seq<AnalysisResult>)
    ensures IsStableSortOf(ys, xs) <==> ys == SortByRank(xs)
  {
    forall v
      ensures WithRank(SortByRank(xs), v) == WithRank(xs, v)
    {
      SortByRankWithRank(xs, v);
    }
    SortByRankSorted(xs);
    if IsStableSortOf(ys, xs) {
      SortedUnique(ys, SortByRank(xs));
    }
  }

  /** The `severityOrder` table. */
  lemma SeverityRanks()
    ensures Rank("critical") == 3 && Rank("high") == 2 && Rank("medium") == 1 && Rank("low") == 0
  {
    assert "high" != "critical";
    assert "medium" != "critical" && "medium" != "high";
    assert "low" != "critical" && "low" != "high" && "low" != "medium";
  }

  /** A severity outside the table ranks as `low` does. */
  lemma UnknownSeverityRanksLow(severity: string)
    requires severity !in ["critical", "high", "medium", "low"]
    ensures Rank(severity) == Rank("low") == 0
  {
    SeverityRanks();
  }

  lemma SortCons(x: AnalysisResult, xs: seq<AnalysisResult>)
    ensures SortByRank([x] + xs) == Insert(x, SortByRank(xs))
  {
    assert ([x] + xs)[1..] == xs;
  }

  lemma InsertBehind(x: AnalysisResult, y: AnalysisResult, ys: seq<AnalysisResult>)
    requires Key(x) < Key(y)
    ensures Insert(x, [y] + ys) == [y] + Insert(x, ys)
  {
    assert ([y] + ys)[1..] == ys;
  }

  lemma SortTailExample(l: AnalysisResult, h1: AnalysisResult, h2: AnalysisResult)
    requires Key(l) == 0 && Key(h1) == 2 && Key(h2) == 2
    ensures SortByRank([l, h1, h2]) == [h1, h2, l]
  {
    SortCons(h2, []);
    assert SortByRank([h2]) == [h2] by { assert [h2] + [] == [h2]; }
    SortCons(h1, [h2]);
    assert SortByRank([h1, h2]) == [h1, h2] by { assert [h1] + [h2] == [h1, h2]; }
    SortCons(l, [h1, h2]);
    InsertBehind(l, h1, [h2]);
    InsertBehind(l, h2, []);
    assert [l] + [h1, h2] == [l, h1, h2];
  }

  /**
   Results found as medium, critical, low, high, high are listed critical,
   high, high, medium, low: the two high results keep the order they were
   found in.
   */
  lemma SeverityOrderExample(m: AnalysisResult, c: AnalysisResult, l: AnalysisResult, h1: AnalysisResult, h2: AnalysisResult)
    requires m.severity == "medium" && c.severity == "critical" && l.severity == "low"
    requires h1.severity == "high" && h2.severity == "high"
    ensures SortByRank([m, c, l, h1, h2]) == [c, h1, h2, m, l]
  {
    SeverityRanks();
    SortTailExample(l, h1, h2);
    SortCons(c, [l, h1, h2]);
    assert SortByRank([c, l, h1, h2]) == [c, h1, h2, l] by { assert [c] + [l, h1, h2] == [c, l, h1, h2]; }
    SortCons(m, [c, l, h1, h2]);
    InsertBehind(m, c, [h1, h2, l]);
    InsertBehind(m, h1, [h2, l]);
    InsertBehind(m, h2, [l]);
    assert [m] + [c, l, h1, h2] == [m, c, l, h1, h2];
  }
}
