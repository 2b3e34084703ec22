// The final step of the traditional search (src/application/use_cases/search.rs):
// a stable sort of the results by score, highest first. `sort_by` sorts the
// vector in place; here the sort is an insertion sort over a sequence, and
// `SortedOrderUnique` shows that every stable descending sort yields the
// same sequence.
module ScoreSort {
  import opened SearchDto

  predicate SortedByScore(s: seq<SearchResult>) {
    forall i, j :: 0 <= i < j < |s| ==> s[i].score >= s[j].score
  }

  /** `x` placed after every element scoring at least as high. */
  function InsertByScore(s: seq<SearchResult>, x: SearchResult): (r: seq<SearchResult>)
    ensures |r| == |s| + 1
  {
    if s == [] then [x]
    else if s[0].score < x.score then [x] + s
    else [s[0]] + InsertByScore(s[1..], x)
  }

  /** The results sorted by score, highest first, ties kept in input order. */
  function SortByScore(s: seq<SearchResult>): (r: seq<SearchResult>)
    ensures |r| == |s|
  {
    if s == [] then [] else InsertByScore(SortByScore(s[..|s| - 1]), s[|s| - 1])
  }

  /** The results scoring `v`, in order. */
  function WithScore(s: seq<SearchResult>, v: nat): seq<SearchResult> {
    if s == [] then []
    else (if s[0].score == v then [s[0]] else []) + WithScore(s[1..], v)
  }

  lemma {:induction false} WithScoreAppend(a: seq<SearchResult>, b: seq<SearchResult>, v: nat)
    ensures WithScore(a + b, v) == WithScore(a, v) + WithScore(b, v)
  {
    if a == [] {
      assert a + b == b;
    } else {
      var rest := a[1..] + b;
      WithScoreAppend(a[1..], b, v);
      assert a + b == [a[0]] + rest;
      WithScoreCons(a[0], rest, v);
      WithScoreCons(a[0], a[1..], v);
      assert [a[0]] + a[1..] == a;
    }
  }

  lemma WithScoreCons(x: SearchResult, s: seq<SearchResult>, v: nat)
    ensures WithScore([x] + s, v) == (if x.score == v then [x] else []) + WithScore(s, v)
  {
    assert ([x] + s)[1..] == s;
  }

  /** A sorted sequence whose first score is below `v` has nothing scoring `v`. */
  lemma {:induction false} NoneAbove(s: seq<SearchResult>, v: nat)
    requires SortedByScore(s) && s != [] && s[0].score < v
    ensures WithScore(s, v) == []
  {
    if |s| > 1 {
      NoneAbove(s[1..], v);
    }
  }

  lemma {:induction false} InsertMembers(s: seq<SearchResult>, x: SearchResult)
    ensures multiset(InsertByScore(s, x)) == multiset(s) + multiset{x}
    ensures forall y :: y in InsertByScore(s, x) <==> y in s || y == x
  {
    if s != [] && s[0].score >= x.score {
      InsertMembers(s[1..], x);
      assert s == [s[0]] + s[1..];
    }
  }

  lemma {:induction false} InsertKeepsSorted(s: seq<SearchResult>, x: SearchResult)
    requires SortedByScore(s)
    ensures SortedByScore(InsertByScore(s, x))
  {
    if s != [] && s[0].score >= x.score {
      var t := InsertByScore(s[1..], x);
      InsertKeepsSorted(s[1..], x);
      InsertMembers(s[1..], x);
      var r := [s[0]] + t;
      forall i, j | 0 <= i < j < |r|
        ensures r[i].score >= r[j].score
      {
        if i == 0 {
          assert r[j] == t[j - 1] && t[j - 1] in t;
        } else {
          assert r[i] == t[i - 1] && r[j] == t[j - 1];
        }
      }
    }
  }

  /** Inserting `x` appends it to the results of its own score and leaves
      the others as they were. */
  lemma {:induction false} InsertKeepsTies(s: seq<SearchResult>, x: SearchResult, v: nat)
    requires SortedByScore(s)
    ensures WithScore(InsertByScore(s, x), v) == WithScore(s, v) + (if x.score == v then [x] else [])
  {
    if s == [] {
    } else if s[0].score < x.score {
      if x.score == v {
        NoneAbove(s, v);
      }
      assert ([x] + s)[1..] == s;
    } else {
      InsertKeepsTies(s[1..], x, v);
      assert ([s[0]] + InsertByScore(s[1..], x))[1..] == InsertByScore(s[1..], x);
    }
  }

  /** The sorted results: highest score first, the same results, and among
      equal scores the input order (the sort is stable). */
  lemma {:induction false} SortByScoreSpec(s: seq<SearchResult>)
    ensures SortedByScore(SortByScore(s))
    ensures multiset(SortByScore(s)) == multiset(s)
    ensures forall v :: WithScore(SortByScore(s), v) == WithScore(s, v)
  {
    if s != [] {
      var init, x := s[..|s| - 1], s[|s| - 1];
      SortByScoreSpec(init);
      InsertKeepsSorted(SortByScore(init), x);
      InsertMembers(SortByScore(init), x);
      assert s == init + [x];
      forall v
        ensures WithScore(SortByScore(s), v) == WithScore(s, v)
      {
        InsertKeepsTies(SortByScore(init), x, v);
        WithScoreAppend(init, [x], v);
      }
    }
  }

  lemma {:induction false} WithScoreHas(s: seq<SearchResult>, i: nat)
    requires i < |s|
    ensures WithScore(s, s[i].score) != []
  {
    if i > 0 {
      WithScoreHas(s[1..], i - 1);
    }
  }

  lemma {:induction false} WithScoreOfHead(s: seq<SearchResult>)
    requires SortedByScore(s) && s != []
    ensures WithScore(s, s[0].score) != [] && WithScore(s, s[0].score)[0] == s[0]
    ensures forall v :: v != s[0].score ==> WithScore(s[1..], v) == WithScore(s, v)
    ensures WithScore(s[1..], s[0].score) == WithScore(s, s[0].score)[1..]
  {
  }

  /** Two sorted sequences with the same results at every score, in the
      same order, are equal. */
  lemma {:induction false} SortedTiesDetermine(s: seq<SearchResult>, t: seq<SearchResult>)
    requires SortedByScore(s) && SortedByScore(t)
    requires forall v :: WithScore(s, v) == WithScore(t, v)
    ensures s == t
    decreases |s|
  {
    if s == [] {
      if t != [] {
        WithScoreHas(t, 0);
      }
    } else if t == [] {
      WithScoreHas(s, 0);
    } else {
      WithScoreHas(s, 0);
      WithScoreHas(t, 0);
      SortedHeadIsTop(s, t);
      SortedHeadIsTop(t, s);
      WithScoreOfHead(s);
      WithScoreOfHead(t);
      assert s[0].score == t[0].score;
      assert s[0] == t[0] by {
        assert WithScore(s, s[0].score) == WithScore(t, s[0].score);
      }
      forall v
        ensures WithScore(s[1..], v) == WithScore(t[1..], v)
      {
        assert WithScore(s, v) == WithScore(t, v);
      }
      SortedTiesDetermine(s[1..], t[1..]);
      assert s == [s[0]] + s[1..] && t == [t[0]] + t[1..];
    }
  }

  /** The head of a sorted sequence scores at least every score present in
      a sequence with the same results per score. */
  lemma SortedHeadIsTop(s: seq<SearchResult>, t: seq<SearchResult>)
    requires SortedByScore(s) && s != [] && t != []
    requires forall v :: WithScore(s, v) == WithScore(t, v)
    ensures t[0].score <= s[0].score
  {
    WithScoreHas(t, 0);
    var v := t[0].score;
    if v > s[0].score {
      NoneAbove(s, v);
    }
  }

  /** Any stable descending sort of the results gives `SortByScore`. */
  lemma SortedOrderUnique(s: seq<SearchResult>, t: seq<SearchResult>)
    requires SortedByScore(t)
    requires forall v :: WithScore(t, v) == WithScore(s, v)
    ensures t == SortByScore(s)
  {
    SortByScoreSpec(s);
    SortedTiesDetermine(t, SortByScore(s));
  }

  /** One insertion: the position after the results scoring at least as
      high as `x`. */
  method InsertResult(s: seq<SearchResult>, x: SearchResult) returns (r: seq<SearchResult>)
    ensures r == InsertByScore(s, x)
  {
    var j := 0;
    while j < |s| && s[j].score >= x.score
      invariant j <= |s|
      invariant InsertByScore(s, x) == s[..j] + InsertByScore(s[j..], x)
    {
      InsertStep(s, x, j);
      j := j + 1;
    }
    r := s[..j] + [x] + s[j..];
  }

  lemma InsertStep(s: seq<SearchResult>, x: SearchResult, j: nat)
    requires j < |s| && s[j].score >= x.score
    ensures s[..j] + InsertByScore(s[j..], x) == s[..j + 1] + InsertByScore(s[j + 1..], x)
  {
    var rest := s[j..];
    assert rest != [] && rest[0] == s[j] && rest[1..] == s[j + 1..];
    assert InsertByScore(rest, x) == [s[j]] + InsertByScore(s[j + 1..], x);
    assert s[..j + 1] == s[..j] + [s[j]];
  }

  /** `results.sort_by(|a, b| b.score.partial_cmp(&a.score))`. */
  method SortResults(s: seq<SearchResult>) returns (r: seq<SearchResult>)
    ensures r == SortByScore(s)
  {
    r := [];
    for i := 0 to |s|
      invariant r == SortByScore(s[..i])
    {
      assert s[..i + 1][..i] == s[..i];
      r := InsertResult(r, s[i]);
    }
    assert s[..|s|] == s;
  }
}
