/** Ranking of scored texts, shared by the vector-store search and the PDF chat retrieval.

    Both retrieval steps build a list of `{"text": ..., "score": ...}` dictionaries and call
    `list.sort(key=lambda x: x["score"], reverse=True)` on it, then read element 0. Python's sort
    is stable, also with `reverse=True`: entries with equal scores keep their original order.
    This module gives one definition of that sort (SortByScore), proves that it is sorted,
    a permutation and stable, that every stable descending sort gives the same list
    (StableSortUnique), and that its first element is the earliest maximum (SortedHeadIsFirstBest). */
module Ranking {

  /** One `{"text": t, "score": s}` entry. */
  datatype ScoredText = ScoredText(text: string, score: real)

  /** The outcome of reading element 0 of a list: the element, or Python's IndexError. */
  datatype Lookup<T> = Ok(value: T) | IndexError

  /** Scores are non-increasing from left to right. */
  predicate SortedByScore(s: seq<ScoredText>) {
    forall i, j :: 0 <= i < j < |s| ==> s[i].score >= s[j].score
  }

  /** The entries of `s` whose score is `v`, in their order in `s`. A sort is stable exactly
      when it leaves every such subsequence as it was. */
  function WithScore(s: seq<ScoredText>, v: real): seq<ScoredText> {
    if s == [] then []
    else (if s[0].score == v then [s[0]] else []) + WithScore(s[1..], v)
  }

  /** Places `x`, which comes before every entry of `t` in the original list, in front of the
      first entry of `t` whose score does not exceed its own. */
  function Insert(x: ScoredText, t: seq<ScoredText>): (r: seq<ScoredText>)
    ensures |r| == |t| + 1
    ensures r[0] == x || (t != [] && r[0] == t[0])
    ensures multiset(r) == multiset{x} + multiset(t)
  {
    if t == [] || t[0].score <= x.score then [x] + t
    else
      assert t == [t[0]] + t[1..];
      [t[0]] + Insert(x, t[1..])
  }

  /** Inserting into a sorted list keeps it sorted. */
  lemma {:induction false} InsertSorted(x: ScoredText, t: seq<ScoredText>)
    requires SortedByScore(t)
    ensures SortedByScore(Insert(x, t))
  {
    if t != [] && t[0].score > x.score {
      var rest := Insert(x, t[1..]);
      InsertSorted(x, t[1..]);
      assert rest[0].score <= t[0].score;
      assert Insert(x, t) == [t[0]] + rest;
    }
  }

  /** `list.sort(key=score, reverse=True)`: a stable sort by descending score. */
  function SortByScore(s: seq<ScoredText>): (r: seq<ScoredText>)
    ensures |r| == |s|
    ensures SortedByScore(r)
    ensures multiset(r) == multiset(s)
  {
    if s == [] then []
    else
      var rest := SortByScore(s[1..]);
      InsertSorted(s[0], rest);
      assert s == [s[0]] + s[1..];
      Insert(s[0], rest)
  }

  /** Index of the first entry with the largest score: a reference definition of the winner. */
  function FirstBest(s: seq<ScoredText>): (k: nat)
    requires s != []
    ensures k < |s|
    ensures forall j :: 0 <= j < |s| ==> s[j].score <= s[k].score
    ensures forall j :: 0 <= j < k ==> s[j].score < s[k].score
  {
    if |s| == 1 then 0
    else
      var k' := FirstBest(s[1..]);
      if s[0].score >= s[k' + 1].score then 0 else k' + 1
  }

  lemma {:induction false} WithScoreAppend(a: seq<ScoredText>, b: seq<ScoredText>, v: real)
    ensures WithScore(a + b, v) == WithScore(a, v) + WithScore(b, v)
  {
    if a == [] {
      assert a + b == b;
    } else {
      var head := if a[0].score == v then [a[0]] else [];
      assert (a + b)[0] == a[0];
      assert (a + b)[1..] == a[1..] + b;
      assert WithScore(a + b, v) == head + WithScore(a[1..] + b, v);
      WithScoreAppend(a[1..], b, v);
      assert WithScore(a, v) == head + WithScore(a[1..], v);
      assert head + (WithScore(a[1..], v) + WithScore(b, v)) == (head + WithScore(a[1..], v)) + WithScore(b, v);
    }
  }

  /** The subsequence with score `v` holds exactly the entries of `s` that have score `v`. */
  lemma {:induction false} WithScoreMembers(s: seq<ScoredText>, v: real, x: ScoredText)
    ensures x in WithScore(s, v) <==> x in s && x.score == v
  {
    if s != [] {
      WithScoreMembers(s[1..], v, x);
      assert s == [s[0]] + s[1..];
    }
  }

  /** If `s[k]` is the first entry with score `v`, it heads the subsequence with score `v`. */
  lemma {:induction false} WithScoreFirst(s: seq<ScoredText>, v: real, k: nat)
    requires k < |s| && s[k].score == v
    requires forall j :: 0 <= j < k ==> s[j].score != v
    ensures WithScore(s, v) != [] && WithScore(s, v)[0] == s[k]
  {
    if k > 0 {
      WithScoreFirst(s[1..], v, k - 1);
    }
  }

  /** Inserting keeps every equal-score subsequence in original order. */
  lemma {:induction false} InsertStable(x: ScoredText, t: seq<ScoredText>, v: real)
    ensures WithScore(Insert(x, t), v) == WithScore([x] + t, v)
  {
    if t == [] || t[0].score <= x.score {
    } else {
      calc {
        WithScore(Insert(x, t), v);
        WithScore([t[0]] + Insert(x, t[1..]), v);
        { WithScoreAppend([t[0]], Insert(x, t[1..]), v); }
        WithScore([t[0]], v) + WithScore(Insert(x, t[1..]), v);
        { InsertStable(x, t[1..], v); }
        WithScore([t[0]], v) + WithScore([x] + t[1..], v);
        { WithScoreAppend([x], t[1..], v); }
        WithScore([t[0]], v) + (WithScore([x], v) + WithScore(t[1..], v));
        // x and t[0] have different scores, so at most one of them has score v
        WithScore([x], v) + (WithScore([t[0]], v) + WithScore(t[1..], v));
        { WithScoreAppend([t[0]], t[1..], v); assert [t[0]] + t[1..] == t; }
        WithScore([x], v) + WithScore(t, v);
        { WithScoreAppend([x], t, v); }
        WithScore([x] + t, v);
      }
    }
  }

  /** Stability: the sort keeps the original order among entries of equal score. */
  lemma {:induction false} SortByScoreStable(s: seq<ScoredText>, v: real)
    ensures WithScore(SortByScore(s), v) == WithScore(s, v)
  {
    if s != [] {
      calc {
        WithScore(SortByScore(s), v);
        WithScore(Insert(s[0], SortByScore(s[1..])), v);
        { InsertStable(s[0], SortByScore(s[1..]), v); }
        WithScore([s[0]] + SortByScore(s[1..]), v);
        { WithScoreAppend([s[0]], SortByScore(s[1..]), v); }
        WithScore([s[0]], v) + WithScore(SortByScore(s[1..]), v);
        { SortByScoreStable(s[1..], v); }
        WithScore([s[0]], v) + WithScore(s[1..], v);
        { WithScoreAppend([s[0]], s[1..], v); assert [s[0]] + s[1..] == s; }
        WithScore(s, v);
      }
    }
  }

  /** Two sorted lists with the same entries of each score start with the same entry. */
  lemma SameHead(a: seq<ScoredText>, b: seq<ScoredText>)
    requires SortedByScore(a) && SortedByScore(b) && a != [] && b != []
    requires WithScore(a, a[0].score) == WithScore(b, a[0].score)
    requires WithScore(a, b[0].score) == WithScore(b, b[0].score)
    ensures a[0] == b[0]
  {
    // a[0] occurs in b, so b[0].score >= a[0].score, and symmetrically
    WithScoreMembers(a, a[0].score, a[0]);
    WithScoreMembers(b, a[0].score, a[0]);
    WithScoreMembers(b, b[0].score, b[0]);
    WithScoreMembers(a, b[0].score, b[0]);
    var v := a[0].score;
    assert b[0].score == v;
    WithScoreFirst(a, v, 0);
    WithScoreFirst(b, v, 0);
  }

  /** Removing the same head from two lists keeps their equal-score subsequences equal. */
  lemma SameTailScores(a: seq<ScoredText>, b: seq<ScoredText>, u: real)
    requires a != [] && b != [] && a[0] == b[0]
    requires WithScore(a, u) == WithScore(b, u)
    ensures WithScore(a[1..], u) == WithScore(b[1..], u)
  {
    var p := if a[0].score == u then [a[0]] else [];
    assert WithScore(a, u) == p + WithScore(a[1..], u);
    assert WithScore(b, u) == p + WithScore(b[1..], u);
    assert WithScore(a[1..], u) == (p + WithScore(a[1..], u))[|p|..];
    assert WithScore(b[1..], u) == (p + WithScore(b[1..], u))[|p|..];
  }

  /** A list sharing every equal-score subsequence with a non-empty list is non-empty. */
  lemma NonEmptyAlike(a: seq<ScoredText>, b: seq<ScoredText>)
    requires a != []
    requires WithScore(a, a[0].score) == WithScore(b, a[0].score)
    ensures b != []
  {
    WithScoreMembers(a, a[0].score, a[0]);
    WithScoreMembers(b, a[0].score, a[0]);
  }

  lemma SortedTail(a: seq<ScoredText>)
    requires SortedByScore(a) && a != []
    ensures SortedByScore(a[1..])
  {
  }

  /** A sorted list and a stably sorted list agree: two lists sorted by descending score with
      the same entries of each score, in the same order, are equal. */
  lemma {:induction false} StableSortUnique(a: seq<ScoredText>, b: seq<ScoredText>)
    requires SortedByScore(a) && SortedByScore(b)
    requires forall v :: WithScore(a, v) == WithScore(b, v)
    ensures a == b
  {
    if a != [] {
      NonEmptyAlike(a, b);
    }
    if b != [] {
      NonEmptyAlike(b, a);
    }
    if a != [] && b != [] {
      SameHead(a, b);
      forall u
        ensures WithScore(a[1..], u) == WithScore(b[1..], u)
      {
        SameTailScores(a, b, u);
      }
      SortedTail(a);
      SortedTail(b);
      StableSortUnique(a[1..], b[1..]);
      assert a == [a[0]] + a[1..] && b == [b[0]] + b[1..];
    }
  }

  /** Whatever stable algorithm sorts the list (CPython uses Timsort), its result is SortByScore. */
  lemma SortByScoreIsTheStableSort(s: seq<ScoredText>, r: seq<ScoredText>)
    requires SortedByScore(r)
    requires forall v :: WithScore(r, v) == WithScore(s, v)
    ensures r == SortByScore(s)
  {
    forall v
      ensures WithScore(r, v) == WithScore(SortByScore(s), v)
    {
      SortByScoreStable(s, v);
    }
    StableSortUnique(r, SortByScore(s));
  }

  /** Element 0 of the sorted list is the earliest entry with the largest score. */
  lemma SortedHeadIsFirstBest(s: seq<ScoredText>)
    requires s != []
    ensures SortByScore(s)[0] == s[FirstBest(s)]
  {
    var r := SortByScore(s);
    var k := FirstBest(s);
    var v := s[k].score;
    assert r[0] in multiset(s);
    assert s[k] in multiset(r);
    assert r[0].score == v;
    WithScoreFirst(r, v, 0);
    WithScoreFirst(s, v, k);
    SortByScoreStable(s, v);
  }
}
