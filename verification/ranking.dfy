/**
 * The ranking step of `group_by_categories`: `posts.sort(key=score,
 * reverse=True)`, which is stable (equal scores keep their order), followed
 * by truncation to the category's limit.
 */
module Ranking {
  import opened Wrappers
  import opened Posts

  /** Scores never increase along the list. */
  predicate SortedDesc(s: seq<Post>) {
    forall i, j :: 0 <= i < j < |s| ==> s[i].score >= s[j].score
  }

  /** The entries with score `v`, in their order in `s`. */
  function WithScore(s: seq<Post>, v: int): seq<Post>
    decreases |s|
  {
    if s == [] then []
    else (if s[0].score == v then [s[0]] else []) + WithScore(s[1..], v)
  }

  lemma {:induction false} WithScoreAppend(a: seq<Post>, b: seq<Post>, v: int)
    ensures WithScore(a + b, v) == WithScore(a, v) + WithScore(b, v)
    decreases |a|
  {
    if a == [] {
      assert a + b == b;
    } else {
      var head := if a[0].score == v then [a[0]] else [];
      assert (a + b)[0] == a[0];
      assert (a + b)[1..] == a[1..] + b;
      WithScoreAppend(a[1..], b, v);
      calc {
        WithScore(a + b, v);
        head + WithScore(a[1..] + b, v);
        head + (WithScore(a[1..], v) + WithScore(b, v));
        (head + WithScore(a[1..], v)) + WithScore(b, v);
        WithScore(a, v) + WithScore(b, v);
      }
    }
  }

  lemma WithScoreSingle(x: Post, v: int)
    ensures WithScore([x], v) == if x.score == v then [x] else []
  {
    assert [x][1..] == [];
  }

  /** Inserts `x` after every entry scoring at least as much as it. */
  function InsertDesc(x: Post, s: seq<Post>): (r: seq<Post>)
    ensures multiset(r) == multiset(s) + multiset{x}
    decreases |s|
  {
    if s == [] then [x]
    else if s[0].score >= x.score then
      assert s == [s[0]] + s[1..];
      [s[0]] + InsertDesc(x, s[1..])
    else
      [x] + s
  }

  /** Where `InsertDesc` places `x`: the first position whose entry scores
      below it, or the end when there is none. */
  function InsertIndex(x: Post, s: seq<Post>): (i: nat)
    ensures i <= |s|
    ensures forall k :: 0 <= k < i ==> s[k].score >= x.score
    ensures i < |s| ==> s[i].score < x.score
    decreases |s|
  {
    if s == [] || s[0].score < x.score then 0
    else 1 + InsertIndex(x, s[1..])
  }

  /** `InsertDesc` puts `x` at `InsertIndex` and leaves the entries before
      and after it in place. */
  lemma {:induction false} InsertDescPlace(x: Post, s: seq<Post>)
    ensures InsertDesc(x, s) == s[..InsertIndex(x, s)] + [x] + s[InsertIndex(x, s)..]
    decreases |s|
  {
    if s != [] && s[0].score >= x.score {
      var tail := s[1..];
      var i := InsertIndex(x, tail);
      assert s == [s[0]] + tail;
      InsertDescPlace(x, tail);
      ConsSplit(s[0], tail, i, x);
    }
  }

  lemma ConsSplit(h: Post, t: seq<Post>, i: nat, x: Post)
    requires i <= |t|
    ensures [h] + (t[..i] + [x] + t[i..]) == ([h] + t)[..i + 1] + [x] + ([h] + t)[i + 1..]
  {
    assert ([h] + t)[..i + 1] == [h] + t[..i];
    assert ([h] + t)[i + 1..] == t[i..];
  }

  /** Inserting below a bound keeps every score below it. */
  lemma {:induction false} InsertDescBound(x: Post, s: seq<Post>, b: int)
    requires x.score <= b
    requires forall k :: 0 <= k < |s| ==> s[k].score <= b
    ensures forall k :: 0 <= k < |InsertDesc(x, s)| ==> InsertDesc(x, s)[k].score <= b
    decreases |s|
  {
    if s != [] && s[0].score >= x.score {
      InsertDescBound(x, s[1..], b);
    }
  }

  /** Inserting into a sorted list keeps it sorted. */
  lemma {:induction false} InsertDescSorted(x: Post, s: seq<Post>)
    requires SortedDesc(s)
    ensures SortedDesc(InsertDesc(x, s))
    decreases |s|
  {
    if s != [] && s[0].score >= x.score {
      var rest := InsertDesc(x, s[1..]);
      InsertDescSorted(x, s[1..]);
      InsertDescBound(x, s[1..], s[0].score);
      var r := [s[0]] + rest;
      assert forall k :: 0 < k < |r| ==> r[k] == rest[k - 1];
    }
  }

  /** The list sorted by descending score, equal scores in their original
      order: an insertion sort that appends each entry after all entries
      already placed with a score at least its own. */
  function SortByScoreDesc(s: seq<Post>): (r: seq<Post>)
    ensures SortedDesc(r)
    ensures multiset(r) == multiset(s)
    decreases |s|
  {
    if s == [] then []
    else
      var n := |s| - 1;
      assert s == s[..n] + [s[n]];
      InsertDescSorted(s[n], SortByScoreDesc(s[..n]));
      InsertDesc(s[n], SortByScoreDesc(s[..n]))
  }

  /** A non-empty list is its front followed by its last entry, and sorting
      it inserts that entry into the sorted front. */
  lemma SortSnoc(s: seq<Post>)
    requires s != []
    ensures s == s[..|s| - 1] + [s[|s| - 1]]
    ensures SortByScoreDesc(s) == InsertDesc(s[|s| - 1], SortByScoreDesc(s[..|s| - 1]))
  {
    SplitLast(s);
  }

  lemma SplitLast(s: seq<Post>)
    requires s != []
    ensures s == s[..|s| - 1] + [s[|s| - 1]]
  {
  }

  /** Inserting `x` into a sorted list puts it after every entry of the
      same score. */
  lemma {:induction false} InsertDescWithScore(x: Post, s: seq<Post>, v: int)
    requires SortedDesc(s)
    ensures WithScore(InsertDesc(x, s), v) == WithScore(s, v) + WithScore([x], v)
    decreases |s|
  {
    WithScoreSingle(x, v);
    if s == [] {
    } else if s[0].score >= x.score {
      InsertDescWithScore(x, s[1..], v);
      WithScoreAppend([s[0]], InsertDesc(x, s[1..]), v);
    } else {
      WithScoreAppend([x], s, v);
      if x.score == v {
        WithScoreNone(s, v);
      }
    }
  }

  /** A sorted list headed by a score below `v` has no entry of score `v`. */
  lemma {:induction false} WithScoreNone(s: seq<Post>, v: int)
    requires SortedDesc(s)
    requires s != [] ==> s[0].score < v
    ensures WithScore(s, v) == []
    decreases |s|
  {
    if s != [] {
      WithScoreNone(s[1..], v);
    }
  }

  /** The sort is stable: for every score, the entries with that score keep
      their relative order. */
  lemma {:induction false} SortStable(s: seq<Post>, v: int)
    ensures WithScore(SortByScoreDesc(s), v) == WithScore(s, v)
    decreases |s|
  {
    if s != [] {
      var n := |s| - 1;
      var init, last := s[..n], s[n];
      var sorted := SortByScoreDesc(init);
      SortSnoc(s);
      SortStable(init, v);
      StableStep(init, last, sorted, v);
    }
  }

  /** Inserting the next entry into a sorted list that is stable for `v`
      keeps it stable for `v`. */
  lemma StableStep(init: seq<Post>, last: Post, sorted: seq<Post>, v: int)
    requires SortedDesc(sorted)
    requires WithScore(sorted, v) == WithScore(init, v)
    ensures WithScore(InsertDesc(last, sorted), v) == WithScore(init + [last], v)
  {
    InsertDescWithScore(last, sorted, v);
    WithScoreAppend(init, [last], v);
  }

  /** A prefix keeps, for every score, a prefix of the entries with that
      score: cutting a sorted list never skips over an earlier tie. */
  lemma {:induction false} WithScorePrefix(a: seq<Post>, s: seq<Post>, v: int)
    requires a <= s
    ensures WithScore(a, v) <= WithScore(s, v)
    decreases |a|
  {
    if a != [] {
      assert a[0] == s[0];
      assert a[1..] <= s[1..];
      WithScorePrefix(a[1..], s[1..], v);
    }
  }

  /** `posts[:limit]` when a limit is configured, the whole list otherwise. */
  function TakeLimit(s: seq<Post>, limit: Option<nat>): (r: seq<Post>)
    ensures r <= s
    ensures limit.None? ==> r == s
    ensures limit.Some? ==> |r| == if limit.value <= |s| then limit.value else |s|
  {
    match limit
    case None => s
    case Some(n) => Take(s, n)
  }
}
