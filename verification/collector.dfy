/**
 * `fetch_candidates_7days_hybrid`: the submissions of the last seven days,
 * gathered from the `/new` listing and then the `/top?t=week` listing of the
 * source subreddit, without NSFW posts and without repeated ids.
 */
module Collector {
  import opened Posts

  /** Length of the look-back window: `timedelta(days=7)` in seconds. */
  const WindowSeconds: int := 7 * 24 * 60 * 60

  /** What one listing yielded, and whether reading it raised
      `prawcore.exceptions.Forbidden`. */
  datatype Listing = Listing(items: seq<Post>, forbidden: bool)

  /** `max(1, scan_limit // 2)`, the bound on the `/top` listing. */
  function TopLimit(scanLimit: nat): nat {
    if scanLimit / 2 > 1 then scanLimit / 2 else 1
  }

  /** The entries the two loops visit, in visiting order. */
  function Scanned(fromNew: Listing, fromTop: Listing, scanLimit: nat): seq<Post> {
    Take(fromNew.items, scanLimit) + Take(fromTop.items, TopLimit(scanLimit))
  }

  /** Not NSFW and created no earlier than the window start. */
  predicate Qualifies(p: Post, since: int) {
    !p.over18 && p.created >= since
  }

  /** Position `i` holds a qualifying post whose id no earlier qualifying
      post has: the occurrence the collector keeps. */
  predicate FirstOfId(items: seq<Post>, i: nat, since: int)
    requires i < |items|
  {
    && Qualifies(items[i], since)
    && forall j :: 0 <= j < i && Qualifies(items[j], since) ==> items[j].id != items[i].id
  }

  /** Reference definition of the collector's result: the entries at the
      positions where `FirstOfId` holds, in their original order. */
  function Keep(items: seq<Post>, since: int): (r: seq<Post>)
    ensures forall k :: 0 <= k < |r| ==> Qualifies(r[k], since)
    ensures |r| <= |items|
    decreases |items|
  {
    if items == [] then []
    else
      var n := |items| - 1;
      Keep(items[..n], since) + (if FirstOfId(items, n, since) then [items[n]] else [])
  }

  /** The ids of the qualifying entries. */
  function QualifiedIds(items: seq<Post>, since: int): set<string> {
    set j | 0 <= j < |items| && Qualifies(items[j], since) :: items[j].id
  }

  /** Whether a position is a first occurrence depends only on the entries
      up to it. */
  lemma FirstOfIdPrefix(items: seq<Post>, m: nat, i: nat, since: int)
    requires i < m <= |items|
    ensures FirstOfId(items, i, since) == FirstOfId(items[..m], i, since)
  {
  }

  /** Exactly the ids of the qualifying entries are kept. */
  lemma {:induction false} KeepIds(items: seq<Post>, since: int)
    ensures Ids(Keep(items, since)) == QualifiedIds(items, since)
    decreases |items|
  {
    if items != [] {
      var n := |items| - 1;
      var init := items[..n];
      KeepIds(init, since);
      var tail := if FirstOfId(items, n, since) then [items[n]] else [];
      IdsAppend(Keep(init, since), tail);
      assert forall j :: 0 <= j < n ==> items[j] == init[j];
      if FirstOfId(items, n, since) {
        assert QualifiedIds(items, since) == QualifiedIds(init, since) + {items[n].id};
      } else if Qualifies(items[n], since) {
        var j :| 0 <= j < n && Qualifies(items[j], since) && items[j].id == items[n].id;
        assert items[n].id in QualifiedIds(init, since);
        assert QualifiedIds(items, since) == QualifiedIds(init, since) + {items[n].id};
      } else {
        assert QualifiedIds(items, since) == QualifiedIds(init, since);
      }
    }
  }

  /** One more entry is kept exactly when it qualifies and its id has not
      been kept yet: the step of the collector's loops. */
  lemma KeepStep(items: seq<Post>, p: Post, since: int)
    ensures Keep(items + [p], since)
         == Keep(items, since) + (if Qualifies(p, since) && p.id !in Ids(Keep(items, since)) then [p] else [])
  {
    var all := items + [p];
    assert all[..|items|] == items;
    KeepIds(items, since);
    assert forall j :: 0 <= j < |items| ==> all[j] == items[j];
    if Qualifies(p, since) && p.id in QualifiedIds(items, since) {
      var j :| 0 <= j < |items| && Qualifies(items[j], since) && items[j].id == p.id;
      assert !FirstOfId(all, |items|, since);
    }
  }

  /** The body shared by the `/new` loop and the `/top` loop of
      `fetch_candidates_7days_hybrid`: skip an NSFW post, skip an
      id already seen, and pick a post created inside the window. */
  method Visit(visited: seq<Post>, s: Post, since: int, picked: seq<Post>, seen: set<string>)
    returns (picked': seq<Post>, seen': set<string>)
    requires picked == Keep(visited, since) && seen == Ids(picked)
    ensures picked' == Keep(visited + [s], since) && seen' == Ids(picked')
  {
    KeepStep(visited, s, since);
    picked', seen' := picked, seen;
    if s.over18 {
    } else if s.id in seen {
    } else if s.created >= since {
      IdsAppend(picked, [s]);
      picked' := picked + [s];
      seen' := seen + {s.id};
    }
  }

  /** `fetch_candidates_7days_hybrid` over the given listings at time `now`
      (seconds since the epoch): the `/new` loop and the `/top`
      loop with their shared `seen` set. A `Forbidden` listing empties the result, even after
      posts were picked from `/new`; otherwise the result is the reference
      `Keep` of the scanned entries, so it has distinct ids and holds only
      non-NSFW posts created at or after `now - 7 days`. */
  method CollectCandidates(fromNew: Listing, fromTop: Listing, scanLimit: nat, now: int)
    returns (picked: seq<Post>)
    ensures fromNew.forbidden || fromTop.forbidden ==> picked == []
    ensures !fromNew.forbidden && !fromTop.forbidden ==>
      picked == Keep(Scanned(fromNew, fromTop, scanLimit), now - WindowSeconds)
    ensures DistinctIds(picked)
    ensures forall k :: 0 <= k < |picked| ==> !picked[k].over18 && picked[k].created >= now - WindowSeconds
  {
    var since := now - WindowSeconds;
    var seen: set<string> := {};
    picked := [];
    if fromNew.forbidden {
      return [];
    }
    var newItems := Take(fromNew.items, scanLimit);
    var i := 0;
    while i < |newItems|
      invariant 0 <= i <= |newItems|
      invariant picked == Keep(newItems[..i], since)
      invariant seen == Ids(picked)
    {
      assert newItems[..i + 1] == newItems[..i] + [newItems[i]];
      picked, seen := Visit(newItems[..i], newItems[i], since, picked, seen);
      i := i + 1;
    }
    assert newItems[..i] == newItems;
    if fromTop.forbidden {
      return [];
    }
    var topItems := Take(fromTop.items, TopLimit(scanLimit));
    i := 0;
    assert newItems + topItems[..0] == newItems;
    while i < |topItems|
      invariant 0 <= i <= |topItems|
      invariant picked == Keep(newItems + topItems[..i], since)
      invariant seen == Ids(picked)
    {
      assert newItems + topItems[..i + 1] == (newItems + topItems[..i]) + [topItems[i]];
      picked, seen := Visit(newItems + topItems[..i], topItems[i], since, picked, seen);
      i := i + 1;
    }
    assert topItems[..i] == topItems;
    assert newItems + topItems == Scanned(fromNew, fromTop, scanLimit);
    KeepDistinct(newItems + topItems, since);
  }

  /** The kept entries sit, in order, at exactly the first-occurrence
      positions of the scanned entries: the result is the subsequence of the
      input selected by `FirstOfId`. */
  lemma {:induction false} KeepPositions(items: seq<Post>, since: int) returns (idx: seq<nat>)
    ensures |idx| == |Keep(items, since)|
    ensures forall k :: 0 <= k < |idx| ==> idx[k] < |items| && Keep(items, since)[k] == items[idx[k]]
    ensures forall k, l :: 0 <= k < l < |idx| ==> idx[k] < idx[l]
    ensures forall i :: 0 <= i < |items| ==> (FirstOfId(items, i, since) <==> i in idx)
    decreases |items|
  {
    if items == [] {
      idx := [];
    } else {
      var n := |items| - 1;
      var init := items[..n];
      var idx0 := KeepPositions(init, since);
      forall i | 0 <= i < n ensures FirstOfId(items, i, since) == FirstOfId(init, i, since) {
        FirstOfIdPrefix(items, n, i, since);
      }
      var r0 := Keep(init, since);
      var tail := if FirstOfId(items, n, since) then [n] else [];
      idx := idx0 + tail;
      assert Keep(items, since) == r0 + (if FirstOfId(items, n, since) then [items[n]] else []);
      forall k | 0 <= k < |idx|
        ensures idx[k] < |items| && Keep(items, since)[k] == items[idx[k]]
      {
        if k < |idx0| {
          assert idx[k] == idx0[k] && items[idx0[k]] == init[idx0[k]];
        }
      }
      forall i | 0 <= i < |items|
        ensures FirstOfId(items, i, since) <==> i in idx
      {
        if i < n {
          FirstOfIdPrefix(items, n, i, since);
          assert i in idx <==> i in idx0;
        } else {
          assert n !in idx0;
        }
      }
    }
  }

  /** The kept entries have pairwise distinct ids. */
  lemma KeepDistinct(items: seq<Post>, since: int)
    ensures DistinctIds(Keep(items, since))
  {
    var r := Keep(items, since);
    var idx := KeepPositions(items, since);
    forall k, l | 0 <= k < l < |r| ensures r[k].id != r[l].id {
      assert FirstOfId(items, idx[k], since) && FirstOfId(items, idx[l], since);
    }
  }

  /** A list of qualifying posts with distinct ids is its own result. */
  lemma {:induction false} KeepIdentity(xs: seq<Post>, since: int)
    requires forall k :: 0 <= k < |xs| ==> Qualifies(xs[k], since)
    requires DistinctIds(xs)
    ensures Keep(xs, since) == xs
    decreases |xs|
  {
    if xs != [] {
      var n := |xs| - 1;
      KeepIdentity(xs[..n], since);
      assert FirstOfId(xs, n, since);
      assert xs == xs[..n] + [xs[n]];
    }
  }

  /** Collecting again over the collected posts changes nothing. */
  lemma KeepIdempotent(items: seq<Post>, since: int)
    ensures Keep(Keep(items, since), since) == Keep(items, since)
  {
    KeepDistinct(items, since);
    KeepIdentity(Keep(items, since), since);
  }

  /** An id that occurs qualifying anywhere in the scanned entries, however
      often and in whichever listing, is kept exactly once. */
  lemma KeptOnce(items: seq<Post>, since: int, i: nat)
    requires i < |items| && Qualifies(items[i], since)
    ensures exists k :: 0 <= k < |Keep(items, since)| && Keep(items, since)[k].id == items[i].id
    ensures forall k, l ::
      0 <= k < |Keep(items, since)| && 0 <= l < |Keep(items, since)|
      && Keep(items, since)[k].id == items[i].id && Keep(items, since)[l].id == items[i].id
      ==> k == l
  {
    var r := Keep(items, since);
    KeepIds(items, since);
    assert items[i].id in QualifiedIds(items, since);
    var p :| p in r && p.id == items[i].id;
    var k :| 0 <= k < |r| && r[k] == p;
    KeepDistinct(items, since);
  }

  /** The window includes its start: a non-NSFW post created exactly seven
      days before `now` is kept unless an earlier qualifying post has its id,
      while one created a second earlier is never kept. An NSFW or stale
      earlier copy of the id does not block it. */
  lemma WindowBoundary(items: seq<Post>, i: nat, now: int)
    requires i < |items| && !items[i].over18
    requires forall j :: 0 <= j < i && Qualifies(items[j], now - WindowSeconds) ==> items[j].id != items[i].id
    ensures items[i].created == now - WindowSeconds ==> items[i] in Keep(items, now - WindowSeconds)
    ensures items[i].created < now - WindowSeconds ==> items[i] !in Keep(items, now - WindowSeconds)
  {
    var idx := KeepPositions(items, now - WindowSeconds);
    if items[i].created == now - WindowSeconds {
      assert FirstOfId(items, i, now - WindowSeconds);
      var k :| 0 <= k < |idx| && idx[k] == i;
    }
  }
}
