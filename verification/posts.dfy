/** A submission read from a listing of the source subreddit. */
module Posts {
  import opened Wrappers

  /** The attributes of a praw `Submission` the core reads: its id, title,
      author name (`None` once the account is deleted), score, creation time
      in whole seconds since the epoch, raw link-flair text and NSFW flag. */
  datatype Post = Post(
    id: string,
    title: string,
    author: Option<string>,
    score: int,
    created: int,
    flair: Option<string>,
    over18: bool)

  /** The first `n` entries (all of them if there are fewer): Python's `s[:n]`, and what a
      listing generator bounded by `limit=n` yields. */
  function Take<T>(s: seq<T>, n: nat): (r: seq<T>)
    ensures |r| == if n <= |s| then n else |s|
    ensures r <= s
  {
    if n <= |s| then s[..n] else s
  }

  /** No two entries share an id. */
  predicate DistinctIds(s: seq<Post>) {
    forall i, j :: 0 <= i < j < |s| ==> s[i].id != s[j].id
  }

  /** The ids of the entries. */
  function Ids(s: seq<Post>): set<string> {
    set p | p in s :: p.id
  }

  lemma IdsAppend(s: seq<Post>, t: seq<Post>)
    ensures Ids(s + t) == Ids(s) + Ids(t)
  {
    assert forall p :: p in s + t <==> p in s || p in t;
  }

  /** Two entries of a list with distinct ids that share an id are the same entry. */
  lemma SameIdSameEntry(s: seq<Post>, p: Post, q: Post)
    requires DistinctIds(s) && p in s && q in s && p.id == q.id
    ensures p == q
  {
    var i :| 0 <= i < |s| && s[i] == p;
    var j :| 0 <= j < |s| && s[j] == q;
    assert i == j;
  }

  /** A list with distinct ids holds each entry at most once. */
  lemma {:induction false} DistinctIdsCount(s: seq<Post>, x: Post)
    requires DistinctIds(s)
    ensures multiset(s)[x] <= 1
    decreases |s|
  {
    if s != [] {
      var n := |s| - 1;
      assert s == s[..n] + [s[n]];
      assert DistinctIds(s[..n]);
      DistinctIdsCount(s[..n], x);
      if s[n] == x {
        assert x !in s[..n];
      }
    }
  }

  /** Rearranging a list with distinct ids keeps them distinct. */
  lemma DistinctIdsPermutation(a: seq<Post>, b: seq<Post>)
    requires multiset(a) == multiset(b) && DistinctIds(a)
    ensures DistinctIds(b)
  {
    forall i, j | 0 <= i < j < |b|
      ensures b[i].id != b[j].id
    {
      if b[i].id == b[j].id {
        assert b[i] in multiset(a) && b[j] in multiset(a);
        if b[i] == b[j] {
          assert b == b[..j] + b[j..];
          assert b[i] in b[..j] && b[j] in b[j..];
          assert multiset(b)[b[i]] == multiset(b[..j])[b[i]] + multiset(b[j..])[b[i]];
          DistinctIdsCount(a, b[i]);
        }
      }
    }
  }
}
