/**
 * One run of `main()` up to the digest: collect the week's candidates,
 * stop when there are none, otherwise group them and build the digest.
 * Publishing is I/O and is not part of this module.
 */
module Pipeline {
  import opened Wrappers
  import opened Flair
  import opened Posts
  import opened Collector
  import opened Categories
  import opened Digest

  /** The configuration a run reads: the Unicode tables, `SCAN_LIMIT`,
      `MIN_SCORE`, the two configurable caps, the parsed `EVENT_START` and
      `EVENT_END`, and `EVENT_NAME` / `EVENT_BODY`. */
  datatype RunConfig = RunConfig(
    u: UnicodeTables,
    scanLimit: nat,
    minScore: int,
    dramaReviewLimit: nat,
    discussionsLimit: nat,
    eventStart: Option<Date>,
    eventEnd: Option<Date>,
    eventName: string,
    eventBody: string)

  /** The classifier a run uses: `norm_flair`, `CATEGORIES` and `MIN_SCORE`. */
  function RunClassifier(cfg: RunConfig): (c: Classifier)
    ensures c.table == CategoryTable(cfg.dramaReviewLimit, cfg.discussionsLimit)
    ensures |c.table| == |CategoryOrder|
    ensures CoversOrder(c.table, CategoryOrder)
  {
    TableCoversOrder(cfg.dramaReviewLimit, cfg.discussionsLimit);
    BotClassifier(cfg.u, CategoryTable(cfg.dramaReviewLimit, cfg.discussionsLimit), cfg.minScore)
  }

  /** The final sections of all categories, in table order. */
  function AllSections(c: Classifier, cands: seq<Post>): (r: seq<seq<Post>>)
    ensures |r| == |c.table|
    ensures forall k :: 0 <= k < |c.table| ==> r[k] == Section(c, cands, k)
  {
    seq(|c.table|, k requires 0 <= k < |c.table| => Section(c, cands, k))
  }

  /** The digest of a run over `cands`. The title asks `is_event_period()`
      on `titleDay` and the event block asks it again on `blockDay`: the
      local date at each of the two reads of the clock. */
  function RunDigestOf(cfg: RunConfig, cands: seq<Post>, titleDay: Date, blockDay: Date): (r: Digest)
    ensures |r.sections| == |CategoryOrder|
  {
    var c := RunClassifier(cfg);
    BuildDigest(c.table, CategoryOrder, AllSections(c, cands),
                IsEventPeriod(cfg.eventStart, cfg.eventEnd, titleDay),
                IsEventPeriod(cfg.eventStart, cfg.eventEnd, blockDay),
                cfg.eventName, cfg.eventBody)
  }

  /** Steps 1 to 3 of `main()`: `None` when there are no candidates (no post
      in the window, or no access), the digest otherwise. */
  method RunDigest(cfg: RunConfig, fromNew: Listing, fromTop: Listing, now: int, titleDay: Date, blockDay: Date)
    returns (d: Option<Digest>)
    ensures var cands := if fromNew.forbidden || fromTop.forbidden then []
                         else Keep(Scanned(fromNew, fromTop, cfg.scanLimit), now - WindowSeconds);
      && (d.None? <==> cands == [])
      && (d.Some? ==> d.value == RunDigestOf(cfg, cands, titleDay, blockDay))
  {
    var cands := CollectCandidates(fromNew, fromTop, cfg.scanLimit, now);
    if cands == [] {
      return None;
    }
    var c := RunClassifier(cfg);
    var sections, _, _ := GroupByCategories(c, cands);
    assert sections == AllSections(c, cands);
    d := Some(BuildDigest(c.table, CategoryOrder, sections,
                          IsEventPeriod(cfg.eventStart, cfg.eventEnd, titleDay),
                          IsEventPeriod(cfg.eventStart, cfg.eventEnd, blockDay),
                          cfg.eventName, cfg.eventBody));
  }

  /** The post ids a section block lists, in order. */
  function BlockIds(b: SectionBlock): seq<string> {
    match b.body
    case NoItems => []
    case Items(entries) => seq(|entries|, j requires 0 <= j < |entries| => entries[j].postId)
  }

  /** The ids of a list of posts, in order. */
  function IdList(posts: seq<Post>): (r: seq<string>)
    ensures |r| == |posts|
    ensures forall j :: 0 <= j < |posts| ==> r[j] == posts[j].id
  {
    seq(|posts|, j requires 0 <= j < |posts| => posts[j].id)
  }

  /** A block lists the ids of its posts, in order. */
  lemma BlockIdsOf(cat: Category, posts: seq<Post>)
    ensures BlockIds(BuildSection(cat, posts)) == IdList(posts)
  {
  }

  /** The final section of the category `CATEGORY_ORDER[i]`. */
  function DisplayedSection(cfg: RunConfig, cands: seq<Post>, i: nat): seq<Post>
    requires i < |CategoryOrder|
  {
    Section(RunClassifier(cfg), cands, DisplayPosition(i))
  }

  /** The block at display position `i` lists the section of the category
      `CATEGORY_ORDER[i]`, which sits at `DisplayPosition(i)` in the table. */
  lemma DisplayedIds(cfg: RunConfig, cands: seq<Post>, titleDay: Date, blockDay: Date, i: nat)
    requires i < |CategoryOrder|
    ensures BlockIds(RunDigestOf(cfg, cands, titleDay, blockDay).sections[i]) == IdList(DisplayedSection(cfg, cands, i))
  {
    var c := RunClassifier(cfg);
    var secs := AllSections(c, cands);
    TableCoversOrder(cfg.dramaReviewLimit, cfg.discussionsLimit);
    var k := DisplayPosition(i);
    assert IndexOfKey(c.table, CategoryOrder[i]).value == k;
    BlockIdsOf(c.table[k], secs[k]);
  }

  /** Over candidates with distinct ids (which the collector guarantees),
      the digest lists every post at most once: no id repeats within a
      block, and no id is shared by two blocks. */
  lemma DigestListsPostsOnce(cfg: RunConfig, cands: seq<Post>, titleDay: Date, blockDay: Date, i1: nat, i2: nat)
    requires DistinctIds(cands)
    requires i1 < |CategoryOrder| && i2 < |CategoryOrder|
    ensures var d := RunDigestOf(cfg, cands, titleDay, blockDay);
      && (forall a, b :: 0 <= a < b < |BlockIds(d.sections[i1])| ==> BlockIds(d.sections[i1])[a] != BlockIds(d.sections[i1])[b])
      && (i1 != i2 ==> forall x :: x in BlockIds(d.sections[i1]) ==> x !in BlockIds(d.sections[i2]))
  {
    var s1, s2 := DisplayedSection(cfg, cands, i1), DisplayedSection(cfg, cands, i2);
    DisplayedIds(cfg, cands, titleDay, blockDay, i1);
    DisplayedIds(cfg, cands, titleDay, blockDay, i2);
    DisplayedSectionsDistinct(cfg, cands, i1, i2);
    IdListDistinct(s1, s2, i1 != i2);
  }

  /** Over candidates with distinct ids, the sections shown at two
      display positions have distinct ids, and share none when the
      positions differ. */
  lemma DisplayedSectionsDistinct(cfg: RunConfig, cands: seq<Post>, i1: nat, i2: nat)
    requires DistinctIds(cands)
    requires i1 < |CategoryOrder| && i2 < |CategoryOrder|
    ensures DistinctIds(DisplayedSection(cfg, cands, i1))
    ensures i1 != i2 ==> forall p, q :: p in DisplayedSection(cfg, cands, i1) && q in DisplayedSection(cfg, cands, i2) ==> p.id != q.id
  {
    var k1, k2 := DisplayPosition(i1), DisplayPosition(i2);
    SectionsDistinct(RunClassifier(cfg), cands, k1, k2);
  }

  /** Distinct ids give an id list without repeats, and two lists that
      share no id give disjoint id lists. */
  lemma IdListDistinct(s: seq<Post>, t: seq<Post>, apart: bool)
    requires DistinctIds(s)
    requires apart ==> forall p, q :: p in s && q in t ==> p.id != q.id
    ensures forall a, b :: 0 <= a < b < |IdList(s)| ==> IdList(s)[a] != IdList(s)[b]
    ensures apart ==> forall x :: x in IdList(s) ==> x !in IdList(t)
  {
    var ids1, ids2 := IdList(s), IdList(t);
    forall x | apart && x in ids1
      ensures x !in ids2
    {
      var a :| 0 <= a < |ids1| && ids1[a] == x;
      assert s[a] in s;
      assert forall b :: 0 <= b < |t| ==> t[b] in t;
    }
  }
}
