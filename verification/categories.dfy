/**
 * `group_by_categories` and the `CATEGORIES` table: first-match
 * classification of each candidate by its normalised flair, the `MIN_SCORE`
 * filter, and per-category ranking and truncation.
 */
module Categories {
  import opened Wrappers
  import opened Text
  import opened Flair
  import opened Posts
  import opened Ranking

  /** One entry of `CATEGORIES`: its key, display icon and label (`displayName`), the raw
      flair texts it accepts, and its cap (`None` for no cap). */
  datatype Category = Category(key: string, icon: string, displayName: string, flairs: seq<string>, limit: Option<nat>)

  /** `CATEGORIES` in declaration order, which is the order matching scans.
      `DRAMA_REVIEW_LIMIT` and `DISCUSSIONS_LIMIT` come from the environment
      and are parameters here. */
  function CategoryTable(dramaReviewLimit: nat, discussionsLimit: nat): seq<Category> {
    [ Category("drama review", "\U{1F3AD}", "Drama Review", DramaReviewFlairs, Some(dramaReviewLimit)),
      Category("vertical vortex", "\U{1F37F}", "Vertical Vortex", VerticalVortexFlairs, Some(5)),
      Category("discussions", "\U{1F4AC}", "Discussions", DiscussionsFlairs, Some(discussionsLimit)),
      Category("recommendations", "\U{2B50}", "Recommendations", RecommendationsFlairs, Some(5)),
      Category("actors&couples", "\U{1F31F}", "Actors & Couples", ActorsCouplesFlairs, Some(5)),
      Category("sneak peek", "\U{1F52E}", "Sneak Peek", SneakPeekFlairs, Some(3)),
      Category("fun", "\U{1F525}", "Fun", FunFlairs, Some(5)),
      Category("found&shared", "\U{1F517}", "Found & Shared", FoundSharedFlairs, Some(5)) ]
  }

  /** The raw flair texts each category of the table accepts. */
  const DramaReviewFlairs: seq<string> := ["\U{1F4DD} Drama Review", "Drama Review"]
  const VerticalVortexFlairs: seq<string> := ["\U{1F37F} Vertical Vortex", "Vertical Vortex"]
  const DiscussionsFlairs: seq<string> := ["\U{1F5E8}\U{FE0F} Discussion", "Discussion", "Discussions"]
  const RecommendationsFlairs: seq<string> := ["\U{2B50} Recommendations", "Recommendation", "Recommendations"]
  const ActorsCouplesFlairs: seq<string> :=
    ["\U{1F31F}Actors/Couples", "Actors/Couples", "Actors & Couples", "Actors&Couples"]
  const SneakPeekFlairs: seq<string> := ["\U{1F52E} Sneak Peek", "Sneak Peek"]
  const FunFlairs: seq<string> := ["\U{1F525} Fun \U{1F525}", "Fun"]
  const FoundSharedFlairs: seq<string> := ["Found & Shared", "Found&Shared", "Found/Shared"]

  /** With tables faithful on ASCII, the three spellings "Found & Shared",
      "Found&Shared" and "Found/Shared" that the table lists share one key,
      so a post under any of them reaches the category. */
  lemma FoundSharedAliasesAgree(u: UnicodeTables)
    requires AsciiFaithful(u)
    ensures forall i :: 0 <= i < |FoundSharedFlairs| ==> NormFlair(u, Some(FoundSharedFlairs[i])) == "found shared"
  {
    FoundSharedSpellings();
    SpellingsShareKey(u, FoundSharedFlairs, FoundSharedSeps, "Found", "Shared", "found", "shared", "found shared");
  }

  /** With tables faithful on ASCII, the three plain spellings of "Actors &
      Couples" that the table lists after the emoji one share one key. */
  lemma ActorsCouplesAliasesAgree(u: UnicodeTables)
    requires AsciiFaithful(u)
    ensures forall i :: 1 <= i < |ActorsCouplesFlairs| ==> NormFlair(u, Some(ActorsCouplesFlairs[i])) == "actors couples"
  {
    ActorsCouplesSpellings();
    SpellingsShareKey(u, ActorsCouplesFlairs[1..], ActorsCouplesSeps, "Actors", "Couples", "actors", "couples", "actors couples");
    assert forall i :: 1 <= i < |ActorsCouplesFlairs| ==> ActorsCouplesFlairs[i] == ActorsCouplesFlairs[1..][i - 1];
  }

  /** The separators of the "Found & Shared" spellings, in table order. */
  const FoundSharedSeps: seq<string> := [" & ", "&", "/"]

  /** The separators of the plain "Actors & Couples" spellings, in table order. */
  const ActorsCouplesSeps: seq<string> := ["/", " & ", "&"]

  /** Each "Found & Shared" spelling is the two words around its separator. */
  lemma FoundSharedSpellings()
    ensures AsciiWord("Found", "found") && AsciiWord("Shared", "shared")
    ensures |FoundSharedSeps| == |FoundSharedFlairs|
    ensures forall i :: 0 <= i < |FoundSharedFlairs| ==> AsciiSeparator(FoundSharedSeps[i]) && FoundSharedFlairs[i] == "Found" + FoundSharedSeps[i] + "Shared"
  {
    SeparatorsAllowed();
  }

  /** Each plain "Actors & Couples" spelling is the two words around its
      separator. */
  lemma ActorsCouplesSpellings()
    ensures AsciiWord("Actors", "actors") && AsciiWord("Couples", "couples")
    ensures |ActorsCouplesSeps| == |ActorsCouplesFlairs[1..]|
    ensures forall i :: 0 <= i < |ActorsCouplesSeps| ==> AsciiSeparator(ActorsCouplesSeps[i]) && ActorsCouplesFlairs[1..][i] == "Actors" + ActorsCouplesSeps[i] + "Couples"
  {
    SeparatorsAllowed();
    ActorsCouplesJoins();
  }

  /** The plain "Actors & Couples" spellings, split at their separators. */
  lemma ActorsCouplesJoins()
    ensures forall i :: 0 <= i < |ActorsCouplesSeps| ==> ActorsCouplesFlairs[1..][i] == "Actors" + ActorsCouplesSeps[i] + "Couples"
  {
    var plain := ActorsCouplesFlairs[1..];
    assert plain == ["Actors/Couples", "Actors & Couples", "Actors&Couples"];
  }

  /** The three separators the tables use between two words. */
  lemma SeparatorsAllowed()
    ensures AsciiSeparator(" & ") && AsciiSeparator("&") && AsciiSeparator("/")
  {
  }

  /** What classification reads: the flair normaliser, the category table
      in declaration order, and `MIN_SCORE`. The normaliser is a field so
      that the matching logic does not depend on how keys are computed;
      `BotClassifier` binds it to `norm_flair`. */
  datatype Classifier = Classifier(normalise: Option<string> -> string, table: seq<Category>, minScore: int)

  /** The bot's classifier: `norm_flair` over the given Unicode tables. */
  function BotClassifier(u: UnicodeTables, table: seq<Category>, minScore: int): (c: Classifier)
    ensures forall s :: c.normalise(s) == NormFlair(u, s)
    ensures c.table == table && c.minScore == minScore
  {
    Classifier(s => NormFlair(u, s), table, minScore)
  }

  /** The key of a post: its flair (empty when it has none), trimmed, then normalised. */
  function FlairKey(c: Classifier, p: Post): string {
    c.normalise(Some(Strip(p.flair.GetOr(""))))
  }

  /** Some raw flair of the list normalises to `key`. */
  predicate AnyNormalisesTo(norm: Option<string> -> string, flairs: seq<string>, key: string)
    decreases |flairs|
  {
    |flairs| > 0 && (norm(Some(flairs[0])) == key || AnyNormalisesTo(norm, flairs[1..], key))
  }

  /** The category accepts the key when one of its raw flairs normalises
      to it. */
  predicate Accepts(c: Classifier, cat: Category, key: string) {
    AnyNormalisesTo(c.normalise, cat.flairs, key)
  }

  /** The first category at or after position `from` that accepts `key`. */
  function FirstMatchFrom(c: Classifier, table: seq<Category>, key: string, from: nat): (r: Option<nat>)
    ensures r.Some? ==> from <= r.value < |table| && Accepts(c, table[r.value], key)
    ensures r.Some? ==> forall j :: from <= j < r.value ==> !Accepts(c, table[j], key)
    ensures r.None? ==> forall j :: from <= j < |table| ==> !Accepts(c, table[j], key)
    decreases |table| - from
  {
    if from >= |table| then None
    else if Accepts(c, table[from], key) then Some(from)
    else FirstMatchFrom(c, table, key, from + 1)
  }

  /** The category `key` is classified into: the first one, in declaration
      order, that accepts it, or none when no category does. */
  function FirstMatch(c: Classifier, table: seq<Category>, key: string): (r: Option<nat>)
    ensures r.Some? ==> r.value < |table| && Accepts(c, table[r.value], key)
    ensures r.Some? ==> forall j :: 0 <= j < r.value ==> !Accepts(c, table[j], key)
    ensures r.None? <==> forall j :: 0 <= j < |table| ==> !Accepts(c, table[j], key)
  {
    FirstMatchFrom(c, table, key, 0)
  }

  /** Where one candidate ends up. */
  datatype Route = Unmatched | BelowScore(category: nat) | Placed(category: nat)

  /** The outcome of the inner loop of `group_by_categories` for one post:
      unmatched when no category accepts its flair; otherwise the first
      accepting category, where a score below `MIN_SCORE` drops it without
      trying later categories. */
  function RouteOf(c: Classifier, p: Post): (r: Route)
    ensures !r.Unmatched? ==> r.category < |c.table|
    ensures r.Placed? ==> p.score >= c.minScore
    ensures r.BelowScore? ==> p.score < c.minScore
  {
    match FirstMatch(c, c.table, FlairKey(c, p))
    case None => Unmatched
    case Some(k) => if p.score < c.minScore then BelowScore(k) else Placed(k)
  }

  /** A post is unmatched exactly when no category accepts its flair, and
      otherwise lands in the first accepting category, either placed there
      or dropped there for its score; it never reaches a later category. */
  lemma RouteOfSpec(c: Classifier, p: Post)
    ensures RouteOf(c, p).Unmatched? <==> forall j :: 0 <= j < |c.table| ==> !Accepts(c, c.table[j], FlairKey(c, p))
    ensures !RouteOf(c, p).Unmatched? ==>
      && Accepts(c, c.table[RouteOf(c, p).category], FlairKey(c, p))
      && (forall j :: 0 <= j < RouteOf(c, p).category ==> !Accepts(c, c.table[j], FlairKey(c, p)))
      && (RouteOf(c, p).Placed? <==> p.score >= c.minScore)
  {
  }

  /** Every raw flair of the list has more than `n` ASCII letters and
      digits. */
  predicate AllLonger(flairs: seq<string>, n: nat)
    decreases |flairs|
  {
    flairs == [] || (n < AlnumCount(flairs[0]) && AllLonger(flairs[1..], n))
  }

  /** No raw flair whose ASCII letters and digits outnumber the key
      characters of `key` normalises to `key`. */
  lemma {:induction false} NoLongerAliasMatches(u: UnicodeTables, c: Classifier, flairs: seq<string>, key: string)
    requires AsciiFaithful(u)
    requires forall s :: c.normalise(s) == NormFlair(u, s)
    requires AllLonger(flairs, KeyCount(key))
    ensures !AnyNormalisesTo(c.normalise, flairs, key)
    decreases |flairs|
  {
    if flairs != [] {
      NormFlairKeepsAlnum(u, flairs[0]);
      NoLongerAliasMatches(u, c, flairs[1..], key);
    }
  }

  /** Each raw flair holds four ASCII letters or digits in a row, starting
      at the position given for it. */
  predicate WordsAt(flairs: seq<string>, at: seq<nat>)
    decreases |flairs|
  {
    |at| == |flairs| &&
    (flairs == [] ||
      (var f, i := flairs[0], at[0];
       && i + 4 <= |f| && IsAlnum(f[i]) && IsAlnum(f[i + 1]) && IsAlnum(f[i + 2]) && IsAlnum(f[i + 3])
       && WordsAt(flairs[1..], at[1..])))
  }

  /** A category whose every raw flair holds a four-letter word does not
      accept a key of at most three key characters. */
  lemma {:induction false} ShortKeyMisses(u: UnicodeTables, c: Classifier, flairs: seq<string>, at: seq<nat>, key: string)
    requires AsciiFaithful(u)
    requires forall s :: c.normalise(s) == NormFlair(u, s)
    requires WordsAt(flairs, at) && KeyCount(key) <= 3
    ensures !AnyNormalisesTo(c.normalise, flairs, key)
  {
    WordsMakeLonger(flairs, at, KeyCount(key));
    NoLongerAliasMatches(u, c, flairs, key);
  }

  lemma {:induction false} WordsMakeLonger(flairs: seq<string>, at: seq<nat>, n: nat)
    requires WordsAt(flairs, at) && n <= 3
    ensures AllLonger(flairs, n)
    decreases |flairs|
  {
    if flairs != [] {
      AlnumRun(flairs[0], at[0], 4);
      WordsMakeLonger(flairs[1..], at[1..], n);
    }
  }

  /** The key of a plain ASCII flair, without symbols, is its ASCII
      lower-case form when that is a key. */
  lemma PlainFlairKey(u: UnicodeTables, c: Classifier, p: Post, w: string, key: string)
    requires AsciiFaithful(u)
    requires forall s :: c.normalise(s) == NormFlair(u, s)
    requires p.flair == Some(w)
    requires forall k :: 0 <= k < |w| ==> w[k] as int < 128 && !IsAsciiSymbol(w[k])
    requires IsCanonicalKey(key) && |key| == |w| && forall k :: 0 <= k < |w| ==> AsciiLower(w[k]) == key[k]
    ensures FlairKey(c, p) == key
  {
    StripSpec(w);
    if |w| > 0 {
      assert AsciiLower(w[0]) == key[0] && AsciiLower(w[|w| - 1]) == key[|w| - 1];
    }
    assert Strip(w) == w;
    AsciiFlairKey(u, w, key);
  }

  /** In `CATEGORIES`, a post flaired "Fun" reaches the "fun" category
      (position 6): no alias of an earlier category normalises to "fun", so
      the post is placed there, or dropped there when it scores below
      `MIN_SCORE`. */
  lemma FunFlairRoute(u: UnicodeTables, dramaReviewLimit: nat, discussionsLimit: nat, minScore: int, p: Post)
    requires AsciiFaithful(u) && p.flair == Some("Fun")
    ensures var c := BotClassifier(u, CategoryTable(dramaReviewLimit, discussionsLimit), minScore);
      RouteOf(c, p) == if p.score < minScore then BelowScore(6) else Placed(6)
  {
    var table := CategoryTable(dramaReviewLimit, discussionsLimit);
    var c := BotClassifier(u, table, minScore);
    FunKey(u, c, p);
    FunFirstMatch(u, c, dramaReviewLimit, discussionsLimit);
  }

  /** A post flaired "Fun" has the key "fun". */
  lemma FunKey(u: UnicodeTables, c: Classifier, p: Post)
    requires AsciiFaithful(u)
    requires forall s :: c.normalise(s) == NormFlair(u, s)
    requires p.flair == Some("Fun")
    ensures FlairKey(c, p) == "fun"
  {
    PlainFlairKey(u, c, p, "Fun", "fun");
  }

  /** Under `norm_flair`, the key "fun" is first accepted by the
      seventh category of the table. */
  lemma FunFirstMatch(u: UnicodeTables, c: Classifier, dramaReviewLimit: nat, discussionsLimit: nat)
    requires AsciiFaithful(u)
    requires forall s :: c.normalise(s) == NormFlair(u, s)
    ensures FirstMatch(c, CategoryTable(dramaReviewLimit, discussionsLimit), "fun") == Some(6)
  {
    EarlierCategoriesMissFun(u, c);
    FunAccepted(u, c);
    SeventhFirst(c, dramaReviewLimit, discussionsLimit, "fun");
  }

  /** A key that no alias of the first six categories normalises to, and
      that an alias of the seventh does, is first accepted by the seventh. */
  lemma SeventhFirst(c: Classifier, dramaReviewLimit: nat, discussionsLimit: nat, key: string)
    requires !AnyNormalisesTo(c.normalise, DramaReviewFlairs, key)
    requires !AnyNormalisesTo(c.normalise, VerticalVortexFlairs, key)
    requires !AnyNormalisesTo(c.normalise, DiscussionsFlairs, key)
    requires !AnyNormalisesTo(c.normalise, RecommendationsFlairs, key)
    requires !AnyNormalisesTo(c.normalise, ActorsCouplesFlairs, key)
    requires !AnyNormalisesTo(c.normalise, SneakPeekFlairs, key)
    requires AnyNormalisesTo(c.normalise, FunFlairs, key)
    ensures FirstMatch(c, CategoryTable(dramaReviewLimit, discussionsLimit), key) == Some(6)
  {
    var table := CategoryTable(dramaReviewLimit, discussionsLimit);
    assert Accepts(c, table[6], key);
    assert FirstMatchFrom(c, table, key, 6) == Some(6);
    assert FirstMatchFrom(c, table, key, 5) == FirstMatchFrom(c, table, key, 6) by {
      assert !Accepts(c, table[5], key);
    }
    assert FirstMatchFrom(c, table, key, 4) == FirstMatchFrom(c, table, key, 5) by {
      assert !Accepts(c, table[4], key);
    }
    assert FirstMatchFrom(c, table, key, 3) == FirstMatchFrom(c, table, key, 4) by {
      assert !Accepts(c, table[3], key);
    }
    assert FirstMatchFrom(c, table, key, 2) == FirstMatchFrom(c, table, key, 3) by {
      assert !Accepts(c, table[2], key);
    }
    assert FirstMatchFrom(c, table, key, 1) == FirstMatchFrom(c, table, key, 2) by {
      assert !Accepts(c, table[1], key);
    }
    assert FirstMatchFrom(c, table, key, 0) == FirstMatchFrom(c, table, key, 1) by {
      assert !Accepts(c, table[0], key);
    }
  }

  /** The plain alias "Fun" normalises to "fun". */
  lemma FunAccepted(u: UnicodeTables, c: Classifier)
    requires AsciiFaithful(u)
    requires forall s :: c.normalise(s) == NormFlair(u, s)
    ensures AnyNormalisesTo(c.normalise, FunFlairs, "fun")
  {
    AsciiFlairKey(u, "Fun", "fun");
    assert FunFlairs[1..][0] == "Fun";
  }

  /** No alias of the first six categories normalises to "fun": each holds
      a word of at least four letters. */
  lemma EarlierCategoriesMissFun(u: UnicodeTables, c: Classifier)
    requires AsciiFaithful(u)
    requires forall s :: c.normalise(s) == NormFlair(u, s)
    ensures !AnyNormalisesTo(c.normalise, DramaReviewFlairs, "fun")
    ensures !AnyNormalisesTo(c.normalise, VerticalVortexFlairs, "fun")
    ensures !AnyNormalisesTo(c.normalise, DiscussionsFlairs, "fun")
    ensures !AnyNormalisesTo(c.normalise, RecommendationsFlairs, "fun")
    ensures !AnyNormalisesTo(c.normalise, ActorsCouplesFlairs, "fun")
    ensures !AnyNormalisesTo(c.normalise, SneakPeekFlairs, "fun")
  {
    EarlierAliasWords();
    ShortKeyMisses(u, c, DramaReviewFlairs, [2, 0], "fun");
    ShortKeyMisses(u, c, VerticalVortexFlairs, [2, 0], "fun");
    ShortKeyMisses(u, c, DiscussionsFlairs, [3, 0, 0], "fun");
    ShortKeyMisses(u, c, RecommendationsFlairs, [2, 0, 0], "fun");
    ShortKeyMisses(u, c, ActorsCouplesFlairs, [1, 0, 0, 0], "fun");
    ShortKeyMisses(u, c, SneakPeekFlairs, [2, 0], "fun");
  }

  /** Where a word of at least four letters starts in each alias of the
      first six categories. */
  lemma EarlierAliasWords()
    ensures WordsAt(DramaReviewFlairs, [2, 0]) && WordsAt(VerticalVortexFlairs, [2, 0])
    ensures WordsAt(DiscussionsFlairs, [3, 0, 0]) && WordsAt(RecommendationsFlairs, [2, 0, 0])
    ensures WordsAt(ActorsCouplesFlairs, [1, 0, 0, 0]) && WordsAt(SneakPeekFlairs, [2, 0])
    ensures KeyCount("fun") <= 3
  {
    ReviewVortexWords();
    DiscussionsWords();
    RecommendationsWords();
    ActorsCouplesWords();
    SneakPeekWords();
  }

  lemma ReviewVortexWords()
    ensures WordsAt(DramaReviewFlairs, [2, 0]) && WordsAt(VerticalVortexFlairs, [2, 0])
  {
  }

  lemma DiscussionsWords()
    ensures WordsAt(DiscussionsFlairs, [3, 0, 0])
  {
  }

  lemma RecommendationsWords()
    ensures WordsAt(RecommendationsFlairs, [2, 0, 0])
  {
  }

  lemma ActorsCouplesWords()
    ensures WordsAt(ActorsCouplesFlairs, [1, 0, 0, 0])
  {
  }

  lemma SneakPeekWords()
    ensures WordsAt(SneakPeekFlairs, [2, 0])
  {
  }

  /** The posts placed in category `k`, in candidate order: the list
      `sections[key]` holds before sorting. */
  function Matched(c: Classifier, cands: seq<Post>, k: nat): seq<Post>
    decreases |cands|
  {
    if cands == [] then []
    else
      var n := |cands| - 1;
      Matched(c, cands[..n], k) + (if RouteOf(c, cands[n]) == Placed(k) then [cands[n]] else [])
  }

  /** The untrimmed section of category `k` holds exactly the candidates
      placed there. */
  lemma {:induction false} MatchedMembers(c: Classifier, cands: seq<Post>, k: nat)
    ensures forall p :: p in Matched(c, cands, k) <==> p in cands && RouteOf(c, p) == Placed(k)
    decreases |cands|
  {
    if cands != [] {
      var n := |cands| - 1;
      MatchedMembers(c, cands[..n], k);
      assert cands == cands[..n] + [cands[n]];
    }
  }

  /** `dropped_score[key]` for category `k`. */
  function CountBelow(c: Classifier, cands: seq<Post>, k: nat): nat
    decreases |cands|
  {
    if cands == [] then 0
    else
      var n := |cands| - 1;
      CountBelow(c, cands[..n], k) + (if RouteOf(c, cands[n]) == BelowScore(k) then 1 else 0)
  }

  /** `dropped_nomatch`. */
  function CountUnmatched(c: Classifier, cands: seq<Post>): nat
    decreases |cands|
  {
    if cands == [] then 0
    else
      var n := |cands| - 1;
      CountUnmatched(c, cands[..n]) + (if RouteOf(c, cands[n]) == Unmatched then 1 else 0)
  }

  /** The final section of category `k`: its placed posts sorted by
      descending score (stable) and cut to the category's cap. */
  function Section(c: Classifier, cands: seq<Post>, k: nat): seq<Post>
    requires k < |c.table|
  {
    TakeLimit(SortByScoreDesc(Matched(c, cands, k)), c.table[k].limit)
  }

  lemma MatchedSnoc(c: Classifier, xs: seq<Post>, p: Post, k: nat)
    ensures Matched(c, xs + [p], k) == Matched(c, xs, k) + (if RouteOf(c, p) == Placed(k) then [p] else [])
  {
    assert (xs + [p])[..|xs|] == xs;
  }

  lemma CountBelowSnoc(c: Classifier, xs: seq<Post>, p: Post, k: nat)
    ensures CountBelow(c, xs + [p], k) == CountBelow(c, xs, k) + (if RouteOf(c, p) == BelowScore(k) then 1 else 0)
  {
    assert (xs + [p])[..|xs|] == xs;
  }

  lemma CountUnmatchedSnoc(c: Classifier, xs: seq<Post>, p: Post)
    ensures CountUnmatched(c, xs + [p]) == CountUnmatched(c, xs) + (if RouteOf(c, p) == Unmatched then 1 else 0)
  {
    assert (xs + [p])[..|xs|] == xs;
  }

  /** One pass of the outer loop of `group_by_categories` for post `s`: the
      scan of the table in declaration order, which stops (`break`) at the
      first category accepting the post's flair and there either appends the
      post to the section or counts it as dropped for its score. */
  method ClassifyOne(c: Classifier, s: Post, sections: seq<seq<Post>>, droppedScore: seq<nat>)
    returns (sections': seq<seq<Post>>, droppedScore': seq<nat>, matched: bool)
    requires |sections| == |c.table| && |droppedScore| == |c.table|
    ensures |sections'| == |c.table| && |droppedScore'| == |c.table|
    ensures matched <==> !RouteOf(c, s).Unmatched?
    ensures forall k :: 0 <= k < |c.table| ==>
      sections'[k] == sections[k] + (if RouteOf(c, s) == Placed(k) then [s] else [])
    ensures forall k :: 0 <= k < |c.table| ==>
      droppedScore'[k] == droppedScore[k] + (if RouteOf(c, s) == BelowScore(k) then 1 else 0)
  {
    sections', droppedScore' := sections, droppedScore;
    var key := FlairKey(c, s);
    matched := false;
    var j := 0;
    while j < |c.table| && !matched
      invariant 0 <= j <= |c.table|
      invariant |sections'| == |c.table| && |droppedScore'| == |c.table|
      invariant !matched ==> forall jj :: 0 <= jj < j ==> !Accepts(c, c.table[jj], key)
      invariant !matched ==> sections' == sections && droppedScore' == droppedScore
      invariant matched ==> FirstMatch(c, c.table, key) == Some(j)
      invariant matched ==> sections' == (if s.score < c.minScore then sections else sections[j := sections[j] + [s]])
      invariant matched ==> droppedScore' == (if s.score < c.minScore then droppedScore[j := droppedScore[j] + 1] else droppedScore)
      decreases |c.table| - j + (if matched then 0 else 1)
    {
      if Accepts(c, c.table[j], key) {
        matched := true;
        if s.score < c.minScore {
          droppedScore' := droppedScore'[j := droppedScore'[j] + 1];
        } else {
          sections' := sections'[j := sections'[j] + [s]];
        }
      } else {
        j := j + 1;
      }
    }
  }

  /** Classifying candidate `i` extends the per-category lists and counters
      of the candidates before it to those of the candidates up to it. */
  lemma GroupStep(c: Classifier, cands: seq<Post>, i: nat,
                  placed: seq<seq<Post>>, dropped: seq<nat>, placed': seq<seq<Post>>, dropped': seq<nat>)
    requires i < |cands|
    requires |placed| == |c.table| && |dropped| == |c.table| && |placed'| == |c.table| && |dropped'| == |c.table|
    requires forall k :: 0 <= k < |c.table| ==> placed[k] == Matched(c, cands[..i], k) && dropped[k] == CountBelow(c, cands[..i], k)
    requires forall k :: 0 <= k < |c.table| ==>
      placed'[k] == placed[k] + (if RouteOf(c, cands[i]) == Placed(k) then [cands[i]] else [])
    requires forall k :: 0 <= k < |c.table| ==>
      dropped'[k] == dropped[k] + (if RouteOf(c, cands[i]) == BelowScore(k) then 1 else 0)
    ensures forall k :: 0 <= k < |c.table| ==>
      placed'[k] == Matched(c, cands[..i + 1], k) && dropped'[k] == CountBelow(c, cands[..i + 1], k)
  {
    var pre, s := cands[..i], cands[i];
    assert cands[..i + 1] == pre + [s];
    forall k | 0 <= k < |c.table|
      ensures placed'[k] == Matched(c, pre + [s], k) && dropped'[k] == CountBelow(c, pre + [s], k)
    {
      MatchedSnoc(c, pre, s, k);
      CountBelowSnoc(c, pre, s, k);
      assert placed'[k] == Matched(c, pre, k) + (if RouteOf(c, s) == Placed(k) then [s] else []);
      assert dropped'[k] == CountBelow(c, pre, k) + (if RouteOf(c, s) == BelowScore(k) then 1 else 0);
    }
  }

  /** The sort-and-trim loop of `group_by_categories`. */
  method RankSections(c: Classifier, cands: seq<Post>, matched: seq<seq<Post>>) returns (sections: seq<seq<Post>>)
    requires |matched| == |c.table|
    requires forall k :: 0 <= k < |c.table| ==> matched[k] == Matched(c, cands, k)
    ensures |sections| == |c.table|
    ensures forall k :: 0 <= k < |c.table| ==> sections[k] == Section(c, cands, k)
  {
    sections := matched;
    var k := 0;
    while k < |c.table|
      invariant 0 <= k <= |c.table|
      invariant |sections| == |c.table|
      invariant forall m :: 0 <= m < k ==> sections[m] == Section(c, cands, m)
      invariant forall m :: k <= m < |c.table| ==> sections[m] == Matched(c, cands, m)
    {
      sections := sections[k := TakeLimit(SortByScoreDesc(sections[k]), c.table[k].limit)];
      k := k + 1;
    }
  }

  /** `group_by_categories(candidates)`: classification of every candidate
      in order, then ranking. Returns the sections, the per-category
      score-drop counters and the unmatched counter, each indexed by table
      position; every section is the stable descending-score sort of the
      posts placed in it, cut to its cap. */
  method GroupByCategories(c: Classifier, cands: seq<Post>)
    returns (sections: seq<seq<Post>>, droppedScore: seq<nat>, unmatched: nat)
    ensures |sections| == |c.table| && |droppedScore| == |c.table|
    ensures forall k :: 0 <= k < |c.table| ==> sections[k] == Section(c, cands, k)
    ensures forall k :: 0 <= k < |c.table| ==> droppedScore[k] == CountBelow(c, cands, k)
    ensures unmatched == CountUnmatched(c, cands)
  {
    var placed;
    placed, droppedScore, unmatched := ClassifyAll(c, cands);
    sections := RankSections(c, cands, placed);
  }

  /** The classification loop of `group_by_categories`: every candidate in
      order, giving the untrimmed sections and the counters. */
  method ClassifyAll(c: Classifier, cands: seq<Post>)
    returns (placed: seq<seq<Post>>, droppedScore: seq<nat>, unmatched: nat)
    ensures |placed| == |c.table| && |droppedScore| == |c.table|
    ensures forall k :: 0 <= k < |c.table| ==> placed[k] == Matched(c, cands, k)
    ensures forall k :: 0 <= k < |c.table| ==> droppedScore[k] == CountBelow(c, cands, k)
    ensures unmatched == CountUnmatched(c, cands)
  {
    placed := seq(|c.table|, _ => []);
    droppedScore := seq(|c.table|, _ => 0);
    unmatched := 0;
    var i := 0;
    while i < |cands|
      invariant 0 <= i <= |cands|
      invariant |placed| == |c.table| && |droppedScore| == |c.table|
      invariant forall k :: 0 <= k < |c.table| ==> placed[k] == Matched(c, cands[..i], k)
      invariant forall k :: 0 <= k < |c.table| ==> droppedScore[k] == CountBelow(c, cands[..i], k)
      invariant unmatched == CountUnmatched(c, cands[..i])
    {
      var placed0, dropped0 := placed, droppedScore;
      var matched;
      placed, droppedScore, matched := ClassifyOne(c, cands[i], placed, droppedScore);
      if !matched {
        unmatched := unmatched + 1;
      }
      GroupStep(c, cands, i, placed0, dropped0, placed, droppedScore);
      CountUnmatchedSnoc(c, cands[..i], cands[i]);
      assert cands[..i + 1] == cands[..i] + [cands[i]];
      i := i + 1;
    }
    assert cands[..i] == cands;
  }

  /** What every final section satisfies: it is sorted by descending score,
      no longer than its cap, and holds only posts of the candidates that
      were placed in this category (so scoring at least `MIN_SCORE`); it is
      a prefix of the stable sort of the placed posts, all of them when the
      category has no cap, and for every score it keeps the earliest placed
      posts with that score, in candidate order. */
  lemma SectionFacts(c: Classifier, cands: seq<Post>, k: nat)
    requires k < |c.table|
    ensures var r := Section(c, cands, k);
      && SortedDesc(r)
      && (c.table[k].limit.Some? ==> |r| <= c.table[k].limit.value)
      && (forall p :: p in r ==> p in cands && RouteOf(c, p) == Placed(k) && p.score >= c.minScore)
      && r <= SortByScoreDesc(Matched(c, cands, k))
      && (c.table[k].limit.None? ==> multiset(r) == multiset(Matched(c, cands, k)))
      && (forall v :: WithScore(r, v) <= WithScore(Matched(c, cands, k), v))
  {
    MatchedMembers(c, cands, k);
    SectionWithinMatched(c, cands, k);
    var m := Matched(c, cands, k);
    forall v
      ensures WithScore(Section(c, cands, k), v) <= WithScore(m, v)
    {
      WithScorePrefix(Section(c, cands, k), SortByScoreDesc(m), v);
      SortStable(m, v);
    }
  }

  /** Every post of a final section was placed in it. */
  lemma SectionWithinMatched(c: Classifier, cands: seq<Post>, k: nat)
    requires k < |c.table|
    ensures forall p :: p in Section(c, cands, k) ==> p in Matched(c, cands, k)
  {
    var m := Matched(c, cands, k);
    var sorted := SortByScoreDesc(m);
    var r := Section(c, cands, k);
    forall p | p in r
      ensures p in m
    {
      var i :| 0 <= i < |r| && r[i] == p;
      assert sorted[i] == p;
      assert p in multiset(sorted);
    }
  }

  /** A post lands in at most one section. */
  lemma SectionsExclusive(c: Classifier, cands: seq<Post>, k1: nat, k2: nat, p: Post)
    requires k1 < |c.table| && k2 < |c.table|
    requires p in Section(c, cands, k1) && p in Section(c, cands, k2)
    ensures k1 == k2
  {
    SectionFacts(c, cands, k1);
    SectionFacts(c, cands, k2);
  }

  /** A post whose flair matches some category but whose score is below
      `MIN_SCORE` appears in no section at all: it is not retried against
      later categories. */
  lemma BelowScoreNowhere(c: Classifier, cands: seq<Post>, p: Post, k: nat)
    requires FirstMatch(c, c.table, FlairKey(c, p)).Some? && p.score < c.minScore
    requires k < |c.table|
    ensures p !in Section(c, cands, k)
  {
    SectionFacts(c, cands, k);
  }

  /** `dropped_score` summed over the first `n` categories. */
  function SumBelow(c: Classifier, cands: seq<Post>, n: nat): nat {
    if n == 0 then 0 else SumBelow(c, cands, n - 1) + CountBelow(c, cands, n - 1)
  }

  /** The sizes of the untrimmed sections of the first `n` categories, summed. */
  function SumPlaced(c: Classifier, cands: seq<Post>, n: nat): nat {
    if n == 0 then 0 else SumPlaced(c, cands, n - 1) + |Matched(c, cands, n - 1)|
  }

  lemma {:induction false} SumBelowSnoc(c: Classifier, xs: seq<Post>, p: Post, n: nat)
    ensures SumBelow(c, xs + [p], n) == SumBelow(c, xs, n) + (if RouteOf(c, p).BelowScore? && RouteOf(c, p).category < n then 1 else 0)
  {
    if n > 0 {
      SumBelowSnoc(c, xs, p, n - 1);
      CountBelowSnoc(c, xs, p, n - 1);
    }
  }

  lemma {:induction false} SumPlacedSnoc(c: Classifier, xs: seq<Post>, p: Post, n: nat)
    ensures SumPlaced(c, xs + [p], n) == SumPlaced(c, xs, n) + (if RouteOf(c, p).Placed? && RouteOf(c, p).category < n then 1 else 0)
  {
    if n > 0 {
      SumPlacedSnoc(c, xs, p, n - 1);
      MatchedSnoc(c, xs, p, n - 1);
    }
  }

  /** Every candidate is counted exactly once: as unmatched, as dropped for
      its score, or as placed in a section (before trimming). */
  lemma {:induction false} Conservation(c: Classifier, cands: seq<Post>)
    ensures CountUnmatched(c, cands) + SumBelow(c, cands, |c.table|) + SumPlaced(c, cands, |c.table|) == |cands|
    decreases |cands|
  {
    if cands == [] {
      ZeroSums(c, |c.table|);
    } else {
      var n := |cands| - 1;
      var init, p := cands[..n], cands[n];
      Conservation(c, init);
      assert cands == init + [p];
      var r := RouteOf(c, p);
      var a := if r == Unmatched then 1 else 0;
      var b := if r.BelowScore? && r.category < |c.table| then 1 else 0;
      var d := if r.Placed? && r.category < |c.table| then 1 else 0;
      CountUnmatchedSnoc(c, init, p);
      SumBelowSnoc(c, init, p, |c.table|);
      SumPlacedSnoc(c, init, p, |c.table|);
      assert CountUnmatched(c, cands) == CountUnmatched(c, init) + a;
      assert SumBelow(c, cands, |c.table|) == SumBelow(c, init, |c.table|) + b;
      assert SumPlaced(c, cands, |c.table|) == SumPlaced(c, init, |c.table|) + d;
      assert a + b + d == 1;
    }
  }

  lemma {:induction false} ZeroSums(c: Classifier, n: nat)
    ensures SumBelow(c, [], n) == 0 && SumPlaced(c, [], n) == 0
  {
    if n > 0 {
      ZeroSums(c, n - 1);
    }
  }

  /** The untrimmed sections inherit distinct ids from the candidates. */
  lemma {:induction false} MatchedDistinct(c: Classifier, cands: seq<Post>, k: nat)
    requires DistinctIds(cands)
    ensures DistinctIds(Matched(c, cands, k))
    decreases |cands|
  {
    if cands != [] {
      var n := |cands| - 1;
      var init := cands[..n];
      assert DistinctIds(init);
      MatchedDistinct(c, init, k);
      MatchedMembers(c, init, k);
      var m := Matched(c, init, k);
      forall p | p in m
        ensures p.id != cands[n].id
      {
        var i :| 0 <= i < n && init[i] == p;
      }
    }
  }

  /** Over candidates with distinct ids, no id occurs twice in the final
      sections: not within one section, and not in two different ones. */
  lemma SectionsDistinct(c: Classifier, cands: seq<Post>, k1: nat, k2: nat)
    requires DistinctIds(cands) && k1 < |c.table| && k2 < |c.table|
    ensures DistinctIds(Section(c, cands, k1))
    ensures k1 != k2 ==> forall p, q :: p in Section(c, cands, k1) && q in Section(c, cands, k2) ==> p.id != q.id
  {
    MatchedDistinct(c, cands, k1);
    var sorted := SortByScoreDesc(Matched(c, cands, k1));
    DistinctIdsPermutation(Matched(c, cands, k1), sorted);
    var r := Section(c, cands, k1);
    assert forall i :: 0 <= i < |r| ==> r[i] == sorted[i];
    SectionFacts(c, cands, k1);
    SectionFacts(c, cands, k2);
    forall p, q | p in Section(c, cands, k1) && q in Section(c, cands, k2) && p.id == q.id
      ensures k1 == k2
    {
      SameIdSameEntry(cands, p, q);
    }
  }
}
