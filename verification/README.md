# Weekly highlights digest — a Dafny model

This project models the decision logic of `reddit_highlights_bot.py`. Once a week that bot:
- collects a subreddit's submissions from the last seven days;
- sorts them into categories by their link flair;
- ranks each category by score and caps its length;
- assembles a titled digest;
- pins the digest into a sticky slot, first unpinning the previous digest if the bot owns it.

Everything that talks to Reddit is replaced by its inputs (the listings the two feeds yield) or by oracle answers (whether a call succeeded). The environment configuration becomes explicit parameters.

Modules, one per component of the script:

- `Text`: Python's `str.isspace` set; argument-less `strip()`; `re.sub(C + "+", " ", s)` for the two classes `\s` and `[^a-z0-9]`; and substring search.
- `Flair`: `norm_flair`. The Unicode database (NFKD decomposition, the "symbol" general categories, full lower-casing) is a parameter record `UnicodeTables`. Two predicates state what the proofs need of it:
  - `FixesKeyChars`: `a-z`, `0-9` and the space map to themselves.
  - `AsciiFaithful`: on ASCII the tables agree with the Unicode database.
- `Posts`: the submission record and id helpers.
- `Collector`: `fetch_candidates_7days_hybrid` as a fold over the two given listings. It has two parts:
  - `Keep`, a reference definition: the first qualifying occurrence of every id.
  - `CollectCandidates`, the code's two loops with their `seen` set, proved equal to `Keep`.
- `Ranking`: Python's stable `list.sort(key=score, reverse=True)`, modelled as insertion sort, and the truncation to a cap.
- `Categories`: the `CATEGORIES` table and `group_by_categories`:
  - first-match classification in declaration order;
  - the `MIN_SCORE` drop without fall-through;
  - the drop counters;
  - ranking of each section.
- `Digest`: `is_event_period`, the title, the event block, `clean_one_line`, and the section blocks in `CATEGORY_ORDER`. The digest is kept as structured blocks rather than as Markdown text.
- `Slot`: `is_our_highlight` and the pin-slot reconciler (`unsticky_previous_in_slot` and `maybe_sticky_submission`), as a transition function over phases that records every call to Reddit.
- `Pipeline`: steps 1–3 of `main()`: collect, stop when there is nothing, group, build.

Three behaviours of the code the model keeps:
- **Collector access errors.** A `Forbidden` error from either listing makes the collector return an empty list, even when `/new` had already yielded posts. A message about the 403 is printed, but the return value does not distinguish "no access" from "no posts", and the run then stops exactly as it does for an empty week.
- **Two reads of the clock.** The title and the event block each call `is_event_period()`, and each call reads the local date anew. A digest built across midnight at the end of the window can therefore name the event in its title and yet have no event block (`Digest.MidnightSplitsEvent`). The model gives each read its own day.
- **Pin and sort failures.** Pinning and setting the suggested sort share one `try` block. A failed pin therefore also skips the sort; the two steps are not independent best-effort steps.

## Model

| member | source | states |
|---|---|---|
| Flair.NormFlairIsKey | reddit_highlights_bot.py:171-179 | every normalised flair holds only `a-z`, `0-9` and single spaces, with no space at either end; an empty or missing flair gives the empty key |
| Flair.NormFlairIdempotent | reddit_highlights_bot.py:171-179 | normalising a normalised flair changes nothing |
| Flair.NormFlairFixedPoints | reddit_highlights_bot.py:171-179 | the strings the normaliser leaves unchanged are exactly the canonical keys |
| Flair.NormFlairFixesKeys | reddit_highlights_bot.py:175-179 | with tables that fix the key characters, a canonical key passes decomposition, symbol removal, lower-casing, both run collapses and the trim unchanged |
| Flair.DropSymbolsCounts | reddit_highlights_bot.py:176 | symbol removal deletes every occurrence of each symbol and keeps every other character exactly as often as it occurs |
| Flair.DropSymbolsAppend | reddit_highlights_bot.py:176 | symbol removal works character by character, so it distributes over concatenation and keeps the order of what it keeps |
| Flair.LowerAppend | reddit_highlights_bot.py:177 | lower-casing works character by character, so it distributes over concatenation |
| Flair.LowerAscii | reddit_highlights_bot.py:177 | on ASCII input, with ASCII-faithful tables, lower-casing maps exactly `A-Z` to `a-z`, one character for one |
| Flair.AsciiFlairKey | reddit_highlights_bot.py:171-179 | with ASCII-faithful tables, an ASCII flair without symbols whose letter-by-letter lower-case form is a canonical key normalises to that key |
| Flair.TwoWordFlairKey | reddit_highlights_bot.py:171-179 | with ASCII-faithful tables, two words of letters and digits joined by any run of ASCII punctuation and blanks normalise to the two lower-case words joined by one space |
| Flair.SpellingsShareKey | reddit_highlights_bot.py:171-179 | with ASCII-faithful tables, every spelling of the same two words with its own such separator normalises to the same key |
| Categories.FoundSharedAliasesAgree | reddit_highlights_bot.py:106 | with ASCII-faithful tables, "Found & Shared", "Found&Shared" and "Found/Shared" all normalise to "found shared" |
| Categories.ActorsCouplesAliasesAgree | reddit_highlights_bot.py:88 | with ASCII-faithful tables, "Actors/Couples", "Actors & Couples" and "Actors&Couples" all normalise to "actors couples" |
| Flair.NormFlairKeepsAlnum | reddit_highlights_bot.py:171-179 | with ASCII-faithful tables, every ASCII letter and digit of a flair survives normalisation: the key has at least as many key letters and digits as the flair has |
| Flair.AsciiFaithfulFixesKeys | reddit_highlights_bot.py:175-177 | tables that agree with Unicode on ASCII leave `a-z`, `0-9` and the space unchanged under decomposition and lower-casing, and do not count them as symbols |
| Text.CollapseRunsShape | reddit_highlights_bot.py:178-179 | after `re.sub(C+, " ")` every character is a space or outside the class, no two spaces are adjacent, and only the empty string collapses to the empty string |
| Text.CollapseRunsKeepsOutside | reddit_highlights_bot.py:178-179 | collapsing changes only class characters: the characters outside the class, in order, are those of the input |
| Text.CollapseWholeRun | reddit_highlights_bot.py:178-179 | a non-empty run made only of class characters collapses to exactly one space |
| Text.CollapseRunsAppend | reddit_highlights_bot.py:178-179 | when the join of two strings does not fall inside a run, collapsing the whole is collapsing each part and joining them, so each maximal run of the input becomes one space in its place |
| Text.CollapseRunsFixed | reddit_highlights_bot.py:178-179 | a string whose only class characters are single spaces is unchanged by collapsing |
| Text.StripSpec | reddit_highlights_bot.py:179 | `strip()` returns a slice of its input; everything cut off before and after that slice is whitespace, and neither end of the result is; a string without whitespace ends is unchanged; an all-whitespace string becomes empty |
| Text.DropWhileSpec | reddit_highlights_bot.py:179 | the removed prefix consists of whitespace only, and the kept suffix does not start with whitespace |
| Text.DropWhileEndSpec | reddit_highlights_bot.py:179 | the removed suffix consists of whitespace only, and the kept prefix does not end with whitespace |
| Text.ContainsInfix | reddit_highlights_bot.py:372 | a pattern placed anywhere in a string is found by the substring test |
| Text.ContainsAt | reddit_highlights_bot.py:372 | when the substring test succeeds, the pattern occurs at some position of the string |
| Text.ContainsIff | reddit_highlights_bot.py:372 | the substring test holds exactly when the pattern occurs at some position |
| Posts.Take | reddit_highlights_bot.py:190-202 | a listing bounded by `limit=n` yields a prefix of length `min(n, available)` |
| Posts.DistinctIdsPermutation | reddit_highlights_bot.py:255 | reordering a list with distinct ids keeps the ids distinct |
| Collector.CollectCandidates | reddit_highlights_bot.py:182-221 | a `Forbidden` listing gives `[]`; otherwise the result is the reference `Keep` of `/new[:scan_limit]` followed by `/top[:max(1, scan_limit // 2)]`; the ids are distinct; nothing is NSFW; every post is created at or after `now` minus seven days |
| Collector.Visit | reddit_highlights_bot.py:190-212 | one loop iteration keeps `picked` equal to the reference over the visited prefix and `seen` equal to the ids picked |
| Collector.KeepPositions | reddit_highlights_bot.py:186-212 | the result is a subsequence of the scanned entries, taken exactly at the first qualifying occurrence of each id |
| Collector.KeepIds | reddit_highlights_bot.py:197-212 | the ids picked (the final `seen`) are exactly the ids of the qualifying scanned entries, so a skipped NSFW or stale copy never blocks a later one |
| Collector.KeepDistinct | reddit_highlights_bot.py:197-200 | no two collected posts share an id |
| Collector.KeptOnce | reddit_highlights_bot.py:190-212 | an id that qualifies anywhere in either listing is collected exactly once |
| Collector.KeepIdempotent | reddit_highlights_bot.py:186-212 | collecting the collected posts again changes nothing |
| Collector.KeepIdentity | reddit_highlights_bot.py:186-212 | a list of qualifying posts with distinct ids is collected unchanged |
| Collector.WindowBoundary | reddit_highlights_bot.py:184-199 | a post created exactly seven days before `now` is kept, and one created a second earlier is not |
| Ranking.SortByScoreDesc | reddit_highlights_bot.py:255 | the result is sorted by descending score and is a permutation of its input |
| Ranking.SortStable | reddit_highlights_bot.py:255 | for every score, the posts with that score keep their relative order (the sort is stable) |
| Ranking.InsertIndex | reddit_highlights_bot.py:255 | the insertion point is the first position whose entry scores below the new post: every entry before it scores at least as much |
| Ranking.InsertDescPlace | reddit_highlights_bot.py:255 | insertion puts the post at that insertion point and leaves the entries before and after it unchanged and in order |
| Ranking.InsertDescSorted | reddit_highlights_bot.py:255 | inserting into a descending list keeps it descending |
| Ranking.InsertDescWithScore | reddit_highlights_bot.py:255 | the inserted post goes after all earlier posts with the same score |
| Ranking.WithScorePrefix | reddit_highlights_bot.py:258 | truncation keeps, for every score, the earliest posts with that score |
| Ranking.TakeLimit | reddit_highlights_bot.py:256-260 | with a cap the result is the first `min(cap, length)` posts; without one it is the whole list |
| Categories.FunFlairRoute | reddit_highlights_bot.py:61-103 | with ASCII-faithful tables, a post flaired "Fun" goes to the "fun" category (the seventh in the table), because no alias of an earlier category normalises to "fun"; it is placed there, or dropped there when it scores below `MIN_SCORE` |
| Categories.NoLongerAliasMatches | reddit_highlights_bot.py:233-235 | with ASCII-faithful tables, a category none of whose raw flairs has as few ASCII letters and digits as the key has key characters does not accept the key |
| Categories.ShortKeyMisses | reddit_highlights_bot.py:233-235 | with ASCII-faithful tables, a category whose every raw flair holds four ASCII letters or digits in a row never accepts a key of at most three key characters |
| Categories.PlainFlairKey | reddit_highlights_bot.py:230-231 | a post whose flair is plain ASCII without symbols, and whose letter-by-letter lower-case form is a key, has that key |
| Categories.EarlierCategoriesMissFun | reddit_highlights_bot.py:61-97 | no alias of the six categories declared before "fun" normalises to "fun" |
| Categories.FirstMatch | reddit_highlights_bot.py:234-236 | the category chosen accepts the key and no earlier one in declaration order does; none is chosen exactly when no category accepts it |
| Categories.RouteOf | reddit_highlights_bot.py:233-245 | a placed post scores at least `MIN_SCORE` and a score-dropped one scores below it |
| Categories.RouteOfSpec | reddit_highlights_bot.py:233-245 | a post is unmatched exactly when no category accepts its flair; otherwise it goes to the first accepting category, placed there if and only if its score reaches `MIN_SCORE` |
| Categories.ClassifyOne | reddit_highlights_bot.py:229-245 | one pass of the inner loop appends the post to its category's list, or adds one to that category's score counter, or reports no match, as its route says; every other category is untouched |
| Categories.ClassifyAll | reddit_highlights_bot.py:229-245 | after the classification loop each category holds exactly its placed candidates in candidate order, and the counters count the candidates dropped for score and the unmatched ones |
| Categories.GroupStep | reddit_highlights_bot.py:229-245 | classifying one more candidate extends every category's list and drop counter by exactly that candidate's route |
| Categories.GroupByCategories | reddit_highlights_bot.py:224-262 | each returned section is the stable descending sort of its placed posts, cut to the cap; the drop counters and the unmatched counter count the candidates routed there |
| Categories.RankSections | reddit_highlights_bot.py:254-260 | the sort-and-trim loop turns every untrimmed list into its final section |
| Categories.MatchedMembers | reddit_highlights_bot.py:241 | a category's untrimmed list holds exactly the candidates placed there |
| Categories.SectionFacts | reddit_highlights_bot.py:254-260 | a final section is sorted, within its cap, holds only candidates placed in it (so at or above `MIN_SCORE`), is a prefix of the stable sort (all of it without a cap), and keeps the earliest posts of each score |
| Categories.SectionsExclusive | reddit_highlights_bot.py:234-242 | a post appears in at most one section |
| Categories.BelowScoreNowhere | reddit_highlights_bot.py:238-240 | a matched post scoring below `MIN_SCORE` appears in no section, not even a later matching one |
| Categories.Conservation | reddit_highlights_bot.py:229-245 | unmatched + dropped for score + placed equals the number of candidates |
| Categories.MatchedDistinct | reddit_highlights_bot.py:241 | over candidates with distinct ids, each untrimmed list has distinct ids |
| Categories.SectionsDistinct | reddit_highlights_bot.py:229-260 | over candidates with distinct ids, no id repeats within a section or across two sections |
| Digest.OnOrBeforeIsDayOrder | reddit_highlights_bot.py:148 | comparing dates field by field is comparing their day numbers |
| Digest.IsEventPeriod | reddit_highlights_bot.py:136-151 | the window is closed when either date is missing or unparsable; when open, the start is on or before the end |
| Digest.EventPeriodInclusive | reddit_highlights_bot.py:136-151 | the window is open exactly on the days from start to end, both end days included |
| Digest.SpringEventWindow | reddit_highlights_bot.py:269-294 | with a window from 2024-05-01 to 2024-05-07, the event shows in the title and body on 2024-05-03 and in neither on 2024-05-08 |
| Digest.Title | reddit_highlights_bot.py:267-273 | the title starts with "✨ Our Highlights✨" and continues with " · " and the event name exactly when the window is open and the name non-empty |
| Digest.EventBlock | reddit_highlights_bot.py:282-294 | the event block appears exactly when the window is open and the name non-empty; it carries the name, and the body paragraph exactly when `EVENT_BODY` is non-empty |
| Digest.BeforeQuote | reddit_highlights_bot.py:161 | the result is the prefix before the first `>`, or the whole text when there is none |
| Digest.CleanOneLineShape | reddit_highlights_bot.py:159-162 | a cleaned title has no whitespace other than single spaces, no `>`, and no whitespace at either end |
| Digest.CleanOneLineFixedPoints | reddit_highlights_bot.py:159-162 | cleaning leaves a text unchanged exactly when it already has that shape, so cleaning twice is cleaning once |
| Digest.AuthorLabel | reddit_highlights_bot.py:322 | an author is credited as `u/` followed by the name, and a deleted one as `[deleted]` |
| Digest.Entries | reddit_highlights_bot.py:319-330 | entries are numbered from 1 in section order and carry the cleaned title, the credited author and the post's id |
| Digest.BuildSection | reddit_highlights_bot.py:306-317 | a block carries its category's key, icon and label, and its body is the placeholder exactly when the section is empty |
| Digest.IndexOfKey | reddit_highlights_bot.py:307 | the lookup finds the first table entry with the key, or reports that none exists |
| Digest.BuildDigest | reddit_highlights_bot.py:265-337 | the title follows the first answer about the event window and the event block the second; there is one block per `CATEGORY_ORDER` key, in that order, built from that category's section |
| Digest.SameDayEventAgrees | reddit_highlights_bot.py:269-282 | when both reads of the window fall on the same day, the title names the event exactly when the event block is present |
| Digest.MidnightSplitsEvent | reddit_highlights_bot.py:269-282 | with a window ending 2024-05-07, a title read on that day names the event while a block read on 2024-05-08 is absent |
| Digest.TableCoversOrder | reddit_highlights_bot.py:61-121 | every `CATEGORY_ORDER` key is in `CATEGORIES`, at table positions 0,1,2,3,5,4,6,7: display order is a permutation of declaration order |
| Slot.LookupFailureKeepsTitle | reddit_highlights_bot.py:368-373 | a failing author lookup falsifies only the author half of the ownership test |
| Slot.AuthorCaseInsensitive | reddit_highlights_bot.py:369 | an author name equal to `USERNAME` up to ASCII case passes the author half |
| Slot.AuthorMatchesAscii | reddit_highlights_bot.py:369 | for ASCII names, the author half holds exactly when the name has the length of `USERNAME` and agrees with it letter by letter up to case |
| Slot.OwnTitleRecognised | reddit_highlights_bot.py:267-273 | every title the bot gives a digest passes the title half (it contains "our highlights" after lower-casing), whatever the author and event name |
| Slot.SlotNumber | reddit_highlights_bot.py:379 | the slot number is 1 or 2 |
| Slot.SlotNumberAscii | reddit_highlights_bot.py:379 | for an ASCII position, slot 2 is named exactly when the position, lower-cased and trimmed, reads "bottom", and slot 1 otherwise |
| Slot.Step | reddit_highlights_bot.py:375-409 | every step moves to a later phase and adds at most one call to the record; after the sort phase the run is done |
| Slot.PinCalls | reddit_highlights_bot.py:375-400 | the calls up to the pin hold at least the slot read and end with the pin into the configured slot; none of them sets the sort |
| Slot.RunFromPinning | reddit_highlights_bot.py:398-409 | from the pin on, a run makes the pin call and then the sort call only when the pin succeeded and a sort is configured; the pinned flag is the pin's success and the sort is applied only when both calls succeed |
| Slot.Run | reddit_highlights_bot.py:391-409 | a run ends in the done phase and only appends to the call record |
| Slot.ReconcileTrace | reddit_highlights_bot.py:375-409 | the whole run in closed form: one read of the slot; an unpin attempt exactly when the occupant is ours; always a pin attempt; a sort attempt exactly when the pin succeeded and a sort is configured; each change happens exactly when its call succeeds |
| Slot.ForeignOccupantKept | reddit_highlights_bot.py:381-386 | an occupant that is not ours, an empty slot or an unreadable one is never unpinned |
| Slot.OwnedOccupantUnpinnedFirst | reddit_highlights_bot.py:381-400 | an occupant that is ours is unpinned before the new post is pinned, and the pin follows even if the unpin failed |
| Slot.PinAlwaysAttempted | reddit_highlights_bot.py:387-401 | whatever happened to the read and the unpin, the pin is attempted, and the post is pinned exactly when the pin succeeds |
| Slot.SameSlot | reddit_highlights_bot.py:393-400 | the slot read and cleared is the slot the new post is pinned into |
| Slot.SortOnlyAfterPin | reddit_highlights_bot.py:400-409 | the suggested sort is applied only after a successful pin, and the sort call, if made, is the last call and immediately follows the pin |
| Pipeline.RunDigest | reddit_highlights_bot.py:419-429 | a run produces no digest exactly when there are no candidates (including no access); otherwise it produces the digest of the grouped candidates, its title and event block each judged on the day of its own read of the clock |
| Pipeline.DisplayedIds | reddit_highlights_bot.py:305-330 | the block at display position i lists, in order, the ids of the final section of the category CATEGORY_ORDER[i] |
| Pipeline.DigestListsPostsOnce | reddit_highlights_bot.py:305-330 | the digest lists each post at most once: no id repeats within a block or across two blocks |

## Left out

- The `praw`/`prawcore` client is left out because it is network I/O. The listings are inputs (`Listing`, with a flag for a `Forbidden` error), and the calls of the reconciler are oracle answers (`Oracles`). This covers `make_reddit`, `subreddit`, `submit`, `reply`, `mod.sticky` and `suggested_sort`.
- Loading the environment and `.env`, and the `int()` parsing of the settings, are left out. The settings are explicit parameters. The two configurable caps and `SCAN_LIMIT` are `nat`; a negative cap, which Python would turn into a slice from the end, is not modelled.
- Parsing `EVENT_START` and `EVENT_END` with `datetime.fromisoformat` is left out: the dates arrive already parsed, with `None` for empty or unparsable. The local "today" (timezone handling with `zoneinfo`, `now_local`, `to_local`, `iso_date_local`) is a parameter.
- The stripping of `EVENT_NAME`, `EVENT_BODY` and `SUGGESTED_SORT` at load time is left out; their values are taken as already stripped.
- `Digest.ValidDate` bounds days by 31 without month lengths. The calendar-order lemmas do not need month lengths, and parsing is outside the model.
- Creation times are whole seconds rather than the float `created_utc`.
- Unicode data is left out. NFKD decomposition, `unicodedata.category`, `str.lower` and `str.isspace` beyond the code points written out in `Text.IsWhitespace` are an uninterpreted parameter.
- Decomposition is applied per character, without NFKD's canonical reordering of combining marks. Reordering only permutes characters that all become separators, so the normalised key does not depend on it.
- Python's context-sensitive lower-casing (final sigma) is not modelled; it never produces `a-z` or `0-9`.
- Which key the table's emoji aliases normalise to is not proved. It depends on the Unicode category of each emoji, which the tables leave abstract. `Categories.FunFlairRoute` therefore covers the plain "Fun" flair. The emoji aliases of the earlier categories are still shown not to normalise to "fun", because their letters survive normalisation.
- Errors of the listings other than `Forbidden` are not modelled. In the code they escape the collector and end the run with an exception.
- The rendering of the Markdown text is left out: the fixed introduction, wiki line and footer, heading syntax, `submission_link` and its fallback, and thumbnails (`SHOW_THUMBNAILS`). The digest is kept as structured blocks carrying the post id a link is built from.
- `find_flair_template_id` and `apply_post_flair` are left out. They are lookups over a remote template list and do not influence the digest or the pin slot.
- The `TARGET_POST_ID` comment path, the dry-run branch and publishing are left out, because they are I/O after the digest is built.
- `DEBUG` logging and every `print` are left out. The drop counters are returned instead of printed.
