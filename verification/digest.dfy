/**
 * The decision logic of `build_markdown`, `is_event_period` and
 * `clean_one_line`: whether the event window is open, the post title, the
 * optional event block, and one block per category in `CATEGORY_ORDER`,
 * each either a placeholder or a numbered list of entries. The digest is
 * kept as structured blocks rather than Markdown text.
 */
module Digest {
  import opened Wrappers
  import opened Text
  import opened Posts
  import opened Categories

  /** A calendar date as `datetime.date` holds it. */
  datatype Date = Date(year: int, month: int, day: int)

  /** A date `datetime.date` would accept (days are only bounded by 31 here:
      the comparison below does not depend on month lengths). */
  predicate ValidDate(d: Date) {
    1 <= d.month <= 12 && 1 <= d.day <= 31
  }

  /** `a <= b` on `datetime.date`: by year, then month, then day. */
  predicate OnOrBefore(a: Date, b: Date) {
    || a.year < b.year
    || (a.year == b.year && a.month < b.month)
    || (a.year == b.year && a.month == b.month && a.day <= b.day)
  }

  /** The date's position in a numbering that leaves room for 31 days in
      every month. */
  function DayNumber(d: Date): int {
    (d.year * 12 + (d.month - 1)) * 31 + (d.day - 1)
  }

  lemma MonthNumberOrder(a: Date, b: Date)
    requires ValidDate(a) && ValidDate(b)
    ensures a.year * 12 + (a.month - 1) < b.year * 12 + (b.month - 1) <==>
      a.year < b.year || (a.year == b.year && a.month < b.month)
  {
  }

  lemma ScaledOrder(x: int, y: int, i: int, j: int)
    requires 0 <= i < 31 && 0 <= j < 31
    ensures x < y ==> x * 31 + i < y * 31 + j
  {
    if x < y {
      assert (y - x) * 31 >= 31;
    }
  }

  /** The field-by-field comparison agrees with comparing day numbers:
      it is the calendar order. */
  lemma OnOrBeforeIsDayOrder(a: Date, b: Date)
    requires ValidDate(a) && ValidDate(b)
    ensures OnOrBefore(a, b) <==> DayNumber(a) <= DayNumber(b)
  {
    var ma := a.year * 12 + (a.month - 1);
    var mb := b.year * 12 + (b.month - 1);
    MonthNumberOrder(a, b);
    MonthNumberOrder(b, a);
    ScaledOrder(ma, mb, a.day - 1, b.day - 1);
    ScaledOrder(mb, ma, b.day - 1, a.day - 1);
    if ma == mb {
      assert a.year == b.year && a.month == b.month;
    }
  }

  /** `is_event_period()`. `start` and `end` are `EVENT_START` and
      `EVENT_END` once parsed: `None` when the variable is empty or
      `datetime.fromisoformat` rejects it, which both make the answer
      `False`. `today` is the local date. */
  function IsEventPeriod(start: Option<Date>, end: Option<Date>, today: Date): (r: bool)
    ensures r ==> start.Some? && end.Some?
    ensures r ==> OnOrBefore(start.value, end.value)
  {
    match (start, end)
    case (Some(s), Some(e)) => OnOrBefore(s, today) && OnOrBefore(today, e)
    case _ => false
  }

  /** The window is the closed interval of days from `start` to `end`: it
      is open on both end days, and on valid dates it is open exactly on
      the days numbered between the two. */
  lemma EventPeriodInclusive(s: Date, e: Date, today: Date)
    requires ValidDate(s) && ValidDate(e) && ValidDate(today)
    ensures IsEventPeriod(Some(s), Some(e), today) <==> DayNumber(s) <= DayNumber(today) <= DayNumber(e)
    ensures OnOrBefore(s, e) ==> IsEventPeriod(Some(s), Some(e), s) && IsEventPeriod(Some(s), Some(e), e)
  {
    OnOrBeforeIsDayOrder(s, today);
    OnOrBeforeIsDayOrder(today, e);
  }

  /** A window from 2024-05-01 to 2024-05-07 named "Spring Event" shows on
      2024-05-03 in both the title and the event block, and on 2024-05-08 in
      neither. */
  lemma SpringEventWindow()
    ensures var start, end := Some(Date(2024, 5, 1)), Some(Date(2024, 5, 7));
      var during := IsEventPeriod(start, end, Date(2024, 5, 3));
      var after := IsEventPeriod(start, end, Date(2024, 5, 8));
      && Title(during, "Spring Event") == BaseTitle + TitleSeparator + "Spring Event"
      && EventBlock(during, "Spring Event", "").Some?
      && Title(after, "Spring Event") == BaseTitle
      && EventBlock(after, "Spring Event", "").None?
  {
  }

  /** Asked on the same day, the two questions agree: the title carries
      the event name exactly when the event block is present. */
  lemma SameDayEventAgrees(start: Option<Date>, end: Option<Date>, day: Date, eventName: string, eventBody: string)
    ensures var active := IsEventPeriod(start, end, day);
      Title(active, eventName) != BaseTitle <==> EventBlock(active, eventName, eventBody).Some?
  {
  }

  /** Asked on either side of midnight at the end of the window, the two
      questions disagree: the title announces the event and the event block
      is missing. */
  lemma MidnightSplitsEvent()
    ensures var start, end := Some(Date(2024, 5, 1)), Some(Date(2024, 5, 7));
      && Title(IsEventPeriod(start, end, Date(2024, 5, 7)), "Spring Event") == BaseTitle + TitleSeparator + "Spring Event"
      && EventBlock(IsEventPeriod(start, end, Date(2024, 5, 8)), "Spring Event", "").None?
  {
  }

  /** The title every digest starts from: "✨ Our Highlights✨". */
  const BaseTitle: string := "\U{2728} Our Highlights\U{2728}"

  /** The separator before the event name in the title: " · ". */
  const TitleSeparator: string := " \U{B7} "

  /** The event shows (in the title and as a block) only while the window
      is open and `EVENT_NAME` is non-empty. */
  predicate EventShown(active: bool, eventName: string) {
    active && eventName != []
  }

  /** The post title. */
  function Title(active: bool, eventName: string): (r: string)
    ensures StartsWith(r, BaseTitle)
    ensures EventShown(active, eventName) <==> |r| > |BaseTitle|
    ensures EventShown(active, eventName) ==> r[|BaseTitle|..] == TitleSeparator + eventName
  {
    if EventShown(active, eventName) then BaseTitle + TitleSeparator + eventName else BaseTitle
  }

  /** The bold event name and the optional `EVENT_BODY` paragraph. */
  datatype EventNotice = EventNotice(name: string, body: Option<string>)

  /** The event block between the introduction and the wiki line. */
  function EventBlock(active: bool, eventName: string, eventBody: string): (r: Option<EventNotice>)
    ensures r.Some? <==> EventShown(active, eventName)
    ensures r.Some? ==> r.value.name == eventName
    ensures r.Some? ==> (r.value.body.Some? <==> eventBody != []) && r.value.body.GetOr(eventBody) == eventBody
  {
    if EventShown(active, eventName) then
      Some(EventNotice(eventName, if eventBody != [] then Some(eventBody) else None))
    else None
  }

  /** The text before the first `>` (all of it when there is none): what
      `re.sub(r"(?s)>.*?$", "", text)` leaves of a text without line
      breaks. */
  function BeforeQuote(s: string): (r: string)
    ensures r <= s
    ensures forall k :: 0 <= k < |r| ==> r[k] != '>'
    ensures |r| < |s| ==> s[|r|] == '>'
    decreases |s|
  {
    if s == [] || s[0] == '>' then [] else [s[0]] + BeforeQuote(s[1..])
  }

  /** A text with no `>` is kept whole. */
  lemma BeforeQuoteNoQuote(s: string)
    requires NoQuote(s)
    ensures BeforeQuote(s) == s
  {
  }

  /** No whitespace but single spaces. */
  predicate SingleSpaced(s: string) {
    && (forall k :: 0 <= k < |s| ==> s[k] == ' ' || !IsWhitespace(s[k]))
    && NoDoubleSpace(s)
  }

  /** No `>` anywhere. */
  predicate NoQuote(s: string) {
    forall k :: 0 <= k < |s| ==> s[k] != '>'
  }

  /** What `clean_one_line` produces: no whitespace but single spaces, no
      `>`, and no whitespace at either end. */
  predicate IsOneLine(s: string) {
    && SingleSpaced(s)
    && NoQuote(s)
    && (|s| > 0 ==> !IsWhitespace(s[0]) && !IsWhitespace(s[|s| - 1]))
  }

  /** `clean_one_line(text)`: whitespace runs collapsed to one space and the
      result trimmed, then everything from the first `>` on cut off and the
      rest trimmed again. */
  function CleanOneLine(t: string): string {
    Strip(BeforeQuote(Strip(CollapseRuns(Blank, t))))
  }

  /** A slice keeps the single spacing and the absence of `>`. */
  lemma SliceKeepsShape(s: string, i: nat, j: nat)
    requires i <= j <= |s|
    ensures SingleSpaced(s) ==> SingleSpaced(s[i..j])
    ensures NoQuote(s) ==> NoQuote(s[i..j])
  {
    var t := s[i..j];
    assert forall k :: 0 <= k < |t| ==> t[k] == s[i + k];
  }

  lemma CollapsedStripShape(t: string)
    ensures SingleSpaced(Strip(CollapseRuns(Blank, t)))
  {
    var a := CollapseRuns(Blank, t);
    CollapseRunsShape(Blank, t);
    StripSpec(a);
    SliceKeepsShape(a, StripOffset(a), StripOffset(a) + |Strip(a)|);
  }

  lemma BeforeQuoteShape(b: string)
    requires SingleSpaced(b)
    ensures SingleSpaced(BeforeQuote(b)) && NoQuote(BeforeQuote(b))
  {
    var c := BeforeQuote(b);
    SliceKeepsShape(b, 0, |c|);
    assert c == b[0..|c|];
  }

  lemma StripShape(c: string)
    requires SingleSpaced(c) && NoQuote(c)
    ensures IsOneLine(Strip(c))
  {
    StripSpec(c);
    SliceKeepsShape(c, StripOffset(c), StripOffset(c) + |Strip(c)|);
  }

  /** Cleaning always yields a one-line text. */
  lemma CleanOneLineShape(t: string)
    ensures IsOneLine(CleanOneLine(t))
  {
    CollapsedStripShape(t);
    BeforeQuoteShape(Strip(CollapseRuns(Blank, t)));
    StripShape(BeforeQuote(Strip(CollapseRuns(Blank, t))));
  }

  /** A one-line text is left unchanged by cleaning. */
  lemma CleanOneLineFixes(s: string)
    requires IsOneLine(s)
    ensures CleanOneLine(s) == s
  {
    CollapseRunsFixed(Blank, s);
    StripSpec(s);
    BeforeQuoteNoQuote(s);
  }

  /** The texts cleaning leaves unchanged are exactly the one-line texts,
      so cleaning twice is cleaning once. */
  lemma CleanOneLineFixedPoints(s: string)
    ensures CleanOneLine(s) == s <==> IsOneLine(s)
    ensures CleanOneLine(CleanOneLine(s)) == CleanOneLine(s)
  {
    CleanOneLineShape(s);
    if IsOneLine(s) {
      CleanOneLineFixes(s);
    }
    CleanOneLineFixes(CleanOneLine(s));
  }

  /** How a post is credited: `u/<name>`, or `[deleted]` once the account is
      gone. */
  function AuthorLabel(author: Option<string>): (r: string)
    ensures author.Some? ==> StartsWith(r, "u/") && r[2..] == author.value
    ensures author.None? ==> r == "[deleted]"
  {
    match author
    case Some(name) => "u/" + name
    case None => "[deleted]"
  }

  /** One numbered line of a section: its 1-based rank, the cleaned title,
      the credited author and the post id the link is built from. */
  datatype Entry = Entry(rank: nat, title: string, author: string, postId: string)

  /** A section's body: the placeholder `_No items this week._` or a
      numbered list. */
  datatype Block = NoItems | Items(entries: seq<Entry>)

  /** One `## <icon> <label>` heading with its body. */
  datatype SectionBlock = SectionBlock(key: string, icon: string, displayName: string, body: Block)

  /** What `build_markdown` decides: the title, the event block, and the
      category sections in display order. The fixed introduction, wiki
      line and footer are the same in every digest and are left out. */
  datatype Digest = Digest(title: string, event: Option<EventNotice>, sections: seq<SectionBlock>)

  /** `CATEGORY_ORDER`: the display order, which differs from the table's
      declaration order in that "sneak peek" comes before
      "actors&couples". */
  const CategoryOrder: seq<string> := [
    "drama review", "vertical vortex", "discussions", "recommendations",
    "sneak peek", "actors&couples", "fun", "found&shared"]

  /** The position in the table of the category with this key. */
  function IndexOfKey(table: seq<Category>, key: string): (r: Option<nat>)
    ensures r.Some? ==> r.value < |table| && table[r.value].key == key
    ensures r.None? <==> forall i :: 0 <= i < |table| ==> table[i].key != key
    ensures r.Some? ==> forall i :: 0 <= i < r.value ==> table[i].key != key
    decreases |table|
  {
    if table == [] then None
    else if table[0].key == key then Some(0)
    else match IndexOfKey(table[1..], key)
      case None => None
      case Some(i) => Some(i + 1)
  }

  /** `CATEGORIES[key]` succeeds for every key of the order. */
  predicate CoversOrder(table: seq<Category>, order: seq<string>) {
    forall i :: 0 <= i < |order| ==> IndexOfKey(table, order[i]).Some?
  }

  /** The entries of a non-empty section, ranked from 1. */
  function Entries(posts: seq<Post>): (r: seq<Entry>)
    ensures |r| == |posts|
    ensures forall i :: 0 <= i < |r| ==> r[i].rank == i + 1 && r[i].postId == posts[i].id
    ensures forall i :: 0 <= i < |r| ==> r[i].title == CleanOneLine(posts[i].title) && r[i].author == AuthorLabel(posts[i].author)
  {
    seq(|posts|, i requires 0 <= i < |posts| =>
      Entry(i + 1, CleanOneLine(posts[i].title), AuthorLabel(posts[i].author), posts[i].id))
  }

  /** The block of one category: its heading fields and either the
      placeholder or its entries. */
  function BuildSection(cat: Category, posts: seq<Post>): (r: SectionBlock)
    ensures r.key == cat.key && r.icon == cat.icon && r.displayName == cat.displayName
    ensures r.body.NoItems? <==> posts == []
  {
    SectionBlock(cat.key, cat.icon, cat.displayName, if posts == [] then NoItems else Items(Entries(posts)))
  }

  /** `build_markdown(sections)`. `sections[k]` is the final list of the
      table's `k`-th category; the sections are emitted in `order`. The
      title and the event block each ask `is_event_period()` afresh, so
      each has its own answer: `titleActive` and `blockActive`. */
  function BuildDigest(table: seq<Category>, order: seq<string>, sections: seq<seq<Post>>,
                       titleActive: bool, blockActive: bool, eventName: string, eventBody: string): (r: Digest)
    requires |sections| == |table| && CoversOrder(table, order)
    ensures r.title == Title(titleActive, eventName)
    ensures r.event == EventBlock(blockActive, eventName, eventBody)
    ensures |r.sections| == |order|
    ensures forall i :: 0 <= i < |order| ==>
      var k := IndexOfKey(table, order[i]).value;
      && r.sections[i].key == order[i]
      && r.sections[i] == BuildSection(table[k], sections[k])
  {
    Digest(
      Title(titleActive, eventName),
      EventBlock(blockActive, eventName, eventBody),
      seq(|order|, i requires 0 <= i < |order| =>
        var k := IndexOfKey(table, order[i]).value;
        BuildSection(table[k], sections[k])))
  }

  /** `CATEGORIES` serves every key of `CATEGORY_ORDER`, at the
      positions 0, 1, 2, 3, 5, 4, 6, 7: the display order is a permutation
      of the declaration order. */
  lemma TableCoversOrder(dramaReviewLimit: nat, discussionsLimit: nat)
    ensures var table := CategoryTable(dramaReviewLimit, discussionsLimit);
      && CoversOrder(table, CategoryOrder)
      && (forall i :: 0 <= i < |CategoryOrder| ==> IndexOfKey(table, CategoryOrder[i]).value == DisplayPosition(i))
      && |CategoryOrder| == |table|
  {
    var table := CategoryTable(dramaReviewLimit, discussionsLimit);
    forall i | 0 <= i < |CategoryOrder|
      ensures IndexOfKey(table, CategoryOrder[i]) == Some(DisplayPosition(i))
    {
      IndexOfFirst(table, CategoryOrder[i], DisplayPosition(i));
    }
  }

  /** The key found is the first occurrence. */
  lemma IndexOfFirst(table: seq<Category>, key: string, i: nat)
    requires i < |table| && table[i].key == key
    requires forall j :: 0 <= j < i ==> table[j].key != key
    ensures IndexOfKey(table, key) == Some(i)
  {
  }

  /** The table position shown at display position `i`. */
  function DisplayPosition(i: nat): nat {
    if i == 4 then 5 else if i == 5 then 4 else i
  }
}
