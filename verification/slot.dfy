/**
 * The pin-slot reconciler: `is_our_highlight`, `unsticky_previous_in_slot`
 * and `maybe_sticky_submission`. The calls to Reddit are replaced by oracle
 * answers; the reconciler is a transition function over phases that
 * records every call it makes and what each successful call changed.
 */
module Slot {
  import opened Wrappers
  import opened Text
  import opened Flair
  import opened Digest

  /** What reading `subm.author.name` gives: no author (a deleted account),
      a name, or an exception. */
  datatype AuthorLookup = NoAuthor | AuthorName(name: string) | LookupFails

  /** The post currently pinned in a slot, as far as ownership is concerned:
      its id, its title (`None` when the attribute is missing) and its
      author. */
  datatype Occupant = Occupant(id: string, title: Option<string>, author: AuthorLookup)

  /** The author half of `is_our_highlight`: the name equals `USERNAME`
      (missing reads as empty) after lower-casing both; a missing author or
      a failing lookup makes it false. */
  predicate AuthorIsUs(u: UnicodeTables, username: Option<string>, author: AuthorLookup) {
    match author
    case AuthorName(name) => Lower(u, name) == Lower(u, username.GetOr(""))
    case _ => false
  }

  /** The title half: the lower-cased title contains "our highlights". */
  predicate TitleIsOurs(u: UnicodeTables, title: Option<string>) {
    Contains(Lower(u, title.GetOr("")), "our highlights")
  }

  /** `is_our_highlight(subm)`. */
  predicate IsOurHighlight(u: UnicodeTables, username: Option<string>, occ: Occupant) {
    AuthorIsUs(u, username, occ.author) || TitleIsOurs(u, occ.title)
  }

  /** A failing author lookup falsifies only the author half: the post is
      still recognised by its title. */
  lemma LookupFailureKeepsTitle(u: UnicodeTables, username: Option<string>, occ: Occupant)
    requires occ.author.LookupFails?
    ensures IsOurHighlight(u, username, occ) <==> TitleIsOurs(u, occ.title)
  {
  }

  /** With tables faithful on ASCII, the name comparison ignores ASCII case:
      an author whose name differs from `USERNAME` only in the case of its
      letters is us. */
  lemma AuthorCaseInsensitive(u: UnicodeTables, name: string, username: string)
    requires AsciiFaithful(u)
    requires |name| == |username|
    requires forall k :: 0 <= k < |name| ==> name[k] as int < 128 && username[k] as int < 128
    requires forall k :: 0 <= k < |name| ==> AsciiLower(name[k]) == AsciiLower(username[k])
    ensures AuthorIsUs(u, Some(username), AuthorName(name))
  {
    LowerAscii(u, name);
    LowerAscii(u, username);
  }

  /** With tables faithful on ASCII, an ASCII author name passes the author
      half exactly when it has the length of an ASCII `USERNAME` and agrees
      with it letter by letter up to case. */
  lemma AuthorMatchesAscii(u: UnicodeTables, name: string, username: string)
    requires AsciiFaithful(u)
    requires forall k :: 0 <= k < |name| ==> name[k] as int < 128
    requires forall k :: 0 <= k < |username| ==> username[k] as int < 128
    ensures AuthorIsUs(u, Some(username), AuthorName(name)) <==>
      |name| == |username| && forall k :: 0 <= k < |name| ==> AsciiLower(name[k]) == AsciiLower(username[k])
  {
    LowerAscii(u, name);
    LowerAscii(u, username);
    if AuthorIsUs(u, Some(username), AuthorName(name)) {
      forall k | 0 <= k < |name|
        ensures AsciiLower(name[k]) == AsciiLower(username[k])
      {
        assert Lower(u, name)[k] == Lower(u, username)[k];
      }
    }
  }

  /** A word whose lower-case form is `lw`, placed anywhere in a title,
      puts `lw` in the lower-cased title. */
  lemma LoweredInfix(u: UnicodeTables, a: string, w: string, b: string, lw: string)
    requires Lower(u, w) == lw
    ensures Contains(Lower(u, a + w + b), lw)
  {
    LowerAppend(u, a + w, b);
    LowerAppend(u, a, w);
    ContainsInfix(Lower(u, a), lw, Lower(u, b));
  }

  /** A title with "Our Highlights" anywhere in it is recognised as ours. */
  lemma WordsRecognised(u: UnicodeTables, a: string, b: string)
    requires AsciiFaithful(u)
    ensures Contains(Lower(u, a + "Our Highlights" + b), "our highlights")
  {
    LowerAsciiIs(u, "Our Highlights", "our highlights");
    LoweredInfix(u, a, "Our Highlights", b, "our highlights");
  }

  /** Every title the bot gives its digests is recognised as ours, whoever
      the author turns out to be and whatever the event name. */
  lemma OwnTitleRecognised(u: UnicodeTables, username: Option<string>, id: string, author: AuthorLookup,
                           active: bool, eventName: string)
    requires AsciiFaithful(u)
    ensures IsOurHighlight(u, username, Occupant(id, Some(Title(active, eventName)), author))
  {
    var t := Title(active, eventName);
    var tail := "\U{2728}" + t[|BaseTitle|..];
    assert t == "\U{2728} " + "Our Highlights" + tail;
    WordsRecognised(u, "\U{2728} ", tail);
  }

  /** The slot a `STICKY_POSITION` names: 2 (the bottom sticky) when the
      position, lower-cased and trimmed, reads "bottom", and 1 (the top
      sticky) for anything else. */
  function SlotNumber(u: UnicodeTables, position: string): (r: nat)
    ensures r == 1 || r == 2
  {
    if Strip(Lower(u, position)) == "bottom" then 2 else 1
  }

  /** With tables faithful on ASCII, an ASCII position names slot 2 exactly
      when its ASCII lower-case form, trimmed of whitespace, is "bottom";
      every other position names slot 1. */
  lemma SlotNumberAscii(u: UnicodeTables, position: string)
    requires AsciiFaithful(u)
    requires forall k :: 0 <= k < |position| ==> position[k] as int < 128
    ensures var lowered := seq(|position|, k requires 0 <= k < |position| => AsciiLower(position[k]));
      && (SlotNumber(u, position) == 2 <==> Strip(lowered) == "bottom")
      && (SlotNumber(u, position) == 1 <==> Strip(lowered) != "bottom")
  {
    var lowered := seq(|position|, k requires 0 <= k < |position| => AsciiLower(position[k]));
    LowerAsciiIs(u, position, lowered);
  }

  /** The position names the bottom slot. */
  predicate IsBottom(u: UnicodeTables, position: string) {
    SlotNumber(u, position) == 2
  }

  /** With tables faithful on ASCII, "bottom" names slot 2. */
  lemma BottomIsSlotTwo(u: UnicodeTables)
    requires AsciiFaithful(u)
    ensures SlotNumber(u, "bottom") == 2
  {
    LowerAsciiIs(u, "bottom", "bottom");
    StripSpec("bottom");
  }

  /** "top", which `maybe_sticky_submission` passes on for every position
      other than the bottom one, names slot 1. */
  lemma TopIsSlotOne(u: UnicodeTables)
    requires AsciiFaithful(u)
    ensures SlotNumber(u, "top") == 1
  {
    LowerAsciiIs(u, "top", "top");
    StripSpec("top");
  }

  /** What reading the slot gives: an exception, an empty slot, or its
      occupant. */
  datatype SlotRead = ReadFails | Vacant | Holds(occupant: Occupant)

  /** The answers of Reddit to the calls the reconciler can make. */
  datatype Oracles = Oracles(read: SlotRead, unstickOk: bool, pinOk: bool, sortOk: bool)

  /** The settings the reconciler reads: the Unicode tables, `USERNAME`,
      `STICKY_POSITION` and `SUGGESTED_SORT` (`None` when unset). */
  datatype Settings = Settings(u: UnicodeTables, username: Option<string>, position: string, suggestedSort: Option<string>)

  /** A call to Reddit: `sr.sticky(number=…)`, `prev.mod.sticky(state=False)`,
      `submission.mod.sticky(state=True, bottom=…)` and
      `submission.mod.suggested_sort(…)`. */
  datatype Call = ReadSlot(number: nat) | Unstick(id: string) | Pin(bottom: bool) | SetSort(sort: string)

  /** Where the reconciler is. */
  datatype Phase = Reading | Unsticking(occupant: Occupant) | Pinning | Sorting | Done

  /** The calls made so far, and what the successful ones changed: the post
      unpinned, whether the new post is pinned, and the sort applied. */
  datatype State = State(phase: Phase, calls: seq<Call>, unstuck: Option<string>, pinned: bool, sortApplied: Option<string>)

  const Initial: State := State(Reading, [], None, false, None)

  /** `if suggested_sort:` — set and non-empty. */
  predicate SortConfigured(cfg: Settings) {
    cfg.suggestedSort.Some? && cfg.suggestedSort.value != []
  }

  /** How many steps are left at most. */
  function Rank(p: Phase): nat {
    match p
    case Reading => 4
    case Unsticking(_) => 3
    case Pinning => 2
    case Sorting => 1
    case Done => 0
  }

  /** One step. Reading the slot leads to unpinning only an occupant that
      is ours; any other outcome, including an exception, goes straight to
      pinning. An unpin failure is swallowed by `unsticky_previous_in_slot`
      and pinning follows. A pin failure ends everything (it raises inside
      the `try` of `maybe_sticky_submission`, so the sort is skipped); after
      a successful pin the suggested sort is set when configured. */
  function Step(cfg: Settings, o: Oracles, st: State): (r: State)
    requires !st.phase.Done?
    ensures Rank(r.phase) < Rank(st.phase)
    ensures |st.calls| <= |r.calls| <= |st.calls| + 1 && r.calls[..|st.calls|] == st.calls
    ensures st.phase.Sorting? ==> r.phase.Done?
  {
    var bottom := IsBottom(cfg.u, cfg.position);
    match st.phase
    case Reading =>
      var call := ReadSlot(SlotNumber(cfg.u, if bottom then "bottom" else "top"));
      var next := match o.read
        case Holds(occ) => if IsOurHighlight(cfg.u, cfg.username, occ) then Unsticking(occ) else Pinning
        case _ => Pinning;
      st.(phase := next, calls := st.calls + [call])
    case Unsticking(occ) =>
      st.(phase := Pinning, calls := st.calls + [Unstick(occ.id)],
          unstuck := if o.unstickOk then Some(occ.id) else st.unstuck)
    case Pinning =>
      st.(phase := if o.pinOk then Sorting else Done, calls := st.calls + [Pin(bottom)], pinned := o.pinOk)
    case Sorting =>
      if SortConfigured(cfg) then
        var sort := cfg.suggestedSort.value;
        st.(phase := Done, calls := st.calls + [SetSort(sort)],
            sortApplied := if o.sortOk then Some(sort) else st.sortApplied)
      else st.(phase := Done)
  }

  /** Steps until done. */
  function Run(cfg: Settings, o: Oracles, st: State): (r: State)
    ensures r.phase.Done?
    ensures st.calls <= r.calls
    decreases Rank(st.phase)
  {
    if st.phase.Done? then st else Run(cfg, o, Step(cfg, o, st))
  }

  /** `maybe_sticky_submission(submission, position, suggested_sort)`. */
  function Reconcile(cfg: Settings, o: Oracles): State {
    Run(cfg, o, Initial)
  }

  /** The occupant is ours to unpin. */
  predicate Owned(cfg: Settings, o: Oracles) {
    o.read.Holds? && IsOurHighlight(cfg.u, cfg.username, o.read.occupant)
  }

  /** The calls up to and including the pin: one read of the slot, an
      unpin exactly when the occupant is ours, and the pin. */
  function PinCalls(cfg: Settings, o: Oracles): (r: seq<Call>)
    ensures |r| >= 2 && r[|r| - 1] == Pin(IsBottom(cfg.u, cfg.position))
    ensures forall i :: 0 <= i < |r| ==> !r[i].SetSort?
  {
    var bottom := IsBottom(cfg.u, cfg.position);
    [ReadSlot(SlotNumber(cfg.u, if bottom then "bottom" else "top"))]
    + (if Owned(cfg, o) then [Unstick(o.read.occupant.id)] else [])
    + [Pin(bottom)]
  }

  /** The sort call: made exactly when the pin succeeded and a sort is
      configured. */
  function SortCalls(cfg: Settings, o: Oracles): seq<Call> {
    if o.pinOk && SortConfigured(cfg) then [SetSort(cfg.suggestedSort.value)] else []
  }

  /** From the pin phase on: the pin call, then the sort call when the pin
      succeeded and a sort is configured. */
  lemma RunFromPinning(cfg: Settings, o: Oracles, st: State)
    requires st.phase.Pinning?
    ensures var r := Run(cfg, o, st);
      && r.calls == st.calls + [Pin(IsBottom(cfg.u, cfg.position))] + SortCalls(cfg, o)
      && r.unstuck == st.unstuck
      && r.pinned == o.pinOk
      && r.sortApplied == (if o.pinOk && SortConfigured(cfg) && o.sortOk then Some(cfg.suggestedSort.value) else st.sortApplied)
  {
    var s3 := Step(cfg, o, st);
    assert Run(cfg, o, st) == Run(cfg, o, s3);
    if o.pinOk {
      var s4 := Step(cfg, o, s3);
      assert Run(cfg, o, s3) == s4;
    } else {
      assert Run(cfg, o, s3) == s3;
    }
  }

  /** The whole run in closed form: one read of the slot, an unpin attempt
      exactly when the occupant is ours, always a pin attempt in the slot
      that was read, and a sort attempt exactly when the pin succeeded and a
      sort is configured; each change happens exactly when its call
      succeeds. */
  lemma ReconcileTrace(cfg: Settings, o: Oracles)
    ensures var r := Reconcile(cfg, o);
      && r.calls == PinCalls(cfg, o) + SortCalls(cfg, o)
      && r.unstuck == (if Owned(cfg, o) && o.unstickOk then Some(o.read.occupant.id) else None)
      && r.pinned == o.pinOk
      && r.sortApplied == (if o.pinOk && SortConfigured(cfg) && o.sortOk then Some(cfg.suggestedSort.value) else None)
  {
    var s1 := Step(cfg, o, Initial);
    assert Run(cfg, o, Initial) == Run(cfg, o, s1);
    var s2 := if Owned(cfg, o) then Step(cfg, o, s1) else s1;
    assert s2.phase == Pinning;
    assert Run(cfg, o, s1) == Run(cfg, o, s2);
    RunFromPinning(cfg, o, s2);
  }

  /** A post that is not ours (or an unreadable or empty slot) is left
      pinned: no unpin call is made. */
  lemma ForeignOccupantKept(cfg: Settings, o: Oracles)
    requires !Owned(cfg, o)
    ensures forall id :: Unstick(id) !in Reconcile(cfg, o).calls
    ensures Reconcile(cfg, o).unstuck.None?
  {
    ReconcileTrace(cfg, o);
  }

  /** Whatever happened to the slot read and the unpin, the pin call is
      made, and the new post is pinned exactly when it succeeds. */
  lemma PinAlwaysAttempted(cfg: Settings, o: Oracles)
    ensures Pin(IsBottom(cfg.u, cfg.position)) in Reconcile(cfg, o).calls
    ensures Reconcile(cfg, o).pinned <==> o.pinOk
  {
    ReconcileTrace(cfg, o);
  }

  /** With tables faithful on ASCII, the slot read (and cleared) is the slot
      the new post is pinned into: 2 for the bottom, 1 for the top. */
  lemma SameSlot(cfg: Settings, o: Oracles)
    requires AsciiFaithful(cfg.u)
    ensures var bottom := IsBottom(cfg.u, cfg.position);
      && Reconcile(cfg, o).calls[0] == ReadSlot(if bottom then 2 else 1)
      && Pin(bottom) in Reconcile(cfg, o).calls
  {
    ReconcileTrace(cfg, o);
    BottomIsSlotTwo(cfg.u);
    TopIsSlotOne(cfg.u);
  }

  /** The suggested sort is applied only after a successful pin, and the
      sort call, when made, is the last call and directly follows the pin. */
  lemma SortOnlyAfterPin(cfg: Settings, o: Oracles)
    ensures Reconcile(cfg, o).sortApplied.Some? ==> Reconcile(cfg, o).pinned
    ensures forall i :: 0 <= i < |Reconcile(cfg, o).calls| && Reconcile(cfg, o).calls[i].SetSort? ==>
      o.pinOk && i == |Reconcile(cfg, o).calls| - 1 && Reconcile(cfg, o).calls[i - 1] == Pin(IsBottom(cfg.u, cfg.position))
  {
    ReconcileTrace(cfg, o);
    var pre := PinCalls(cfg, o);
    assert forall i :: 0 <= i < |pre| ==> !pre[i].SetSort?;
  }

  /** An occupant that is ours is unpinned before the new post is pinned,
      and the pin follows whether or not the unpin succeeded. */
  lemma OwnedOccupantUnpinnedFirst(cfg: Settings, o: Oracles)
    requires Owned(cfg, o)
    ensures |Reconcile(cfg, o).calls| >= 3
    ensures Reconcile(cfg, o).calls[1] == Unstick(o.read.occupant.id)
    ensures Reconcile(cfg, o).calls[2] == Pin(IsBottom(cfg.u, cfg.position))
    ensures Reconcile(cfg, o).unstuck == (if o.unstickOk then Some(o.read.occupant.id) else None)
  {
    ReconcileTrace(cfg, o);
  }
}
