/** What an entry card in the history list shows: the completed/total badge of
    its goals, a one-line preview of its affirmations and gratitude, and the
    "Tap to add your first entry" empty state; and the compact card's badge and
    indicators. The card is given a stored entry, or `null`, for which it
    renders nothing. */
module EntryPreview {
  import opened JsValues
  import opened JournalService

  /** `{ completed, total }` of the badge. */
  datatype GoalsStats = GoalsStats(completed: nat, total: nat)

  /** `getGoalsStats()`: no goals, or goals that are not an array, count as
      none; otherwise how many are completed out of how many there are. */
  function GetGoalsStats(goals: JsList<Goal>): (r: GoalsStats)
    ensures !goals.List? ==> r == GoalsStats(0, 0)
    ensures goals.List? ==> r.total == |goals.elems|
    ensures r.completed == CountCompletedGoals(goals) && r.completed <= r.total
  {
    if !goals.List? then GoalsStats(0, 0)
    else GoalsStats(|CompletedGoals(goals.elems)|, |goals.elems|)
  }

  /** For a row whose cached count is fresh, the badge shows the stored
      `goals_completed`. */
  lemma BadgeShowsCachedCount(e: Entry)
    requires CacheFresh(e)
    ensures GetGoalsStats(e.goals).completed == e.goalsCompleted
  {
  }

  // ---------------------------------------------------------------------------
  // hasContent and getContentPreview
  // ---------------------------------------------------------------------------

  /** The full card's test of an item: a non-empty string that is not blank. */
  predicate Filled(item: string) {
    item != "" && !IsBlank(item)
  }

  /** The empty string is falsy, and it is also blank, so the test is "not
      blank". */
  lemma FilledIffNotBlank(item: string)
    ensures Filled(item) <==> !IsBlank(item)
  {
    assert TrimStart("") == "";
  }

  /** Whether some item of an array passes the full card's test. */
  function SomeFilled(items: seq<string>): (b: bool)
    ensures b <==> exists i :: 0 <= i < |items| && !IsBlank(items[i])
  {
    FilledIffNotBlank(if items == [] then "" else items[0]);
    if items == [] then false
    else if Filled(items[0]) then true
    else
      assert forall i :: 1 <= i < |items| ==> items[i] == items[1..][i - 1];
      SomeFilled(items[1..])
  }

  /** `hasContent(items)`: false for anything that is not an array. */
  function HasContent(items: JsList<string>): (b: bool)
    ensures b <==> items.List? && exists i :: 0 <= i < |items.elems| && !IsBlank(items.elems[i])
  {
    items.List? && SomeFilled(items.elems)
  }

  /** The items that pass the full card's test, in list order. */
  function FilledItems(items: seq<string>): seq<string> {
    if items == [] then []
    else (if Filled(items[0]) then [items[0]] else []) + FilledItems(items[1..])
  }

  /** The position of the first non-blank item, or the length of the list
      when every item is blank. */
  function FirstFilledIndex(items: seq<string>): (k: nat)
    ensures k <= |items|
    ensures forall j :: 0 <= j < k ==> IsBlank(items[j])
    ensures k < |items| ==> !IsBlank(items[k])
  {
    if items == [] then 0
    else if !IsBlank(items[0]) then 0
    else
      assert forall i :: 1 <= i < |items| ==> items[i] == items[1..][i - 1];
      FirstFilledIndex(items[1..]) + 1
  }

  /** The filtered list is empty exactly when every item is blank. */
  lemma {:induction false} NoFilledItems(items: seq<string>)
    ensures FilledItems(items) == [] <==> forall i :: 0 <= i < |items| ==> IsBlank(items[i])
  {
    if items != [] {
      NoFilledItems(items[1..]);
      FilledIffNotBlank(items[0]);
      assert forall i :: 1 <= i < |items| ==> items[i] == items[1..][i - 1];
    }
  }

  /** The first element of the filtered list is the first non-blank item of
      the original list. */
  lemma {:induction false} FirstFilledItem(items: seq<string>)
    requires FirstFilledIndex(items) < |items|
    ensures FilledItems(items) != [] && FilledItems(items)[0] == items[FirstFilledIndex(items)]
  {
    FilledIffNotBlank(items[0]);
    if IsBlank(items[0]) {
      FirstFilledItem(items[1..]);
    }
  }

  /** A preview longer than `maxLength` is cut to its first `maxLength`
      characters and followed by an ellipsis of three dots; a shorter one is
      kept. A negative `maxLength` cuts to nothing, as `substring` clamps it. */
  function Shorten(preview: string, maxLength: int): (r: string)
    ensures |preview| <= maxLength ==> r == preview
    ensures |preview| > maxLength ==> r == preview[..if maxLength < 0 then 0 else maxLength] + "..."
    ensures |r| <= (if maxLength < 0 then 0 else maxLength) + 3
  {
    if |preview| > maxLength then preview[..if maxLength < 0 then 0 else maxLength] + "..."
    else preview
  }

  /** `getContentPreview(items, maxLength)` (the app always passes the default
      50): the first non-blank item, shortened to `maxLength` characters plus
      an ellipsis when it is longer; `''` for a non-array or when every item is
      blank. */
  function ContentPreview(items: JsList<string>, maxLength: int): (r: string)
    ensures r == "" <==> !HasContent(items)
    ensures |r| <= (if maxLength < 0 then 0 else maxLength) + 3
  {
    if !items.List? then ""
    else
      var filled := FilledItems(items.elems);
      NoFilledItems(items.elems);
      if |filled| == 0 then ""
      else
        assert FirstFilledIndex(items.elems) < |items.elems|;
        FirstFilledItem(items.elems);
        Shorten(filled[0], maxLength)
  }

  /** A shown preview is built from the first non-blank item, in list order. */
  lemma PreviewOfFirstItem(items: seq<string>, maxLength: int)
    requires exists i :: 0 <= i < |items| && !IsBlank(items[i])
    ensures exists i ::
      && 0 <= i < |items| && !IsBlank(items[i])
      && (forall j :: 0 <= j < i ==> IsBlank(items[j]))
      && ContentPreview(List(items), maxLength) == Shorten(items[i], maxLength)
  {
    var k := FirstFilledIndex(items);
    FirstFilledItem(items);
    assert ContentPreview(List(items), maxLength) == Shorten(items[k], maxLength);
  }

  // ---------------------------------------------------------------------------
  // The card
  // ---------------------------------------------------------------------------

  /** The empty state is rendered: there is an entry, it has no goals to show,
      and neither text section has content. */
  predicate ShowsEmptyState(entry: Option<Entry>) {
    entry.Some?
      && GetGoalsStats(entry.value.goals).total == 0
      && !HasContent(entry.value.affirmations)
      && !HasContent(entry.value.gratitude)
  }

  /** The empty state appears exactly when none of the three sections is
      rendered, and in terms of the stored lists: no goals (or no goals
      array), and every affirmation and gratitude item blank (or no array). */
  lemma EmptyStateIffNothingShown(e: Entry)
    ensures ShowsEmptyState(Some(e)) <==>
      (!e.goals.List? || e.goals.elems == [])
      && (e.affirmations.List? ==> forall i :: 0 <= i < |e.affirmations.elems| ==> IsBlank(e.affirmations.elems[i]))
      && (e.gratitude.List? ==> forall i :: 0 <= i < |e.gratitude.elems| ==> IsBlank(e.gratitude.elems[i]))
    ensures ShowsEmptyState(Some(e)) <==>
      GetGoalsStats(e.goals).total == 0
      && ContentPreview(e.affirmations, 50) == "" && ContentPreview(e.gratitude, 50) == ""
  {
  }

  // ---------------------------------------------------------------------------
  // CompactEntryPreview
  // ---------------------------------------------------------------------------

  /** The compact card's `{ completed, total }`: `entry.goals ? ... : {0, 0}`.
      A truthy non-array value has no `filter`, so the card throws (`None`). */
  function CompactGoalsStats(goals: JsList<Goal>): (r: Option<GoalsStats>)
    ensures goals.List? ==> r == Some(GetGoalsStats(goals))
    ensures goals.Nullish() ==> r == Some(GoalsStats(0, 0))
    ensures goals.NonList? ==> r.None?
  {
    if goals.Nullish() then Some(GoalsStats(0, 0))
    else if goals.NonList? then None
    else Some(GoalsStats(|CompletedGoals(goals.elems)|, |goals.elems|))
  }

  /** The compact card's content indicator: false for a missing list (the
      optional call yields a falsy `undefined`), a throw (`None`) for a
      non-array object, otherwise whether some item is not blank. */
  function CompactHasContent(items: JsList<string>): (r: Option<bool>)
    ensures !items.NonList? ==> r == Some(HasContent(items))
    ensures items.NonList? ==> r.None?
  {
    if items.Nullish() then Some(false)
    else if items.NonList? then None
    else Some(CompactSome(items.elems))
  }

  /** The compact card's per-item test, which for a string is "not blank". */
  function CompactSome(items: seq<string>): (b: bool)
    ensures b == SomeFilled(items)
  {
    if items == [] then false
    else !IsBlank(items[0]) || CompactSome(items[1..])
  }
}
