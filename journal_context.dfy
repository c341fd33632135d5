/** The journal session state held by `JournalProvider`: the reducer that
    every screen dispatches to, the blank entry a new day starts from, and the
    two store-facing operations `loadEntryForDate` and `saveEntry`. */
module JournalContext {
  import opened JsValues
  import opened Calendar
  import opened JournalService

  /** `currentEntry`: the lists being edited, and the date they belong to when
      the entry came from the store or from `loadEntryForDate` (the other
      columns of a stored row are carried along by the app but never read). */
  datatype Draft = Draft(
    date: Option<Day>,
    goals: JsList<Goal>,
    affirmations: JsList<string>,
    gratitude: JsList<string>)

  datatype State = State(
    currentEntry: Option<Draft>,
    selectedDate: Day,
    isLoading: bool,
    error: Option<string>,
    hasUnsavedChanges: bool)

  /** The action types the app declares, each with its payload; `Unknown`
      stands for any other `type` string. */
  datatype Action =
    | SetLoading(loading: bool)
    | SetError(message: string)
    | SetCurrentEntry(entry: Option<Draft>)
    | SetSelectedDate(date: Day)
    | UpdateGoals(goals: JsList<Goal>)
    | UpdateAffirmations(items: JsList<string>)
    | UpdateGratitude(items: JsList<string>)
    | ToggleGoalCompletion(index: int)
    | SetUnsavedChanges(unsaved: bool)
    | ResetEntry
    | Unknown

  /** A reducer call either returns the next state or throws a `TypeError`. */
  datatype Step = Next(state: State) | Throws

  /** `initialState`, with `new Date()` passed in as `today`. */
  function InitialState(today: Day): (s: State)
    ensures s.currentEntry.None? && s.selectedDate == today
    ensures !s.isLoading && s.error.None? && !s.hasUnsavedChanges
  {
    State(None, today, false, None, false)
  }

  /** A fresh session has nothing to save and nothing to toggle: toggling
      throws until an entry is loaded, and the selected date stays `today`
      whatever is dispatched. */
  lemma FreshSession(today: Day, index: int, actions: seq<Action>)
    ensures Reduce(InitialState(today), ToggleGoalCompletion(index)).Throws?
    ensures ReduceAll(InitialState(today), actions).Next? ==>
      ReduceAll(InitialState(today), actions).state.selectedDate == today
  {
    SelectedDateIsFixed(InitialState(today), actions);
  }

  /** Declared action types that the reducer's `switch` has no case for. */
  predicate Unhandled(a: Action) {
    a.SetSelectedDate? || a.UpdateAffirmations? || a.UpdateGratitude?
      || a.SetUnsavedChanges? || a.ResetEntry? || a.Unknown?
  }

  // ---------------------------------------------------------------------------
  // createEmptyEntry
  // ---------------------------------------------------------------------------

  function BlankGoal(): Goal {
    Goal("", false)
  }

  /** `createEmptyEntry()`: three blank goals, none completed, and three blank
      affirmations and gratitude items. */
  function EmptyDraft(): (d: Draft)
    ensures d.date.None?
    ensures d.goals.List? && |d.goals.elems| == 3 && CountCompletedGoals(d.goals) == 0
    ensures forall i :: 0 <= i < |d.goals.elems| ==> d.goals.elems[i] == Goal("", false)
    ensures forall i :: 0 <= i < |d.goals.elems| ==> IsBlank(d.goals.elems[i].text)
    ensures d.affirmations.List? && |d.affirmations.elems| == 3
    ensures forall i :: 0 <= i < |d.affirmations.elems| ==> d.affirmations.elems[i] == ""
    ensures forall i :: 0 <= i < |d.affirmations.elems| ==> IsBlank(d.affirmations.elems[i])
    ensures d.gratitude.List? && |d.gratitude.elems| == 3
    ensures forall i :: 0 <= i < |d.gratitude.elems| ==> d.gratitude.elems[i] == ""
    ensures forall i :: 0 <= i < |d.gratitude.elems| ==> IsBlank(d.gratitude.elems[i])
  {
    assert IsBlank("") by { assert TrimStart("") == ""; }
    var goals := [BlankGoal(), BlankGoal(), BlankGoal()];
    assert CompletedGoals(goals) == [] by {
      assert goals[1..] == [BlankGoal(), BlankGoal()] && goals[2..] == [BlankGoal()];
    }
    assert forall i :: 0 <= i < |goals| ==> goals[i].text == "";
    var items: seq<string> := ["", "", ""];
    assert forall i :: 0 <= i < |items| ==> items[i] == "";
    Draft(None, List(goals), List(items), List(items))
  }

  // ---------------------------------------------------------------------------
  // journalReducer
  // ---------------------------------------------------------------------------

  /** The goals after TOGGLE_GOAL_COMPLETION: the goal at position `index`
      gets its `completed` flag flipped, every other goal is kept; an index
      matching no position changes nothing. */
  function ToggleAt(goals: seq<Goal>, index: int): seq<Goal> {
    seq(|goals|, j requires 0 <= j < |goals| =>
      if j == index then Goal(goals[j].text, !goals[j].completed) else goals[j])
  }

  /** `journalReducer(state, action)`. */
  function Reduce(s: State, a: Action): (r: Step)
    // Only a toggle reaches through `state.currentEntry.goals.map`, and that
    // throws when there is no entry or its goals are not an array.
    ensures r.Throws? <==>
      a.ToggleGoalCompletion? && (s.currentEntry.None? || !s.currentEntry.value.goals.List?)
    ensures Unhandled(a) ==> r == Next(s)
    ensures a.SetLoading? ==> r == Next(s.(isLoading := a.loading))
    ensures a.SetError? ==>
      r.Next? && r.state.error == Some(a.message) && !r.state.isLoading
      && r.state.currentEntry == s.currentEntry && r.state.hasUnsavedChanges == s.hasUnsavedChanges
      && r.state.selectedDate == s.selectedDate
    ensures a.SetCurrentEntry? ==>
      r.Next? && r.state.currentEntry == a.entry && !r.state.hasUnsavedChanges && !r.state.isLoading
      && r.state.error == s.error && r.state.selectedDate == s.selectedDate
    // Editing goals marks the entry dirty and touches nothing else of the session.
    ensures (a.UpdateGoals? || a.ToggleGoalCompletion?) && r.Next? ==>
      r.state.hasUnsavedChanges && r.state.currentEntry.Some?
      && r.state.isLoading == s.isLoading && r.state.error == s.error
      && r.state.selectedDate == s.selectedDate
    ensures a.UpdateGoals? ==> r.Next? && r.state.currentEntry.value.goals == a.goals
    // Spreading a `null` entry leaves the two other lists missing.
    ensures a.UpdateGoals? && s.currentEntry.None? ==>
      r.state.currentEntry.value == Draft(None, a.goals, Undefined, Undefined)
    ensures a.UpdateGoals? && s.currentEntry.Some? ==>
      r.state.currentEntry.value == s.currentEntry.value.(goals := a.goals)
    ensures a.ToggleGoalCompletion? && r.Next? ==>
      r.state.currentEntry.value
        == s.currentEntry.value.(goals := List(ToggleAt(s.currentEntry.value.goals.elems, a.index)))
  {
    match a
    case SetLoading(loading) => Next(s.(isLoading := loading))
    case SetError(message) => Next(s.(error := Some(message), isLoading := false))
    case SetCurrentEntry(entry) =>
      Next(s.(currentEntry := entry, hasUnsavedChanges := false, isLoading := false))
    case UpdateGoals(goals) =>
      var base := if s.currentEntry.Some? then s.currentEntry.value else Draft(None, Undefined, Undefined, Undefined);
      Next(s.(currentEntry := Some(base.(goals := goals)), hasUnsavedChanges := true))
    case ToggleGoalCompletion(index) =>
      if s.currentEntry.None? || !s.currentEntry.value.goals.List? then Throws
      else
        var d := s.currentEntry.value;
        Next(s.(currentEntry := Some(d.(goals := List(ToggleAt(d.goals.elems, index)))),
                hasUnsavedChanges := true))
    case _ => Next(s)
  }

  // ---------------------------------------------------------------------------
  // Properties of the reducer
  // ---------------------------------------------------------------------------

  /** Toggling keeps every goal's text and the list's length, and flips
      `completed` exactly at `index`; an index outside the list changes nothing. */
  lemma ToggleKeepsTexts(goals: seq<Goal>, index: int)
    ensures |ToggleAt(goals, index)| == |goals|
    ensures forall j :: 0 <= j < |goals| ==> ToggleAt(goals, index)[j].text == goals[j].text
    ensures forall j :: 0 <= j < |goals| ==>
      (ToggleAt(goals, index)[j].completed != goals[j].completed <==> j == index)
    ensures !(0 <= index < |goals|) ==> ToggleAt(goals, index) == goals
  {
  }

  /** Toggling the same index twice gives the original goals back. */
  lemma ToggleTwiceRestores(goals: seq<Goal>, index: int)
    ensures ToggleAt(ToggleAt(goals, index), index) == goals
  {
    var once := ToggleAt(goals, index);
    var twice := ToggleAt(once, index);
    forall j | 0 <= j < |goals| ensures twice[j] == goals[j] {
      if j == index {
        assert once[j] == Goal(goals[j].text, !goals[j].completed);
      }
    }
  }

  /** A toggle inside the list moves the completed count by exactly one, up
      when the goal was open and down when it was done. */
  lemma ToggleMovesCountByOne(goals: seq<Goal>, index: int)
    requires 0 <= index < |goals|
    ensures CountCompletedGoals(List(ToggleAt(goals, index)))
         == CountCompletedGoals(List(goals)) + (if goals[index].completed then -1 else 1)
  {
    var t := ToggleAt(goals, index);
    assert forall j :: 0 <= j < |goals| && j != index ==> goals[j] == t[j];
    CountDiffersAt(goals, t, index);
  }

  /** Dispatching the same TOGGLE_GOAL_COMPLETION twice restores the entry
      being edited; the entry is left marked as changed. */
  lemma ReduceToggleTwice(s: State, index: int)
    requires s.currentEntry.Some? && s.currentEntry.value.goals.List?
    ensures Reduce(s, ToggleGoalCompletion(index)).Next?
    ensures Reduce(Reduce(s, ToggleGoalCompletion(index)).state, ToggleGoalCompletion(index))
         == Next(s.(hasUnsavedChanges := true))
  {
    var d := s.currentEntry.value;
    ToggleTwiceRestores(d.goals.elems, index);
    assert d.(goals := List(ToggleAt(ToggleAt(d.goals.elems, index), index))) == d;
  }

  /** Runs the actions one after another; a throw ends the run. */
  function ReduceAll(s: State, actions: seq<Action>): Step
    decreases |actions|
  {
    if actions == [] then Next(s)
    else match Reduce(s, actions[0])
      case Throws => Throws
      case Next(s') => ReduceAll(s', actions[1..])
  }

  /** No action the reducer handles changes `selectedDate`, and SET_SELECTED_DATE
      is not handled at all: whatever is dispatched, the selected date stays the
      one the session started with. */
  lemma {:induction false} SelectedDateIsFixed(s: State, actions: seq<Action>)
    ensures ReduceAll(s, actions).Next? ==> ReduceAll(s, actions).state.selectedDate == s.selectedDate
    decreases |actions|
  {
    if actions != [] && Reduce(s, actions[0]).Next? {
      SelectedDateIsFixed(Reduce(s, actions[0]).state, actions[1..]);
    }
  }

  /** Once something is edited, only SET_CURRENT_ENTRY clears the unsaved flag:
      a run with no SET_CURRENT_ENTRY in it keeps it set. */
  lemma {:induction false} OnlyLoadingClearsUnsaved(s: State, actions: seq<Action>)
    requires s.hasUnsavedChanges
    requires forall k :: 0 <= k < |actions| ==> !actions[k].SetCurrentEntry?
    ensures ReduceAll(s, actions).Next? ==> ReduceAll(s, actions).state.hasUnsavedChanges
    decreases |actions|
  {
    if actions != [] && Reduce(s, actions[0]).Next? {
      assert actions[0].SetCurrentEntry? == false;
      OnlyLoadingClearsUnsaved(Reduce(s, actions[0]).state, actions[1..]);
    }
  }

  // ---------------------------------------------------------------------------
  // loadEntryForDate and saveEntry
  // ---------------------------------------------------------------------------

  /** The draft `getEntry` hands back for a stored row. */
  function DraftOf(date: Day, e: Entry): Draft {
    Draft(Some(date), e.goals, e.affirmations, e.gratitude)
  }

  /** `loadEntryForDate(date)`: SET_LOADING, then SET_CURRENT_ENTRY with the
      stored entry, or with a blank entry stamped with `date` when there is none. */
  method LoadEntryForDate(store: EntryStore, s: State, date: Day) returns (next: State)
    ensures date in store.entries ==> next.currentEntry == Some(DraftOf(date, store.entries[date]))
    ensures date !in store.entries ==> next.currentEntry == Some(EmptyDraft().(date := Some(date)))
    ensures !next.isLoading && !next.hasUnsavedChanges
    ensures next.selectedDate == s.selectedDate && next.error == s.error
  {
    var loading := Reduce(s, SetLoading(true)).state;
    var found := store.GetEntry(date);
    var draft: Draft;
    if found.Some? {
      draft := DraftOf(date, found.value);
    } else {
      draft := EmptyDraft().(date := Some(date));
    }
    next := Reduce(loading, SetCurrentEntry(Some(draft))).state;
  }

  /** `saveEntry()`: nothing to save without an entry or without unsaved
      changes; otherwise the entry is written for `selectedDate`, as an update
      when a row exists and as a create when not, and a write that throws is
      reported as `false`. The closing SET_UNSAVED_CHANGES is not handled by
      the reducer, so the session state, flag included, comes back as it was. */
  method SaveEntry(store: EntryStore, s: State) returns (saved: bool, next: State)
    requires store.Valid()
    modifies store
    ensures store.Valid()
    ensures saved <==>
      && s.currentEntry.Some? && s.hasUnsavedChanges
      && Storable(s.currentEntry.value.goals, s.currentEntry.value.affirmations, s.currentEntry.value.gratitude)
    ensures !saved ==> store.entries == old(store.entries)
    ensures saved && s.selectedDate in old(store.entries) ==>
      store.entries == ApplyWrite(old(store.entries), Update(s.selectedDate,
        s.currentEntry.value.goals, s.currentEntry.value.affirmations, s.currentEntry.value.gratitude))
    ensures saved && s.selectedDate !in old(store.entries) ==>
      store.entries == ApplyWrite(old(store.entries), Create(s.selectedDate,
        s.currentEntry.value.goals, s.currentEntry.value.affirmations, s.currentEntry.value.gratitude))
    ensures saved ==> store.GetEntry(s.selectedDate) == Some(MakeEntry(
      s.currentEntry.value.goals, s.currentEntry.value.affirmations, s.currentEntry.value.gratitude))
    ensures next == s
  {
    if s.currentEntry.None? || !s.hasUnsavedChanges {
      return false, s;
    }
    var d := s.currentEntry.value;
    var existing := store.GetEntry(s.selectedDate);
    var ok;
    if existing.Some? {
      ok := store.UpdateEntry(s.selectedDate, d.goals, d.affirmations, d.gratitude);
    } else {
      ok := store.CreateEntry(s.selectedDate, d.goals, d.affirmations, d.gratitude);
    }
    if !ok {
      return false, s;
    }
    next := Reduce(s, SetUnsavedChanges(false)).state;
    saved := true;
  }
}
