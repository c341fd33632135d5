/** The goals card: editing a goal's text hands a new goal list to the parent. */
module GoalsSection {
  import opened JsValues
  import opened JournalService

  /** `updateGoalText(index, text)`: a copy of the goals in which the goal at
      `index` carries the new text and keeps its completed flag. */
  function UpdateGoalText(goals: seq<Goal>, index: int, text: string): (r: seq<Goal>)
    ensures |r| == |goals|
    ensures 0 <= index < |goals| ==> r[index].text == text && r[index].completed == goals[index].completed
    ensures forall i :: 0 <= i < |goals| && i != index ==> r[i] == goals[i]
    ensures !(0 <= index < |goals|) ==> r == goals
  {
    seq(|goals|, i requires 0 <= i < |goals| => if i == index then goals[i].(text := text) else goals[i])
  }

  /** Typing the same text again changes nothing more. */
  lemma UpdateGoalTextIdempotent(goals: seq<Goal>, index: int, text: string)
    ensures UpdateGoalText(UpdateGoalText(goals, index, text), index, text) == UpdateGoalText(goals, index, text)
  {
    var once := UpdateGoalText(goals, index, text);
    var twice := UpdateGoalText(once, index, text);
    forall i | 0 <= i < |goals| ensures twice[i] == once[i] {
      if i == index {
        assert twice[i] == Goal(text, once[i].completed);
      }
    }
  }

  /** Editing a text never changes how many goals are completed. */
  lemma UpdateGoalTextKeepsCount(goals: seq<Goal>, index: int, text: string)
    ensures CountCompletedGoals(List(UpdateGoalText(goals, index, text))) == CountCompletedGoals(List(goals))
  {
    if 0 <= index < |goals| {
      CountDiffersAt(goals, UpdateGoalText(goals, index, text), index);
    }
  }
}
