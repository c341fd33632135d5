/** A numbered list of text items: editing one hands a new list to the parent. */
module TextSection {

  /** `updateItemText(index, text)`: a copy of the items with `text` at
      `index`. */
  function UpdateItemText(items: seq<string>, index: int, text: string): (r: seq<string>)
    ensures |r| == |items|
    ensures 0 <= index < |items| ==> r[index] == text
    ensures forall i :: 0 <= i < |items| && i != index ==> r[i] == items[i]
    ensures !(0 <= index < |items|) ==> r == items
  {
    seq(|items|, i requires 0 <= i < |items| => if i == index then text else items[i])
  }

  /** Applying the same edit twice is the same as applying it once. */
  lemma UpdateItemTextIdempotent(items: seq<string>, index: int, text: string)
    ensures UpdateItemText(UpdateItemText(items, index, text), index, text) == UpdateItemText(items, index, text)
  {
    var once := UpdateItemText(items, index, text);
    var twice := UpdateItemText(once, index, text);
    assert forall i :: 0 <= i < |items| ==> twice[i] == once[i];
  }
}
