/** The fixed-size list of text inputs used for affirmations and gratitude:
    the list the component renders is the given items padded with blanks or
    cut down to exactly `numInputs`, and each edit hands a changed copy of that
    list back to the parent. */
module TextInputSection {
  import opened JsValues

  /** `normalizedItems`: a copy of `items`, grown with `push('')` and shrunk
      with `pop()` until it holds exactly `numInputs` items. (A negative
      `numInputs` would make the `pop` loop spin forever on an empty list.) */
  method NormalizeItems(items: seq<string>, numInputs: int) returns (normalized: seq<string>)
    requires numInputs >= 0
    ensures |normalized| == numInputs
    ensures forall i :: 0 <= i < |items| && i < numInputs ==> normalized[i] == items[i]
    ensures forall i :: |items| <= i < numInputs ==> normalized[i] == ""
    ensures normalized == Padded(items, numInputs)
  {
    normalized := items;
    while |normalized| < numInputs
      invariant |items| <= |normalized| && (|items| < numInputs ==> |normalized| <= numInputs)
      invariant |items| >= numInputs ==> normalized == items
      invariant forall i :: 0 <= i < |items| ==> normalized[i] == items[i]
      invariant forall i :: |items| <= i < |normalized| ==> normalized[i] == ""
      decreases numInputs - |normalized|
    {
      normalized := normalized + [""];
    }
    while |normalized| > numInputs
      invariant |normalized| >= numInputs
      invariant forall i :: 0 <= i < |items| && i < |normalized| ==> normalized[i] == items[i]
      invariant forall i :: |items| <= i < |normalized| ==> normalized[i] == ""
      decreases |normalized|
    {
      normalized := normalized[..|normalized| - 1];
    }
    PaddedContents(items, numInputs);
  }

  /** The list `normalizedItems` denotes: the first `n` items, followed by as
      many `''` as it takes to reach `n`. */
  function Padded(items: seq<string>, n: nat): seq<string> {
    if |items| >= n then items[..n] else items + seq(n - |items|, _ => "")
  }

  /** `Padded` keeps the items that fit and fills the rest with `''`. */
  lemma PaddedContents(items: seq<string>, n: nat)
    ensures |Padded(items, n)| == n
    ensures forall i :: 0 <= i < |items| && i < n ==> Padded(items, n)[i] == items[i]
    ensures forall i :: |items| <= i < n ==> Padded(items, n)[i] == ""
  {
  }

  /** A list that already has `numInputs` items is rendered as it is, and
      normalising a normalised list changes nothing. */
  lemma PaddedIdempotent(items: seq<string>, n: nat)
    ensures |items| == n ==> Padded(items, n) == items
    ensures Padded(Padded(items, n), n) == Padded(items, n)
  {
    PaddedContents(items, n);
    assert |items| == n ==> items[..n] == items;
    assert Padded(items, n)[..n] == Padded(items, n);
  }

  /** Copies the list into a fresh array and stores `text` at `index`, as
      `[...normalizedItems]` followed by `updatedItems[index] = text` does. */
  method SetCopyAt(normalized: seq<string>, index: int, text: string) returns (updated: seq<string>)
    requires 0 <= index < |normalized|
    ensures |updated| == |normalized| && updated[index] == text
    ensures forall i :: 0 <= i < |normalized| && i != index ==> updated[i] == normalized[i]
    ensures updated == normalized[index := text]
  {
    var a := new string[|normalized|](i requires 0 <= i < |normalized| => normalized[i]);
    a[index] := text;
    updated := a[..];
  }

  /** `handleTextChange(index, text)`: the list passed to `onUpdateItems` is
      the normalised list with `text` at `index`. The index is one the
      component rendered, so it lies inside the list. */
  method HandleTextChange(normalized: seq<string>, index: int, text: string) returns (updated: seq<string>)
    requires 0 <= index < |normalized|
    ensures |updated| == |normalized| && updated[index] == text
    ensures forall i :: 0 <= i < |normalized| && i != index ==> updated[i] == normalized[i]
    ensures updated == normalized[index := text]
  {
    updated := SetCopyAt(normalized, index, text);
  }

  /** `handleClearItem(index)`: the same with the item emptied. */
  method HandleClearItem(normalized: seq<string>, index: int) returns (updated: seq<string>)
    requires 0 <= index < |normalized|
    ensures |updated| == |normalized| && updated[index] == ""
    ensures forall i :: 0 <= i < |normalized| && i != index ==> updated[i] == normalized[i]
    ensures updated == normalized[index := ""]
    ensures ClearButtonDisabled(updated[index])
  {
    updated := SetCopyAt(normalized, index, "");
    assert TrimStart("") == "";
  }

  /** An item's clear button is disabled while the item is blank. */
  predicate ClearButtonDisabled(item: string) {
    IsBlank(item)
  }

  /** The clear button is enabled exactly when the item holds a character
      that is not whitespace. */
  lemma ClearEnabledIffVisibleText(item: string)
    ensures !ClearButtonDisabled(item) <==> exists i :: 0 <= i < |item| && !IsJsWhitespace(item[i])
  {
    BlankIffAllWhitespace(item);
  }

  /** Clearing an item that was just cleared hands back the same list: the
      result of a clear is the list with `''` at the index, and clearing that
      list again at the same index changes nothing. */
  lemma ClearTwiceIsClearOnce(normalized: seq<string>, index: int)
    requires 0 <= index < |normalized|
    ensures normalized[index := ""][index := ""] == normalized[index := ""]
  {
  }
}
