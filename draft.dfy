/** The draft an item editor panel keeps: it starts as the edited item, and
    typing into an input overwrites one property with the typed string. Both
    panels build the same object for a change: the later one by spreading the
    draft and the changed property, the earlier one by copying the draft and
    assigning the property on the copy. */
module Draft {
  import opened Wrappers
  import opened JsObject
  import opened Types

  /** The draft the panel starts with: the edited item itself. */
  function InitialDraft(editItem: EditTarget): (draft: Object)
    ensures draft == editItem.item
  {
    editItem.item
  }

  /** `handleChange`: the property `key` takes the text typed, as a string, whatever
      its type was before; every other property keeps its value. */
  function HandleChange(draft: Object, key: string, text: string): (next: Object)
    ensures Get(next, key) == Some(Str(text))
    ensures forall k :: k != key ==> Get(next, k) == Get(draft, k)
    ensures key in Keys(draft) ==> Keys(next) == Keys(draft)
  {
    Assign(draft, key, Str(text))
  }
}
