/** The item editor panel: it keeps a draft of the edited item, lets the user
    type into one text input per editable property, flips `isInsideBubble` with
    a switch, and reports back through `onCancel` or `onSave`. */
module ItemEditor {
  import opened Wrappers
  import opened JsObject
  import opened Types
  import opened Draft

  /** Properties the text inputs leave out: the instance id is not editable, and
      `isInsideBubble` has a switch of its own. */
  const HiddenKeys: set<string> := {UniqueIdKey, BubbleKey}

  /** `handleToggleSwitch`: `isInsideBubble` becomes the negation of its old value
      (an absent property reads as `undefined`, which negates to `true`); every
      other property keeps its value. */
  function HandleToggleSwitch(draft: Object): (next: Object)
    ensures Get(next, BubbleKey) == Some(Bool(!Truthy(Get(draft, BubbleKey))))
    ensures Get(draft, BubbleKey) == Some(Bool(true)) ==> Get(next, BubbleKey) == Some(Bool(false))
    ensures Get(draft, BubbleKey) == Some(Bool(false)) ==> Get(next, BubbleKey) == Some(Bool(true))
    ensures forall k :: k != BubbleKey ==> Get(next, k) == Get(draft, k)
    ensures BubbleKey in Keys(draft) ==> Keys(next) == Keys(draft)
  {
    Assign(draft, BubbleKey, Bool(!Truthy(Get(draft, BubbleKey))))
  }

  /** Flipping a boolean `isInsideBubble` twice restores the draft exactly. */
  lemma ToggleTwice(draft: Object, b: bool)
    requires Get(draft, BubbleKey) == Some(Bool(b))
    ensures HandleToggleSwitch(HandleToggleSwitch(draft)) == draft
  {
    AssignTwice(draft, BubbleKey, Bool(!b), Bool(b));
    AssignExisting(draft, BubbleKey, Bool(b));
  }

  /** The properties that get a text input: the draft's entries without the
      instance id and without `isInsideBubble`, in their original order. */
  function Fields(draft: Object): (fields: Object)
    ensures forall e :: e in fields <==> e in draft && e.key != UniqueIdKey && e.key != BubbleKey
  {
    Omit(draft, HiddenKeys)
  }

  /** The field list keeps the draft's order: the fields of two consecutive
      runs of properties are the fields of the first followed by those of the second. */
  lemma FieldsKeepOrder(a: Object, b: Object)
    ensures Fields(a + b) == Fields(a) + Fields(b)
  {
    OmitAppend(a, b, HiddenKeys);
  }

  /** The `onSave` payload: the object the panel was opened with, with only its
      item replaced by the draft; the cell it refers to is the same. */
  function SavePayload(editItem: EditTarget, draft: Object): (saved: EditTarget)
    ensures saved.item == draft
    ensures saved.rowIndex == editItem.rowIndex && saved.columnIndex == editItem.columnIndex
  {
    editItem.(item := draft)
  }

  // ---------------------------------------------------------------------------
  // The panel over a sequence of user events
  // ---------------------------------------------------------------------------

  /** What the user does: type into the text input at a position, click the
      switch, click Cancel or click Save. */
  datatype Event = TypeInto(input: nat, text: string) | ToggleSwitch | ClickCancel | ClickSave

  /** A call the panel makes to its parent. `onCancel` takes no argument. */
  datatype Callback = OnCancel | OnSave(payload: EditTarget)

  /** The draft and the calls made so far. */
  datatype Session = Session(draft: Object, emitted: seq<Callback>)

  /** One event, handled against the inputs rendered for the current draft: an
      input's `onChange` goes to `handleChange` for the property it shows, the
      switch to `handleToggleSwitch`, Cancel to `onCancel` and Save to `onSave`.
      A position past the last input reaches no input and changes nothing.
      Calls to the parent are only ever appended, at most one per event; edits
      call nothing, and the buttons leave the draft alone. */
  function Step(editItem: EditTarget, s: Session, event: Event): (r: Session)
    ensures s.emitted <= r.emitted && |r.emitted| <= |s.emitted| + 1
    ensures event.TypeInto? || event.ToggleSwitch? ==> r.emitted == s.emitted
    ensures event.ClickCancel? || event.ClickSave? ==> r.draft == s.draft
    ensures event.TypeInto? ==> (r.draft ==
      if event.input < |Inputs(Fields(s.draft))|
      then HandleChange(s.draft, Inputs(Fields(s.draft))[event.input].key, event.text)
      else s.draft)
    ensures event.ToggleSwitch? ==> r.draft == HandleToggleSwitch(s.draft)
    ensures event.ClickCancel? ==> r.emitted == s.emitted + [OnCancel]
    ensures event.ClickSave? ==> r.emitted == s.emitted + [OnSave(SavePayload(editItem, s.draft))]
  {
    match event
    case TypeInto(i, text) =>
      var inputs := Inputs(Fields(s.draft));
      if i < |inputs| then s.(draft := HandleChange(s.draft, inputs[i].key, text)) else s
    case ToggleSwitch => s.(draft := HandleToggleSwitch(s.draft))
    case ClickCancel => s.(emitted := s.emitted + [OnCancel])
    case ClickSave => s.(emitted := s.emitted + [OnSave(SavePayload(editItem, s.draft))])
  }

  function RunFrom(editItem: EditTarget, s: Session, events: seq<Event>): Session
    decreases |events|
  {
    if events == [] then s else RunFrom(editItem, Step(editItem, s, events[0]), events[1..])
  }

  /** The panel from mounting through the given events. */
  function Run(editItem: EditTarget, events: seq<Event>): Session
  {
    RunFrom(editItem, Session(InitialDraft(editItem), []), events)
  }

  /** Saving straight away hands the parent back exactly what it passed in. */
  lemma SaveUnedited(editItem: EditTarget)
    ensures Run(editItem, [ClickSave]).emitted == [OnSave(editItem)]
  {
  }

  /** Typing into an input changes the property that input shows, which is never
      the instance id nor `isInsideBubble`, and adds no property. */
  lemma TypingSparesHidden(draft: Object, i: nat, text: string)
    requires i < |Inputs(Fields(draft))|
    ensures var next := HandleChange(draft, Inputs(Fields(draft))[i].key, text);
      Get(next, UniqueIdKey) == Get(draft, UniqueIdKey) &&
      Get(next, BubbleKey) == Get(draft, BubbleKey) &&
      Keys(next) == Keys(draft)
  {
    var fields := Fields(draft);
    assert fields[i] in fields;
    var e := fields[i];
    assert e in draft;
    KeyOfEntry(draft, e);
  }

  /** Typing into the `itemLevel` input of an item stores the text itself, so the
      draft no longer is the object of any item: its level is a string, not a number. */
  lemma TypedLevelIsString(item: Item, text: string)
    ensures Get(HandleChange(ItemObject(item), "itemLevel", text), "itemLevel") == Some(Str(text))
    ensures forall other: Item :: ItemObject(other) != HandleChange(ItemObject(item), "itemLevel", text)
  {
    var next := HandleChange(ItemObject(item), "itemLevel", text);
    forall other: Item
      ensures ItemObject(other) != next
    {
      assert Get(ItemObject(other), "itemLevel") != Get(next, "itemLevel");
    }
  }

  /** What the panel keeps of the item it edits: the instance id, and the
      property names when the item has an `isInsideBubble` property (the switch
      would add one otherwise). */
  ghost predicate KeepsIdentity(editItem: EditTarget, draft: Object)
  {
    Get(draft, UniqueIdKey) == Get(editItem.item, UniqueIdKey) &&
    (BubbleKey in Keys(editItem.item) ==> Keys(draft) == Keys(editItem.item))
  }

  /** The draft keeps the item's identity, and every `onSave` so far names the
      cell the panel was opened for and carries a draft that keeps it too. */
  ghost predicate Faithful(editItem: EditTarget, s: Session)
  {
    KeepsIdentity(editItem, s.draft) &&
    forall c :: c in s.emitted && c.OnSave? ==>
      c.payload.rowIndex == editItem.rowIndex &&
      c.payload.columnIndex == editItem.columnIndex &&
      KeepsIdentity(editItem, c.payload.item)
  }

  lemma StepFaithful(editItem: EditTarget, s: Session, event: Event)
    requires Faithful(editItem, s)
    ensures Faithful(editItem, Step(editItem, s, event))
  {
    match event
    case TypeInto(i, text) =>
      if i < |Inputs(Fields(s.draft))| {
        TypingSparesHidden(s.draft, i, text);
      }
    case ToggleSwitch =>
    case ClickCancel =>
    case ClickSave =>
  }

  lemma {:induction false} RunFromFaithful(editItem: EditTarget, s: Session, events: seq<Event>)
    requires Faithful(editItem, s)
    ensures Faithful(editItem, RunFrom(editItem, s, events))
    decreases |events|
  {
    if events != [] {
      StepFaithful(editItem, s, events[0]);
      RunFromFaithful(editItem, Step(editItem, s, events[0]), events[1..]);
    }
  }

  /** Whatever the user does, the draft keeps the item's instance id and property
      names, and every save reports the cell the panel was opened for. */
  lemma RunKeepsIdentity(editItem: EditTarget, events: seq<Event>)
    ensures Faithful(editItem, Run(editItem, events))
  {
    RunFromFaithful(editItem, Session(InitialDraft(editItem), []), events);
  }

  /** Without a click on Save, the parent only ever hears `onCancel`, which
      carries no draft: no edit reaches it. */
  lemma {:induction false} NoSaveNoEdit(editItem: EditTarget, s: Session, events: seq<Event>)
    requires forall c :: c in s.emitted ==> c == OnCancel
    requires ClickSave !in events
    ensures forall c :: c in RunFrom(editItem, s, events).emitted ==> c == OnCancel
    decreases |events|
  {
    if events != [] {
      assert events[0] != ClickSave;
      NoSaveNoEdit(editItem, Step(editItem, s, events[0]), events[1..]);
    }
  }

  /** Whether the events hold an odd number of switch clicks. */
  function OddToggles(events: seq<Event>): bool
    decreases |events|
  {
    if events == [] then false else (events[0] == ToggleSwitch) != OddToggles(events[1..])
  }

  /** `isInsideBubble` changes only through the switch: a boolean flag ends up
      flipped exactly when the switch was clicked an odd number of times. */
  lemma {:induction false} BubbleFollowsToggles(editItem: EditTarget, s: Session, events: seq<Event>, b: bool)
    requires Get(s.draft, BubbleKey) == Some(Bool(b))
    ensures Get(RunFrom(editItem, s, events).draft, BubbleKey) == Some(Bool(b != OddToggles(events)))
    decreases |events|
  {
    if events != [] {
      var next := Step(editItem, s, events[0]);
      if events[0].TypeInto? && events[0].input < |Inputs(Fields(s.draft))| {
        TypingSparesHidden(s.draft, events[0].input, events[0].text);
      }
      BubbleFollowsToggles(editItem, next, events[1..], b != (events[0] == ToggleSwitch));
    }
  }
}
