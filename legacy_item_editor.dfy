/** The earlier item editor panel: a draft of the edited item with one text
    input per property except the instance id. Its two buttons have no click
    handlers, so it never calls `onSave` or `onCancel`. */
module LegacyItemEditor {
  import opened Wrappers
  import opened JsObject
  import opened Types
  import opened Draft

  /** The properties that get a text input: every entry of the draft but the
      instance id, in order; `isInsideBubble` is among them. */
  function Fields(draft: Object): (fields: Object)
    ensures forall e :: e in fields <==> e in draft && e.key != UniqueIdKey
  {
    Omit(draft, {UniqueIdKey})
  }

  /** The field list keeps the draft's order: the fields of two consecutive
      runs of properties are the fields of the first followed by those of the second. */
  lemma FieldsKeepOrder(a: Object, b: Object)
    ensures Fields(a + b) == Fields(a) + Fields(b)
  {
    OmitAppend(a, b, {UniqueIdKey});
  }

  /** What the user can do: type into the text input at a position, or click
      one of the two buttons. */
  datatype Event = TypeInto(input: nat, text: string) | ClickButton(button: nat)

  /** One event: typing goes through `handleChange` for the property the input
      shows; a button click has no handler and changes nothing. */
  function Step(draft: Object, event: Event): (r: Object)
    ensures event.ClickButton? ==> r == draft
    ensures event.TypeInto? ==> (r ==
      if event.input < |Inputs(Fields(draft))|
      then HandleChange(draft, Inputs(Fields(draft))[event.input].key, event.text)
      else draft)
    ensures Get(r, UniqueIdKey) == Get(draft, UniqueIdKey)
    ensures Keys(r) == Keys(draft)
  {
    match event
    case TypeInto(i, text) =>
      var inputs := Inputs(Fields(draft));
      if i < |inputs| then
        var e := Fields(draft)[i];
        assert e in Fields(draft);
        KeyOfEntry(draft, e);
        HandleChange(draft, inputs[i].key, text)
      else draft
    case ClickButton(_) => draft
  }

  function RunFrom(draft: Object, events: seq<Event>): Object
    decreases |events|
  {
    if events == [] then draft else RunFrom(Step(draft, events[0]), events[1..])
  }

  /** The draft after the panel handled the events. The panel has nothing else
      to report: no event reaches `onSave`. */
  function Run(editItem: EditTarget, events: seq<Event>): Object
  {
    RunFrom(InitialDraft(editItem), events)
  }

  /** Each property but the instance id has an input that writes it. (`Inputs`
      gives one input per field in field order, and `Omit` keeps the draft's order.) */
  lemma OneInputPerField(draft: Object, e: Entry)
    requires e in draft && e.key != UniqueIdKey
    ensures exists i :: 0 <= i < |Inputs(Fields(draft))| && Inputs(Fields(draft))[i].key == e.key
  {
    var fields := Fields(draft);
    var i :| 0 <= i < |fields| && fields[i] == e;
    assert Inputs(fields)[i].key == e.key;
  }

  /** `isInsideBubble` is edited as text here: typing into its input stores the
      string typed in place of the boolean. */
  lemma BubbleTypedAsText(draft: Object, text: string)
    requires Get(draft, BubbleKey).Some?
    ensures exists i ::
              0 <= i < |Inputs(Fields(draft))| && Inputs(Fields(draft))[i].key == BubbleKey &&
              Get(Step(draft, TypeInto(i, text)), BubbleKey) == Some(Str(text))
  {
    OneInputPerField(draft, Entry(BubbleKey, Get(draft, BubbleKey).value));
  }

  /** Whatever the user does, the instance id and the property names stay as they were. */
  lemma {:induction false} RunKeepsIdentity(draft: Object, events: seq<Event>)
    ensures Get(RunFrom(draft, events), UniqueIdKey) == Get(draft, UniqueIdKey)
    ensures Keys(RunFrom(draft, events)) == Keys(draft)
    decreases |events|
  {
    if events != [] {
      RunKeepsIdentity(Step(draft, events[0]), events[1..]);
    }
  }

  /** A button click anywhere in a run changes nothing: the run ends with the
      draft it would reach without that click. */
  lemma {:induction false} ClickChangesNothing(draft: Object, before: seq<Event>, button: nat, after: seq<Event>)
    ensures RunFrom(draft, before + [ClickButton(button)] + after) == RunFrom(draft, before + after)
    decreases |before|
  {
    var events := before + [ClickButton(button)] + after;
    if before == [] {
      assert events == [ClickButton(button)] + after;
      assert events[1..] == after;
      assert before + after == after;
    } else {
      assert events[0] == before[0];
      assert events[1..] == before[1..] + [ClickButton(button)] + after;
      assert (before + after)[0] == before[0];
      assert (before + after)[1..] == before[1..] + after;
      ClickChangesNothing(Step(draft, before[0]), before[1..], button, after);
    }
  }
}
