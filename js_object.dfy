/** Plain JavaScript objects as the item editors handle them: own properties
    in insertion order (the order `Object.entries` yields), property reads that
    may give `undefined`, property assignment on a copy, filtering of the
    entries, and the truthiness test behind the `!` operator. */
module JsObject {
  import opened Wrappers

  /** A JSON value from the loaded board data, or a string typed into an input.
      Numbers in the data are whole (ids and levels), so they are integers here. */
  datatype Value = Null | Bool(b: bool) | Num(n: int) | Str(s: string)

  /** One own property: one element of `Object.entries`. */
  datatype Entry = Entry(key: string, value: Value)

  /** An object is its own properties in insertion order. */
  type Object = seq<Entry>

  /** The property names in order (`Object.keys`). */
  function Keys(o: Object): seq<string>
  {
    if o == [] then [] else [o[0].key] + Keys(o[1..])
  }

  /** The names are the entries' keys, position by position. */
  lemma {:induction false} KeysAt(o: Object)
    ensures |Keys(o)| == |o|
    ensures forall i :: 0 <= i < |o| ==> Keys(o)[i] == o[i].key
  {
    if o != [] {
      KeysAt(o[1..]);
    }
  }

  /** `o[k]`: the value of property `k`, or `None` for `undefined`. */
  function Get(o: Object, k: string): (r: Option<Value>)
    ensures r.Some? <==> k in Keys(o)
    ensures r.Some? ==> Entry(k, r.value) in o
  {
    if o == [] then None
    else if o[0].key == k then Some(o[0].value)
    else Get(o[1..], k)
  }

  /** The key of an entry of an object is one of its keys. */
  lemma {:induction false} KeyOfEntry(o: Object, e: Entry)
    requires e in o
    ensures e.key in Keys(o)
  {
    if o[0] != e {
      KeyOfEntry(o[1..], e);
    }
  }

  /** Reading the property of an entry that no earlier entry shares a key with gives that entry's value. */
  lemma {:induction false} GetAt(o: Object, i: int)
    requires 0 <= i < |o|
    requires forall j :: 0 <= j < i ==> o[j].key != o[i].key
    ensures Get(o, o[i].key) == Some(o[i].value)
  {
    if i > 0 {
      GetAt(o[1..], i - 1);
    }
  }

  /** The object that `o[k] = v` on a copy of `o` produces, which is also what the
      spread `{...o, [k]: v}` builds: an existing property keeps its place and takes
      the new value, a new property goes last. (JavaScript lists array-index keys
      such as "0" first; no property the editors write is one.) */
  function Assign(o: Object, k: string, v: Value): (r: Object)
    ensures Get(r, k) == Some(v)
    ensures forall k' :: k' != k ==> Get(r, k') == Get(o, k')
    ensures Keys(r) == if k in Keys(o) then Keys(o) else Keys(o) + [k]
  {
    if o == [] then [Entry(k, v)]
    else if o[0].key == k then
      var r := [Entry(k, v)] + o[1..];
      assert r[1..] == o[1..];
      assert Keys(r) == Keys(o);
      r
    else
      var rest := Assign(o[1..], k, v);
      var r := [o[0]] + rest;
      assert r[1..] == rest;
      assert Keys(r) == [o[0].key] + Keys(rest);
      assert Keys(o) == [o[0].key] + Keys(o[1..]);
      assert k in Keys(o) <==> k in Keys(o[1..]);
      r
  }

  /** Assigning a property the value it already has gives back the same object. */
  lemma {:induction false} AssignExisting(o: Object, k: string, v: Value)
    requires Get(o, k) == Some(v)
    ensures Assign(o, k, v) == o
  {
    if o[0].key != k {
      AssignExisting(o[1..], k, v);
    }
  }

  /** A second assignment to the same property overrides the first entirely. */
  lemma {:induction false} AssignTwice(o: Object, k: string, v: Value, w: Value)
    ensures Assign(Assign(o, k, v), k, w) == Assign(o, k, w)
  {
    if o != [] && o[0].key != k {
      AssignTwice(o[1..], k, v, w);
      var once := Assign(o, k, v);
      assert once[1..] == Assign(o[1..], k, v);
    }
  }

  /** The entries whose key is not in `hidden`, in their original order: a
      `filter` over `Object.entries`. */
  function Omit(o: Object, hidden: set<string>): (r: Object)
    ensures forall e :: e in r <==> e in o && e.key !in hidden
    ensures |r| <= |o|
  {
    if o == [] then []
    else
      assert o == [o[0]] + o[1..];
      (if o[0].key in hidden then [] else [o[0]]) + Omit(o[1..], hidden)
  }

  /** Filtering keeps the order: it distributes over concatenation. */
  lemma {:induction false} OmitAppend(a: Object, b: Object, hidden: set<string>)
    ensures Omit(a + b, hidden) == Omit(a, hidden) + Omit(b, hidden)
  {
    if a != [] {
      assert (a + b)[0] == a[0];
      assert (a + b)[1..] == a[1..] + b;
      OmitAppend(a[1..], b, hidden);
    } else {
      assert a + b == b;
    }
  }

  /** JavaScript truthiness of a property read; `undefined` is falsy. */
  predicate Truthy(v: Option<Value>)
  {
    match v
    case None => false
    case Some(Null) => false
    case Some(Bool(b)) => b
    case Some(Num(n)) => n != 0
    case Some(Str(s)) => s != ""
  }

  /** `value ?? ""`: what a text input shows for a property value. */
  function Shown(v: Value): (s: Value)
    ensures v == Null ==> s == Str("")
    ensures v != Null ==> s == v
  {
    if v == Null then Str("") else v
  }

  /** One rendered text input: the property its `onChange` writes and the value it shows. */
  datatype Input = Input(key: string, shown: Value)

  /** The inputs rendered for a field list, one per field, in field order. */
  function Inputs(fields: Object): (r: seq<Input>)
    ensures |r| == |fields|
    ensures forall i :: 0 <= i < |fields| ==> r[i].key == fields[i].key && r[i].shown == Shown(fields[i].value)
  {
    seq(|fields|, i requires 0 <= i < |fields| => Input(fields[i].key, Shown(fields[i].value)))
  }
}
