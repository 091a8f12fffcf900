/** The recursive-descent decoder of `Unserializer`: the tag dispatch of
    `unserializeObject`, arrays, objects, and the history used to resolve `R:n`.

    The Java decoder mutates a cursor, a history list and the `MixedArray`s it creates;
    here that state is a `State` value threaded through the functions. Containers live in
    `arena`, indexed by handle: an array is entered into the arena and into the history
    before its entries are read, so an entry can refer back to the array itself. */
module Unserializer {

  import opened Bytes
  import opened Results
  import opened Tokens
  import opened Values
  import opened Scalars

  /** Cursor position, reference history and the containers created so far. */
  datatype State = State(pos: nat, history: seq<Value>, arena: seq<seq<Entry>>)

  /** An `ObjectFactory`: builds a host object from a class name and its properties. */
  type Factory = (seq<byte>, seq<Entry>) -> Result<Instance>

  /** The key `unserializeSerializable` adds to a property bag when no factory is set. */
  const CLASS_KEY: seq<byte> := [99, 108, 97, 115, 115] // "class"

  /** How far a successful call may move the state: the cursor and the history have
      advanced (`strict`) or at least not gone back, and no container has disappeared. */
  predicate Grows(st: State, st2: State, strict: bool) {
    && (if strict then st.pos < st2.pos && |st.history| < |st2.history|
        else st.pos <= st2.pos && |st.history| <= |st2.history|)
    && |st.arena| <= |st2.arena|
  }

  /** `unserializeObject`: one value, whatever its tag. */
  function DecodeValue(s: seq<byte>, factory: Option<Factory>, st: State): (r: Result<(Value, State)>)
    requires st.pos <= |s|
    ensures r.Ok? ==> r.value.1.pos <= |s| && Grows(st, r.value.1, true)
    decreases |s| - st.pos, 0
  {
    var t :- ReadByte(s, st.pos);
    DecodeTagged(s, factory, t.0, st.(pos := t.1))
  }

  /** The `switch` of `unserializeObject` on the tag just read. Every result except an
      array's is appended to the history after it is complete; an array has entered itself
      already. */
  function DecodeTagged(s: seq<byte>, factory: Option<Factory>, tag: byte, st: State)
    : (r: Result<(Value, State)>)
    requires st.pos <= |s|
    ensures r.Ok? ==> r.value.1.pos <= |s| && Grows(st, r.value.1, false) && |st.history| < |r.value.1.history|
    decreases |s| - st.pos, 1
  {
    if tag == TAG_ARRAY then
      DecodeArray(s, factory, st)
    else if tag == TAG_OBJECT then
      var o :- DecodeObject(s, factory, st);
      Ok((o.0, o.1.(history := o.1.history + [o.0])))
    else
      var x :- DecodeScalar(s, tag, st.pos, st.history);
      Ok((x.0, st.(pos := x.1, history := st.history + [x.0])))
  }

  /** `unserializeArray`: `:count:{` key/value pairs `}`. The container is created and
      appended to the history before any entry is read; it is not appended again. */
  function DecodeArray(s: seq<byte>, factory: Option<Factory>, st: State): (r: Result<(Value, State)>)
    requires st.pos <= |s|
    ensures r.Ok? ==> var (v, st2) := r.value;
      v == Arr(|st.arena|) && |st.arena| < |st2.arena| && st2.pos <= |s| && Grows(st, st2, true)
    ensures r.Ok? ==> 0 < r.value.1.pos && s[r.value.1.pos - 1] == RBRACE
    decreases |s| - st.pos, 0
  {
    var p :- ReadExpected(s, st.pos, COLON);
    var count :- ReadInt(s, p, COLON);
    var body :- ReadExpected(s, count.1, LBRACE);
    var h := |st.arena|;
    var st1 := State(body, st.history + [Arr(h)], st.arena + [[]]);
    var st2 :- DecodeEntries(s, factory, st1, h, count.0);
    var close :- ReadExpected(s, st2.pos, RBRACE);
    Ok((Arr(h), st2.(pos := close)))
  }

  /** The loop of `unserializeArray`: `remaining` more pairs go into container `h`. After
      each key the last history entry is removed, then the value is read and put. */
  function DecodeEntries(s: seq<byte>, factory: Option<Factory>, st: State, h: nat, remaining: int)
    : (r: Result<State>)
    requires st.pos <= |s| && h < |st.arena|
    ensures r.Ok? ==> r.value.pos <= |s| && Grows(st, r.value, false)
    decreases |s| - st.pos, 1
  {
    if remaining <= 0 then Ok(st)
    else
      var k :- DecodeValue(s, factory, st);
      var afterKey := k.1.(history := k.1.history[..|k.1.history| - 1]);
      var v :- DecodeValue(s, factory, afterKey);
      var afterValue := v.1.(arena := v.1.arena[h := Put(v.1.arena[h], k.0, v.0)]);
      DecodeEntries(s, factory, afterValue, h, remaining - 1)
  }

  /** `unserializeSerializable`: `:len:"name"` followed by an array body. Without a factory
      the property container itself, with a `"class"` entry added, is the result; with one,
      the factory builds the result from the name and the properties. */
  function DecodeObject(s: seq<byte>, factory: Option<Factory>, st: State): (r: Result<(Value, State)>)
    requires st.pos <= |s|
    ensures r.Ok? ==> r.value.1.pos <= |s| && Grows(st, r.value.1, true)
    decreases |s| - st.pos, 0
  {
    var p :- ReadExpected(s, st.pos, COLON);
    var name :- ReadRawString(s, p);
    var a :- DecodeArray(s, factory, st.(pos := name.1));
    var st2 := a.1;
    var h := a.0.handle;
    match factory
    case None =>
      var props := Put(st2.arena[h], Str(CLASS_KEY), Str(name.0));
      Ok((Arr(h), st2.(arena := st2.arena[h := props])))
    case Some(make) =>
      var obj :- make(name.0, st2.arena[h]);
      Ok((Host(obj), st2))
  }

  /** What one top-level decode produces: the root value, the containers it refers to, and
      how many bytes were consumed (input after them is not looked at). */
  datatype Decoded = Decoded(root: Value, arena: seq<seq<Entry>>, consumed: nat)

  /** `new Unserializer(data).unserializeObject()`, with an optional object factory. */
  function Unserialize(s: seq<byte>, factory: Option<Factory>): (r: Result<Decoded>)
    ensures r.Ok? ==> 0 < r.value.consumed <= |s|
  {
    var d :- DecodeValue(s, factory, State(0, [], []));
    Ok(Decoded(d.0, d.1.arena, d.1.pos))
  }
}
