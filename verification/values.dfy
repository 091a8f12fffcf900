/** The dynamic value model: what one decoded `Mixed` can be, and the insertion-ordered
    key/value container (`MixedArray`) that arrays and object properties are decoded into.

    Containers are not nested inside values: they live in an arena owned by the decoder and
    a value refers to one by its handle, so that a back-reference, or an array that contains
    itself, is the same container and not a copy. */
module Values {

  import opened Bytes
  import opened Results

  datatype Value =
    | Null                        // N;
    | Bool(b: bool)               // b:0; / b:1;
    | Int(i: int)                 // i:...; as a Java int
    | Double(lexeme: seq<byte>)   // d:...; kept as the accepted lexeme
    | Str(bytes: seq<byte>)       // s:...; kept as raw bytes
    | Arr(handle: nat)            // a container in the arena (arrays, property bags)
    | Host(obj: Instance)         // an object built by an object factory

  /** A field of a reconstructed object: the class that declares it and its name. */
  datatype FieldSlot = FieldSlot(owner: seq<byte>, name: seq<byte>)

  /** A host-language object: its class and the fields the factory has assigned. */
  datatype Instance = Instance(className: seq<byte>, fields: map<FieldSlot, Value>)

  datatype Entry = Entry(key: Value, value: Value)

  /** The position of the first entry with key `key`, if any (see `IndexOfFirst`). */
  function IndexOf(entries: seq<Entry>, key: Value): (r: Option<nat>)
    ensures r.Some? ==> r.value < |entries|
  {
    if |entries| == 0 then None
    else if entries[0].key == key then Some(0)
    else match IndexOf(entries[1..], key)
      case None => None
      case Some(i) => Some(i + 1)
  }

  /** `IndexOf` finds the first entry with the key, and finds nothing only when no entry
      has it. */
  lemma {:induction false} IndexOfFirst(entries: seq<Entry>, key: Value)
    ensures var r := IndexOf(entries, key);
      && (r.None? <==> forall i | 0 <= i < |entries| :: entries[i].key != key)
      && (r.Some? ==> entries[r.value].key == key)
      && (r.Some? ==> forall i | 0 <= i < r.value :: entries[i].key != key)
  {
    if |entries| > 0 && entries[0].key != key {
      IndexOfFirst(entries[1..], key);
      forall i | 0 < i < |entries|
        ensures entries[i].key == entries[1..][i - 1].key
      {
      }
    }
  }

  /** The value stored under `key`, if any. */
  function Lookup(entries: seq<Entry>, key: Value): Option<Value> {
    match IndexOf(entries, key)
    case None => None
    case Some(i) => Some(entries[i].value)
  }

  /** A key is found exactly when some entry has it, and then with the value of the first
      entry that has it. */
  lemma {:induction false} LookupFinds(entries: seq<Entry>, key: Value)
    ensures Lookup(entries, key).Some? <==> exists i | 0 <= i < |entries| :: entries[i].key == key
    ensures forall i | 0 <= i < |entries| && entries[i].key == key && KeyFreeBefore(entries, key, i)
      :: Lookup(entries, key) == Some(entries[i].value)
  {
    IndexOfFirst(entries, key);
    forall i | 0 <= i < |entries| && entries[i].key == key && KeyFreeBefore(entries, key, i)
      ensures Lookup(entries, key) == Some(entries[i].value)
    {
      var j := IndexOf(entries, key).value;
      assert entries[j].key == key;
    }
  }

  /** No entry before position `i` has key `key`. */
  predicate KeyFreeBefore(entries: seq<Entry>, key: Value, i: nat)
    requires i <= |entries|
  {
    forall j | 0 <= j < i :: entries[j].key != key
  }

  /** `MixedArray.put`: a new key is appended at the end, an existing key keeps its place
      and gets the new value. */
  function Put(entries: seq<Entry>, key: Value, value: Value): seq<Entry> {
    match IndexOf(entries, key)
    case None => entries + [Entry(key, value)]
    case Some(i) => entries[i := Entry(key, value)]
  }

  /** After `Put`, the key holds the new value; a new key went to the end, an existing key
      had its entry replaced where it stood; every other key holds what it held before. */
  lemma {:induction false} PutLookup(entries: seq<Entry>, key: Value, value: Value)
    ensures Lookup(Put(entries, key, value), key) == Some(value)
    ensures IndexOf(entries, key).None? ==> Put(entries, key, value) == entries + [Entry(key, value)]
    ensures IndexOf(entries, key).Some? ==>
      Put(entries, key, value) == entries[IndexOf(entries, key).value := Entry(key, value)]
    ensures forall k | k != key :: Lookup(Put(entries, key, value), k) == Lookup(entries, k)
  {
    var r := Put(entries, key, value);
    IndexOfFirst(entries, key);
    match IndexOf(entries, key)
    case None =>
      IndexOfAppend(entries, Entry(key, value), key);
      forall k | k != key
        ensures Lookup(r, k) == Lookup(entries, k)
      {
        IndexOfAppend(entries, Entry(key, value), k);
      }
    case Some(i) =>
      assert r == entries[i := Entry(entries[i].key, value)];
      IndexOfUpdate(entries, i, value);
      forall k | k != key
        ensures Lookup(r, k) == Lookup(entries, k)
      {
        IndexOfFirst(entries, k);
      }
  }

  lemma {:induction false} IndexOfAppend(entries: seq<Entry>, e: Entry, key: Value)
    ensures IndexOf(entries + [e], key)
         == if IndexOf(entries, key).Some? then IndexOf(entries, key)
            else if e.key == key then Some(|entries|) else None
  {
    if |entries| > 0 {
      assert (entries + [e])[1..] == entries[1..] + [e];
      IndexOfAppend(entries[1..], e, key);
    }
  }

  lemma {:induction false} IndexOfUpdate(entries: seq<Entry>, i: nat, value: Value)
    requires i < |entries|
    ensures forall k :: IndexOf(entries[i := Entry(entries[i].key, value)], k) == IndexOf(entries, k)
  {
    var r := entries[i := Entry(entries[i].key, value)];
    forall k
      ensures IndexOf(r, k) == IndexOf(entries, k)
    {
      if i > 0 {
        assert r[1..] == entries[1..][i - 1 := Entry(entries[i].key, value)];
        IndexOfUpdate(entries[1..], i - 1, value);
      }
    }
  }
}
