/** How one call of the dispatcher moves the cursor and the reference history: what is
    appended, when, and what the key rule of arrays removes. */
module HistoryFacts {

  import opened Bytes
  import opened Results
  import opened Tokens
  import opened Values
  import opened Scalars
  import opened Unserializer
  import opened Frames

  /** A scalar or a back-reference is appended to the history exactly once, after its
      payload is read, and nothing else changes. */
  lemma {:induction false} ScalarAppendsOnce(s: seq<byte>, factory: Option<Factory>, st: State)
    requires st.pos < |s| && IsScalarTag(s[st.pos])
    ensures var r := DecodeValue(s, factory, st);
      match DecodeScalar(s, s[st.pos], st.pos + 1, st.history)
      case Ok((v, next)) => r == Ok((v, State(next, st.history + [v], st.arena)))
      case Fail(e) => r == Fail(e)
  {
  }

  /** A scalar token the payload reader accepts is the decoded value, appended once. */
  lemma {:induction false} ScalarDecodes(s: seq<byte>, factory: Option<Factory>, st: State, tag: byte, v: Value, next: nat)
    requires st.pos < |s| && s[st.pos] == tag && IsScalarTag(tag)
    requires DecodeScalar(s, tag, st.pos + 1, st.history) == Ok((v, next))
    ensures DecodeValue(s, factory, st) == Ok((v, State(next, st.history + [v], st.arena)))
  {
    ScalarAppendsOnce(s, factory, st);
  }

  /** A tag outside `N b i d s a O R` fails, naming the tag. */
  lemma {:induction false} UnknownTagFails(s: seq<byte>, factory: Option<Factory>, st: State)
    requires st.pos < |s|
    requires !IsScalarTag(s[st.pos]) && s[st.pos] != TAG_ARRAY && s[st.pos] != TAG_OBJECT
    ensures DecodeValue(s, factory, st) == Fail(UnknownType(s[st.pos]))
  {
  }

  /** Decoding at the end of the data fails; there is no empty value. */
  lemma {:induction false} EndOfDataFails(s: seq<byte>, factory: Option<Factory>, st: State)
    requires st.pos == |s|
    ensures DecodeValue(s, factory, st) == Fail(EndOfData)
  {
  }

  /** Every result except an array's is the last history entry when the call returns;
      an array is the entry right after the history it found, entered before its entries. */
  lemma {:induction false} ResultPlaceInHistory(s: seq<byte>, factory: Option<Factory>, st: State)
    requires st.pos <= |s| && DecodeValue(s, factory, st).Ok?
    ensures var (v, st2) := DecodeValue(s, factory, st).value;
      && (s[st.pos] != TAG_ARRAY ==> st2.history[|st2.history| - 1] == v)
      && (s[st.pos] == TAG_ARRAY ==> v == Arr(|st.arena|) && st2.history[|st.history|] == v)
  {
    var r := DecodeValue(s, factory, st).value;
    var st1 := st.(pos := st.pos + 1);
    assert DecodeValue(s, factory, st) == DecodeTagged(s, factory, s[st.pos], st1);
    if s[st.pos] == TAG_ARRAY {
      ArrayFrame(s, factory, st1, r);
    }
  }

  /** `a:0:{}` is a new empty container and is itself the last history entry: used as a
      key, it is what the key rule of arrays removes. */
  lemma {:induction false} EmptyArrayDecodes(s: seq<byte>, factory: Option<Factory>, st: State)
    requires At(s, st.pos, [TAG_ARRAY, COLON, ZERO, COLON, LBRACE, RBRACE])
    ensures DecodeValue(s, factory, st)
         == Ok((Arr(|st.arena|), State(st.pos + 6, st.history + [Arr(|st.arena|)], st.arena + [[]])))
  {
    var w: seq<byte> := [TAG_ARRAY, COLON, ZERO, COLON, LBRACE, RBRACE];
    AtIndex(s, st.pos, w, 0);
    EmptyBodyDecodes(s, factory, st.(pos := st.pos + 1));
  }

  /** The part of `a:0:{}` after the tag. */
  lemma {:induction false} EmptyBodyDecodes(s: seq<byte>, factory: Option<Factory>, st: State)
    requires At(s, st.pos, [COLON, ZERO, COLON, LBRACE, RBRACE])
    ensures DecodeArray(s, factory, st)
         == Ok((Arr(|st.arena|), State(st.pos + 5, st.history + [Arr(|st.arena|)], st.arena + [[]])))
  {
    var w: seq<byte> := [COLON, ZERO, COLON, LBRACE, RBRACE];
    AtSplit(s, st.pos, w[..1], w[1..]);
    AtSplit(s, st.pos + 1, IntToken(false, [ZERO], COLON), w[3..]);
    assert DecimalValue([ZERO]) == 0 by {
      assert [ZERO][..0] == [];
    }
    ReadIntComplete(s, st.pos + 1, COLON, false, [ZERO]);
    AtIndex(s, st.pos, w, 0);
    AtIndex(s, st.pos, w, 3);
    AtIndex(s, st.pos, w, 4);
    var h := |st.arena|;
    var st1 := State(st.pos + 4, st.history + [Arr(h)], st.arena + [[]]);
    assert DecodeEntries(s, factory, st1, h, 0) == Ok(st1);
  }

  /** After a scalar key, removing the last history entry removes exactly that key: the
      history is as it was before the key. */
  lemma {:induction false} ScalarKeyLeavesNoTrace(s: seq<byte>, factory: Option<Factory>, st: State)
    requires st.pos < |s| && IsScalarTag(s[st.pos]) && DecodeValue(s, factory, st).Ok?
    ensures var st2 := DecodeValue(s, factory, st).value.1;
      st2.history[..|st2.history| - 1] == st.history
  {
    ScalarAppendsOnce(s, factory, st);
  }

  /** One pair of an array with a scalar key and a scalar value: the key leaves no trace in
      the history, the value is appended once, and the pair is put into the container. */
  lemma {:induction false} ScalarPair(s: seq<byte>, factory: Option<Factory>, st: State, h: nat, remaining: int,
                                      k: Value, kEnd: nat, v: Value, vEnd: nat)
    requires st.pos < |s| && h < |st.arena| && remaining > 0
    requires IsScalarTag(s[st.pos]) && DecodeScalar(s, s[st.pos], st.pos + 1, st.history) == Ok((k, kEnd))
    requires kEnd < |s| && IsScalarTag(s[kEnd]) && DecodeScalar(s, s[kEnd], kEnd + 1, st.history) == Ok((v, vEnd))
    ensures DecodeEntries(s, factory, st, h, remaining)
         == DecodeEntries(s, factory, State(vEnd, st.history + [v], st.arena[h := Put(st.arena[h], k, v)]),
                          h, remaining - 1)
  {
    var key := (k, State(kEnd, st.history + [k], st.arena));
    var value := (v, State(vEnd, st.history + [v], st.arena));
    ScalarKeyValue(s, factory, st, k, kEnd, v, vEnd);
    EntriesRoundOk(s, factory, st, h, remaining, key, value);
    assert value.1.(arena := value.1.arena[h := Put(value.1.arena[h], k, v)])
        == State(vEnd, st.history + [v], st.arena[h := Put(st.arena[h], k, v)]);
  }

  /** One round of the entry loop in which the value is read as well: the pair is put and
      the loop goes on from the state the value left. */
  lemma {:induction false} EntriesRoundOk(s: seq<byte>, factory: Option<Factory>, st: State, h: nat, remaining: int,
                                          key: (Value, State), value: (Value, State))
    requires st.pos <= |s| && h < |st.arena| && remaining > 0
    requires DecodeValue(s, factory, st) == Ok(key) && key.1.pos <= |s|
    requires DecodeValue(s, factory, key.1.(history := key.1.history[..|key.1.history| - 1])) == Ok(value)
    requires value.1.pos <= |s| && h < |value.1.arena|
    ensures DecodeEntries(s, factory, st, h, remaining)
         == DecodeEntries(s, factory, value.1.(arena := value.1.arena[h := Put(value.1.arena[h], key.0, value.0)]),
                          h, remaining - 1)
  {
    EntriesRound(s, factory, st, h, remaining, key);
  }

  /** A scalar key read from `st`, then a scalar value read with the key's entry removed. */
  lemma {:induction false} ScalarKeyValue(s: seq<byte>, factory: Option<Factory>, st: State,
                                          k: Value, kEnd: nat, v: Value, vEnd: nat)
    requires st.pos < |s| && IsScalarTag(s[st.pos]) && DecodeScalar(s, s[st.pos], st.pos + 1, st.history) == Ok((k, kEnd))
    requires kEnd < |s| && IsScalarTag(s[kEnd]) && DecodeScalar(s, s[kEnd], kEnd + 1, st.history) == Ok((v, vEnd))
    ensures DecodeValue(s, factory, st) == Ok((k, State(kEnd, st.history + [k], st.arena)))
    ensures var afterKey := State(kEnd, (st.history + [k])[..|st.history|], st.arena);
      DecodeValue(s, factory, afterKey) == Ok((v, State(vEnd, st.history + [v], st.arena)))
  {
    ScalarDecodes(s, factory, st, s[st.pos], k, kEnd);
    assert (st.history + [k])[..|st.history|] == st.history;
    ScalarDecodes(s, factory, State(kEnd, st.history, st.arena), s[kEnd], v, vEnd);
  }

  /** One round of the entry loop once the key is read: the value is read from the state
      the key left, with the key's history entry removed. */
  lemma {:induction false} EntriesRound(s: seq<byte>, factory: Option<Factory>, st: State, h: nat, remaining: int,
                                        key: (Value, State))
    requires st.pos <= |s| && h < |st.arena| && remaining > 0
    requires DecodeValue(s, factory, st) == Ok(key) && key.1.pos <= |s|
    ensures var afterKey := key.1.(history := key.1.history[..|key.1.history| - 1]);
      DecodeEntries(s, factory, st, h, remaining)
      == match DecodeValue(s, factory, afterKey)
         case Ok(value) =>
           DecodeEntries(s, factory, value.1.(arena := value.1.arena[h := Put(value.1.arena[h], key.0, value.0)]),
                         h, remaining - 1)
         case Fail(e) => Fail(e)
  {
  }

  /** Without a factory, an object is its property container with `"class"` mapped to the
      class name; it occupies two history slots: the container entered by the array body
      and the finished object appended at the end. */
  lemma {:induction false} ObjectWithoutFactory(s: seq<byte>, st: State, name: seq<byte>)
    requires |name| < TWO_31
    requires At(s, st.pos, [TAG_OBJECT, COLON] + RawToken(name))
    requires DecodeValue(s, None, st).Ok?
    ensures var (v, st2) := DecodeValue(s, None, st).value;
      && v == Arr(|st.arena|) && |st.arena| < |st2.arena|
      && st2.history[|st.history|] == v && st2.history[|st2.history| - 1] == v
      && Lookup(st2.arena[v.handle], Str(CLASS_KEY)) == Some(Str(name))
  {
    var after := ObjectPrelude(s, st, name);
    var st1 := st.(pos := st.pos + 1);
    assert DecodeValue(s, None, st) == DecodeTagged(s, None, TAG_OBJECT, st1);
    var st0 := st.(pos := after);
    assert DecodeObject(s, None, st1).Ok?;
    assert DecodeArray(s, None, st0).Ok?;
    var a := DecodeArray(s, None, st0).value;
    ArrayFrame(s, None, st0, a);
    var h := a.0.handle;
    var props := Put(a.1.arena[h], Str(CLASS_KEY), Str(name));
    PutLookup(a.1.arena[h], Str(CLASS_KEY), Str(name));
    var st3 := a.1.(arena := a.1.arena[h := props]);
    assert DecodeObject(s, None, st1) == Ok((Arr(h), st3));
  }

  /** The header of an object: the tag, ':', and the class name as a raw string. */
  lemma {:induction false} ObjectPrelude(s: seq<byte>, st: State, name: seq<byte>) returns (after: nat)
    requires |name| < TWO_31
    requires At(s, st.pos, [TAG_OBJECT, COLON] + RawToken(name))
    ensures after == st.pos + 2 + |RawToken(name)| <= |s|
    ensures ReadByte(s, st.pos) == Ok((TAG_OBJECT, st.pos + 1))
    ensures ReadExpected(s, st.pos + 1, COLON) == Ok(st.pos + 2)
    ensures ReadRawString(s, st.pos + 2) == Ok((name, after))
  {
    ObjectHeader(s, st.pos, RawToken(name));
    RawStringRoundTrip(s, st.pos + 2, name);
    after := st.pos + 2 + |RawToken(name)|;
  }

  lemma {:induction false} ObjectHeader(s: seq<byte>, pos: nat, rest: seq<byte>)
    requires At(s, pos, [TAG_OBJECT, COLON] + rest)
    ensures pos + 1 < |s| && s[pos] == TAG_OBJECT && s[pos + 1] == COLON && At(s, pos + 2, rest)
  {
    AtSplit(s, pos, [TAG_OBJECT, COLON], rest);
    AtIndex(s, pos, [TAG_OBJECT, COLON], 0);
    AtIndex(s, pos, [TAG_OBJECT, COLON], 1);
  }

  /** With a factory, an object is whatever the factory builds from the class name and the
      decoded properties, and a factory failure is the decode's failure. */
  lemma {:induction false} ObjectWithFactory(s: seq<byte>, make: Factory, st: State, name: seq<byte>)
    requires |name| < TWO_31
    requires At(s, st.pos, [TAG_OBJECT, COLON] + RawToken(name))
    requires DecodeArray(s, Some(make), st.(pos := st.pos + 2 + |RawToken(name)|)).Ok?
    ensures var (a, st2) := DecodeArray(s, Some(make), st.(pos := st.pos + 2 + |RawToken(name)|)).value;
      match make(name, st2.arena[a.handle])
      case Ok(obj) => DecodeValue(s, Some(make), st) == Ok((Host(obj), st2.(history := st2.history + [Host(obj)])))
      case Fail(e) => DecodeValue(s, Some(make), st) == Fail(e)
  {
    var after := ObjectPrelude(s, st, name);
    assert DecodeValue(s, Some(make), st) == DecodeTagged(s, Some(make), TAG_OBJECT, st.(pos := st.pos + 1));
    assert st.(pos := st.pos + 2 + |RawToken(name)|) == st.(pos := after);
    var a := DecodeArray(s, Some(make), st.(pos := after)).value;
    FactoryObject(s, make, st.(pos := st.pos + 1), name, after);
    match make(name, a.1.arena[a.0.handle])
    case Ok(obj) =>
      assert DecodeValue(s, Some(make), st) == Ok((Host(obj), a.1.(history := a.1.history + [Host(obj)])));
    case Fail(e) =>
      assert DecodeValue(s, Some(make), st) == Fail(e);
  }

  /** `unserializeObject`'s object branch with a factory, once the class name is read. */
  lemma {:induction false} FactoryObject(s: seq<byte>, make: Factory, st: State, name: seq<byte>, after: nat)
    requires st.pos <= |s| && ReadExpected(s, st.pos, COLON) == Ok(st.pos + 1)
    requires ReadRawString(s, st.pos + 1) == Ok((name, after))
    requires DecodeArray(s, Some(make), st.(pos := after)).Ok?
    ensures var (a, st2) := DecodeArray(s, Some(make), st.(pos := after)).value;
      match make(name, st2.arena[a.handle])
      case Ok(obj) => DecodeObject(s, Some(make), st) == Ok((Host(obj), st2))
      case Fail(e) => DecodeObject(s, Some(make), st) == Fail(e)
  {
  }
}
