/** What a successful decode leaves untouched: the history it found stays its prefix, and
    every container it found is unchanged, except the one an enclosing array is filling. */
module Frames {

  import opened Bytes
  import opened Results
  import opened Tokens
  import opened Values
  import opened Scalars
  import opened Unserializer

  /** `st2` extends `st`: the cursor has not gone back, the history and the arena only grew,
      and every container of `st` other than `open` holds what it held. */
  predicate Later(st: State, st2: State, open: int) {
    && st.pos <= st2.pos
    && |st.history| <= |st2.history| && st2.history[..|st.history|] == st.history
    && |st.arena| <= |st2.arena|
    && forall j | 0 <= j < |st.arena| && j != open :: st2.arena[j] == st.arena[j]
  }

  lemma {:induction false} LaterTrans(a: State, b: State, c: State, open: int)
    requires Later(a, b, open) && Later(b, c, open)
    ensures Later(a, c, open)
  {
    assert c.history[..|a.history|] == c.history[..|b.history|][..|a.history|];
  }

  /** Leaving every container alone is a special case of leaving all but `open` alone. */
  lemma {:induction false} LaterOpen(a: State, b: State, open: int)
    requires Later(a, b, -1)
    ensures Later(a, b, open)
  {
  }

  /** Putting into container `h` changes nothing but container `h`. */
  lemma {:induction false} PutFrame(st: State, h: nat, k: Value, v: Value)
    requires h < |st.arena|
    ensures Later(st, st.(arena := st.arena[h := Put(st.arena[h], k, v)]), h)
  {
  }

  /** A value keeps the history and the containers it found. */
  lemma {:induction false} ValueFrame(s: seq<byte>, factory: Option<Factory>, st: State, r: (Value, State))
    requires st.pos <= |s| && DecodeValue(s, factory, st) == Ok(r)
    ensures Later(st, r.1, -1)
    decreases |s| - st.pos, 0
  {
    var st1 := st.(pos := st.pos + 1);
    assert DecodeValue(s, factory, st) == DecodeTagged(s, factory, s[st.pos], st1);
    TaggedFrame(s, factory, s[st.pos], st1, r);
    assert st1.history == st.history;
    LaterTrans(st, st1, r.1, -1);
  }

  lemma {:induction false} TaggedFrame(s: seq<byte>, factory: Option<Factory>, tag: byte, st: State, r: (Value, State))
    requires st.pos <= |s| && DecodeTagged(s, factory, tag, st) == Ok(r)
    ensures Later(st, r.1, -1)
    decreases |s| - st.pos, 1
  {
    if tag == TAG_ARRAY {
      ArrayFrame(s, factory, st, r);
    } else if tag == TAG_OBJECT {
      var o := DecodeObject(s, factory, st).value;
      ObjectFrame(s, factory, st, o);
      assert r.1 == o.1.(history := o.1.history + [o.0]);
      assert r.1.history[..|o.1.history|] == o.1.history;
      LaterTrans(st, o.1, r.1, -1);
    } else {
      var x := DecodeScalar(s, tag, st.pos, st.history).value;
      assert r.1 == st.(pos := x.1, history := st.history + [x.0]);
      assert r.1.history[..|st.history|] == st.history;
    }
  }

  /** An array also enters itself right after the history it found, before its entries. */
  lemma {:induction false} ArrayFrame(s: seq<byte>, factory: Option<Factory>, st: State, r: (Value, State))
    requires st.pos <= |s| && DecodeArray(s, factory, st) == Ok(r)
    ensures Later(st, r.1, -1)
    ensures r.1.history[|st.history|] == r.0
    decreases |s| - st.pos, 0
  {
    var p := ReadExpected(s, st.pos, COLON).value;
    var count := ReadInt(s, p, COLON).value;
    var body := ReadExpected(s, count.1, LBRACE).value;
    var h := |st.arena|;
    var st1 := State(body, st.history + [Arr(h)], st.arena + [[]]);
    var st2 := DecodeEntries(s, factory, st1, h, count.0).value;
    EntriesFrame(s, factory, st1, h, count.0, st2);
    assert r == (Arr(h), st2.(pos := r.1.pos));
    assert st2.history[..|st1.history|][..|st.history|] == st.history;
    assert st2.history[..|st1.history|][|st.history|] == Arr(h);
  }

  /** The entries of container `h` change no other container. */
  lemma {:induction false} EntriesFrame(s: seq<byte>, factory: Option<Factory>, st: State, h: nat, remaining: int, r: State)
    requires st.pos <= |s| && h < |st.arena| && DecodeEntries(s, factory, st, h, remaining) == Ok(r)
    ensures Later(st, r, h)
    decreases |s| - st.pos, 1
  {
    if remaining > 0 {
      var k := DecodeValue(s, factory, st).value;
      ValueFrame(s, factory, st, k);
      var afterKey := k.1.(history := k.1.history[..|k.1.history| - 1]);
      assert afterKey.history[..|st.history|] == k.1.history[..|st.history|];
      assert Later(st, afterKey, -1);
      var v := DecodeValue(s, factory, afterKey).value;
      ValueFrame(s, factory, afterKey, v);
      LaterTrans(st, afterKey, v.1, -1);
      LaterOpen(st, v.1, h);
      var afterValue := v.1.(arena := v.1.arena[h := Put(v.1.arena[h], k.0, v.0)]);
      PutFrame(v.1, h, k.0, v.0);
      LaterTrans(st, v.1, afterValue, h);
      EntriesFrame(s, factory, afterValue, h, remaining - 1, r);
      LaterTrans(st, afterValue, r, h);
    }
  }

  /** The entry loop adds at most one entry to its container per pair it reads: a put
      either replaces an entry or appends one, and nothing else touches the container. */
  lemma {:induction false} EntriesSize(s: seq<byte>, factory: Option<Factory>, st: State, h: nat, remaining: int, r: State)
    requires st.pos <= |s| && h < |st.arena| && DecodeEntries(s, factory, st, h, remaining) == Ok(r)
    ensures |r.arena[h]| <= |st.arena[h]| + (if remaining > 0 then remaining else 0)
    decreases |s| - st.pos, 1
  {
    if remaining > 0 {
      var k := DecodeValue(s, factory, st).value;
      ValueFrame(s, factory, st, k);
      var afterKey := k.1.(history := k.1.history[..|k.1.history| - 1]);
      var v := DecodeValue(s, factory, afterKey).value;
      ValueFrame(s, factory, afterKey, v);
      assert v.1.arena[h] == st.arena[h];
      PutLookup(v.1.arena[h], k.0, v.0);
      var afterValue := v.1.(arena := v.1.arena[h := Put(v.1.arena[h], k.0, v.0)]);
      assert |afterValue.arena[h]| <= |st.arena[h]| + 1;
      EntriesSize(s, factory, afterValue, h, remaining - 1, r);
    }
  }

  /** What an accepted array text is: ':', a count read as a Java `int`, '{', entries, and a
      closing '}' ending the decode; the new container holds no more entries than the count
      allows (none for a count of zero or below). */
  lemma {:induction false} ArrayShape(s: seq<byte>, factory: Option<Factory>, st: State, r: (Value, State))
    requires st.pos <= |s| && DecodeArray(s, factory, st) == Ok(r)
    ensures st.pos < |s| && s[st.pos] == COLON && ReadInt(s, st.pos + 1, COLON).Ok?
    ensures ReadInt(s, st.pos + 1, COLON).value.1 < r.1.pos && s[ReadInt(s, st.pos + 1, COLON).value.1] == LBRACE
    ensures s[r.1.pos - 1] == RBRACE
    ensures |r.1.arena[|st.arena|]|
         <= (if ReadInt(s, st.pos + 1, COLON).value.0 > 0 then ReadInt(s, st.pos + 1, COLON).value.0 else 0)
  {
    var count := ReadInt(s, st.pos + 1, COLON).value;
    var h := |st.arena|;
    var st1 := State(count.1 + 1, st.history + [Arr(h)], st.arena + [[]]);
    var st2 := DecodeEntries(s, factory, st1, h, count.0).value;
    EntriesSize(s, factory, st1, h, count.0, st2);
    assert r.1 == st2.(pos := st2.pos + 1);
  }

  /** An object's container is new, so filling it in leaves the older ones alone. */
  lemma {:induction false} ObjectFrame(s: seq<byte>, factory: Option<Factory>, st: State, r: (Value, State))
    requires st.pos <= |s| && DecodeObject(s, factory, st) == Ok(r)
    ensures Later(st, r.1, -1)
    decreases |s| - st.pos, 0
  {
    var p := ReadExpected(s, st.pos, COLON).value;
    var name := ReadRawString(s, p).value;
    var st0 := st.(pos := name.1);
    var a := DecodeArray(s, factory, st0).value;
    ArrayFrame(s, factory, st0, a);
    assert st0.history == st.history && st0.arena == st.arena;
    var h := a.0.handle;
    if factory.None? {
      PutFrame(a.1, h, Str(CLASS_KEY), Str(name.0));
    }
  }
}
