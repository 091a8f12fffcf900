/** Input after a decoded value is never looked at: a decode that succeeds on `s`
    succeeds identically on `s` followed by any bytes `t`. The Java decoder reads its
    source one byte at a time and stops after the last byte of the value. */
module TrailingInput {

  import opened Bytes
  import opened Results
  import opened Tokens
  import opened Values
  import opened Scalars
  import opened Unserializer

  /** `s2` is `s` followed by more bytes. */
  predicate Prefix(s: seq<byte>, s2: seq<byte>) {
    |s| <= |s2| && s2[..|s|] == s
  }

  lemma {:induction false} ReadByteExtends(s: seq<byte>, s2: seq<byte>, pos: nat)
    requires pos <= |s| && Prefix(s, s2) && ReadByte(s, pos).Ok?
    ensures ReadByte(s2, pos) == ReadByte(s, pos)
  {
    assert s2[..|s|][pos] == s2[pos];
  }

  lemma {:induction false} ReadExpectedExtends(s: seq<byte>, s2: seq<byte>, pos: nat, expected: byte)
    requires pos <= |s| && Prefix(s, s2) && ReadExpected(s, pos, expected).Ok?
    ensures ReadExpected(s2, pos, expected) == ReadExpected(s, pos, expected)
  {
    ReadByteExtends(s, s2, pos);
  }

  lemma {:induction false} ReadIntLoopExtends(s: seq<byte>, s2: seq<byte>, pos: nat, terminator: byte,
                                              first: bool, negative: bool, acc: int)
    requires pos <= |s| && Prefix(s, s2) && IsInt32(acc) && ReadIntLoop(s, pos, terminator, first, negative, acc).Ok?
    ensures ReadIntLoop(s2, pos, terminator, first, negative, acc)
         == ReadIntLoop(s, pos, terminator, first, negative, acc)
    decreases |s| - pos
  {
    ReadByteExtends(s, s2, pos);
    var c := s[pos];
    if first && c == MINUS {
      ReadIntLoopExtends(s, s2, pos + 1, terminator, false, true, acc);
    } else if IsDigit(c) {
      ReadIntLoopExtends(s, s2, pos + 1, terminator, false, negative, Wrap32(acc * 10 + DigitValue(c)));
    }
  }

  lemma {:induction false} TakeExtends(s: seq<byte>, s2: seq<byte>, pos: nat, n: int)
    requires pos <= |s| && Prefix(s, s2) && Take(s, pos, n).Ok?
    ensures Take(s2, pos, n) == Take(s, pos, n)
  {
    assert s2[..|s|][pos..pos + n] == s2[pos..pos + n];
  }

  lemma {:induction false} ReadRawStringExtends(s: seq<byte>, s2: seq<byte>, pos: nat)
    requires pos <= |s| && Prefix(s, s2) && ReadRawString(s, pos).Ok?
    ensures ReadRawString(s2, pos) == ReadRawString(s, pos)
  {
    var len := ReadInt(s, pos, COLON).value;
    ReadIntLoopExtends(s, s2, pos, COLON, true, false, 0);
    ReadExpectedExtends(s, s2, len.1, QUOTE);
    TakeExtends(s, s2, len.1 + 1, len.0);
    ReadExpectedExtends(s, s2, len.1 + 1 + len.0, QUOTE);
  }

  lemma {:induction false} ScanDoubleExtends(s: seq<byte>, s2: seq<byte>, pos: nat, first: bool,
                                             allowFraction: bool, lexeme: seq<byte>)
    requires pos <= |s| && Prefix(s, s2) && ScanDouble(s, pos, first, allowFraction, lexeme).Ok?
    ensures ScanDouble(s2, pos, first, allowFraction, lexeme) == ScanDouble(s, pos, first, allowFraction, lexeme)
    decreases |s| - pos
  {
    ReadByteExtends(s, s2, pos);
    var c := s[pos];
    if IsDigit(c) || (first && c == MINUS) {
      ScanDoubleExtends(s, s2, pos + 1, first, allowFraction, lexeme + [c]);
    } else if allowFraction && c == DOT {
      ScanDoubleExtends(s, s2, pos + 1, first, false, lexeme + [c]);
    }
  }

  /** The integer payload of `i:`, `b:` and `R:`, read up to its ';'. */
  lemma {:induction false} IntPayloadExtends(s: seq<byte>, s2: seq<byte>, pos: nat)
    requires pos <= |s| && Prefix(s, s2) && ReadExpected(s, pos, COLON).Ok? && ReadInt(s, pos + 1, SEMICOLON).Ok?
    ensures ReadExpected(s2, pos, COLON) == ReadExpected(s, pos, COLON)
    ensures ReadInt(s2, pos + 1, SEMICOLON) == ReadInt(s, pos + 1, SEMICOLON)
  {
    ReadExpectedExtends(s, s2, pos, COLON);
    ReadIntLoopExtends(s, s2, pos + 1, SEMICOLON, true, false, 0);
  }

  lemma {:induction false} ScalarExtends(s: seq<byte>, s2: seq<byte>, tag: byte, pos: nat, history: seq<Value>)
    requires pos <= |s| && Prefix(s, s2) && DecodeScalar(s, tag, pos, history).Ok?
    ensures DecodeScalar(s2, tag, pos, history) == DecodeScalar(s, tag, pos, history)
  {
    ReadExpectedExtends(s, s2, pos, if tag == TAG_NULL then SEMICOLON else COLON);
    if tag == TAG_STRING {
      ReadRawStringExtends(s, s2, pos + 1);
      ReadExpectedExtends(s, s2, ReadRawString(s, pos + 1).value.1, SEMICOLON);
    } else if tag == TAG_INT || tag == TAG_BOOL || tag == TAG_REF {
      IntPayloadExtends(s, s2, pos);
    } else if tag == TAG_DOUBLE {
      ScanDoubleExtends(s, s2, pos + 1, true, true, []);
    }
  }

  lemma {:induction false} ValueExtends(s: seq<byte>, s2: seq<byte>, factory: Option<Factory>, st: State,
                                        r: (Value, State))
    requires st.pos <= |s| && Prefix(s, s2) && DecodeValue(s, factory, st) == Ok(r)
    ensures DecodeValue(s2, factory, st) == Ok(r)
    decreases |s| - st.pos, 0
  {
    ReadByteExtends(s, s2, st.pos);
    ValueIsTagged(s, factory, st);
    ValueIsTagged(s2, factory, st);
    TaggedExtends(s, s2, factory, s[st.pos], st.(pos := st.pos + 1), r);
  }

  /** Below the end of the input, a value is the dispatch on the byte at the cursor. */
  lemma {:induction false} ValueIsTagged(s: seq<byte>, factory: Option<Factory>, st: State)
    requires st.pos < |s|
    ensures DecodeValue(s, factory, st) == DecodeTagged(s, factory, s[st.pos], st.(pos := st.pos + 1))
  {
  }

  lemma {:induction false} TaggedExtends(s: seq<byte>, s2: seq<byte>, factory: Option<Factory>, tag: byte,
                                         st: State, r: (Value, State))
    requires st.pos <= |s| && Prefix(s, s2) && DecodeTagged(s, factory, tag, st) == Ok(r)
    ensures DecodeTagged(s2, factory, tag, st) == Ok(r)
    decreases |s| - st.pos, 1
  {
    if tag == TAG_ARRAY {
      ArrayExtends(s, s2, factory, st, r);
    } else if tag == TAG_OBJECT {
      ObjectExtends(s, s2, factory, st, DecodeObject(s, factory, st).value);
    } else {
      ScalarExtends(s, s2, tag, st.pos, st.history);
    }
  }

  lemma {:induction false} ArrayExtends(s: seq<byte>, s2: seq<byte>, factory: Option<Factory>, st: State,
                                        r: (Value, State))
    requires st.pos <= |s| && Prefix(s, s2) && DecodeArray(s, factory, st) == Ok(r)
    ensures DecodeArray(s2, factory, st) == Ok(r)
    decreases |s| - st.pos, 0
  {
    ReadExpectedExtends(s, s2, st.pos, COLON);
    ReadIntLoopExtends(s, s2, st.pos + 1, COLON, true, false, 0);
    var count := ReadInt(s, st.pos + 1, COLON).value;
    ReadExpectedExtends(s, s2, count.1, LBRACE);
    var h := |st.arena|;
    var st1 := State(count.1 + 1, st.history + [Arr(h)], st.arena + [[]]);
    var st2 := DecodeEntries(s, factory, st1, h, count.0).value;
    EntriesExtends(s, s2, factory, st1, h, count.0, st2);
    ReadExpectedExtends(s, s2, st2.pos, RBRACE);
  }

  lemma {:induction false} EntriesExtends(s: seq<byte>, s2: seq<byte>, factory: Option<Factory>, st: State,
                                          h: nat, remaining: int, r: State)
    requires st.pos <= |s| && Prefix(s, s2) && h < |st.arena|
    requires DecodeEntries(s, factory, st, h, remaining) == Ok(r)
    ensures DecodeEntries(s2, factory, st, h, remaining) == Ok(r)
    decreases |s| - st.pos, 1
  {
    if remaining > 0 {
      var k, v, next := EntriesUnfold(s, factory, st, h, remaining);
      ValueExtends(s, s2, factory, st, k);
      ValueExtends(s, s2, factory, k.1.(history := k.1.history[..|k.1.history| - 1]), v);
      EntriesExtends(s, s2, factory, next, h, remaining - 1, r);
      EntriesStep(s2, factory, st, h, remaining, k, v);
      assert DecodeEntries(s2, factory, st, h, remaining) == DecodeEntries(s2, factory, next, h, remaining - 1);
    } else {
      EntriesDone(s, factory, st, h, remaining);
      EntriesDone(s2, factory, st, h, remaining);
    }
  }

  /** With no pairs left, the entry loop stops where it is. */
  lemma {:induction false} EntriesDone(s: seq<byte>, factory: Option<Factory>, st: State, h: nat, remaining: int)
    requires st.pos <= |s| && h < |st.arena| && remaining <= 0
    ensures DecodeEntries(s, factory, st, h, remaining) == Ok(st)
  {
  }

  /** A successful round of the entry loop: both calls of the dispatcher succeed, and the
      loop goes on from `next`. */
  lemma {:induction false} EntriesUnfold(s: seq<byte>, factory: Option<Factory>, st: State, h: nat, remaining: int)
    returns (k: (Value, State), v: (Value, State), next: State)
    requires st.pos <= |s| && h < |st.arena| && remaining > 0
    requires DecodeEntries(s, factory, st, h, remaining).Ok?
    ensures DecodeValue(s, factory, st) == Ok(k) && k.1.pos <= |s|
    ensures DecodeValue(s, factory, k.1.(history := k.1.history[..|k.1.history| - 1])) == Ok(v)
    ensures v.1.pos <= |s| && h < |v.1.arena|
    ensures next == v.1.(arena := v.1.arena[h := Put(v.1.arena[h], k.0, v.0)])
    ensures st.pos < next.pos <= |s| && h < |next.arena|
    ensures DecodeEntries(s, factory, next, h, remaining - 1) == DecodeEntries(s, factory, st, h, remaining)
  {
    k := DecodeValue(s, factory, st).value;
    v := DecodeValue(s, factory, k.1.(history := k.1.history[..|k.1.history| - 1])).value;
    next := v.1.(arena := v.1.arena[h := Put(v.1.arena[h], k.0, v.0)]);
  }

  /** One round of the entry loop, given what its two calls of the dispatcher return. */
  lemma {:induction false} EntriesStep(s: seq<byte>, factory: Option<Factory>, st: State, h: nat, remaining: int,
                    k: (Value, State), v: (Value, State))
    requires st.pos <= |s| && h < |st.arena| && remaining > 0
    requires DecodeValue(s, factory, st) == Ok(k)
    requires k.1.pos <= |s|
    requires DecodeValue(s, factory, k.1.(history := k.1.history[..|k.1.history| - 1])) == Ok(v)
    requires v.1.pos <= |s| && h < |v.1.arena|
    ensures DecodeEntries(s, factory, st, h, remaining)
         == DecodeEntries(s, factory, v.1.(arena := v.1.arena[h := Put(v.1.arena[h], k.0, v.0)]), h, remaining - 1)
  {
  }

  lemma {:induction false} ObjectExtends(s: seq<byte>, s2: seq<byte>, factory: Option<Factory>, st: State,
                                         r: (Value, State))
    requires st.pos <= |s| && Prefix(s, s2) && DecodeObject(s, factory, st) == Ok(r)
    ensures DecodeObject(s2, factory, st) == Ok(r)
    decreases |s| - st.pos, 0
  {
    ReadExpectedExtends(s, s2, st.pos, COLON);
    var p := ReadExpected(s, st.pos, COLON).value;
    assert ReadExpected(s2, st.pos, COLON) == Ok(p);
    ReadRawStringExtends(s, s2, p);
    var name := ReadRawString(s, p).value;
    assert ReadRawString(s2, p) == Ok(name);
    var a := DecodeArray(s, factory, st.(pos := name.1)).value;
    ArrayExtends(s, s2, factory, st.(pos := name.1), a);
    assert DecodeArray(s2, factory, st.(pos := name.1)) == Ok(a);
  }

  /** Bytes after the first complete value do not change the result or what was consumed. */
  lemma {:induction false} UnserializeIgnoresTrailing(s: seq<byte>, t: seq<byte>, factory: Option<Factory>)
    requires Unserialize(s, factory).Ok?
    ensures Unserialize(s + t, factory) == Unserialize(s, factory)
  {
    assert Prefix(s, s + t);
    ValueExtends(s, s + t, factory, State(0, [], []), DecodeValue(s, factory, State(0, [], [])).value);
  }
}
