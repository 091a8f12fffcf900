/** Arrays whose keys and values are scalars: the decoder puts their pairs into a new
    container in order, as `MixedArray.put` would, and keeps only the values in the history. */
module ScalarArrays {

  import opened Bytes
  import opened Results
  import opened Tokens
  import opened Values
  import opened Scalars
  import opened Unserializer
  import opened Encoding
  import opened TrailingInput

  /** The container after putting the pairs one by one, in order. */
  function PutAll(entries: seq<Entry>, es: seq<Entry>): seq<Entry>
    decreases |es|
  {
    if |es| == 0 then entries else PutAll(Put(entries, es[0].key, es[0].value), es[1..])
  }

  /** The values of the pairs in order: what the history keeps of an array body. */
  function ValuesOf(es: seq<Entry>): (vs: seq<Value>)
    ensures |vs| == |es|
    decreases |es|
  {
    if |es| == 0 then [] else [es[0].value] + ValuesOf(es[1..])
  }

  /** A trigger and nothing more: it holds of every state, and a proof that mentions
      `Chosen(st)` is how it picks a state `st` at which a fact about all states is used. */
  predicate Chosen(st: State) {
    true
  }

  /** Wherever the history and the containers stand, a cursor at `pos` reads `v`, moves to
      `next`, appends `v` to the history once and leaves the containers alone. */
  ghost predicate ReadsAt(s: seq<byte>, factory: Option<Factory>, pos: nat, v: Value, next: nat) {
    && pos <= next <= |s|
    && forall st: State {:trigger Chosen(st)} | Chosen(st) && st.pos == pos
         :: DecodeValue(s, factory, st) == Ok((v, State(next, st.history + [v], st.arena)))
  }

  /** A scalar token is read as its value whatever the history and the containers. */
  lemma {:induction false} TokenReads(s: seq<byte>, factory: Option<Factory>, pos: nat, v: Value)
    requires Encodable(v) && At(s, pos, Encode(v))
    ensures ReadsAt(s, factory, pos, v, pos + |Encode(v)|)
  {
    forall st: State | Chosen(st) && st.pos == pos
      ensures DecodeValue(s, factory, st) == Ok((v, State(pos + |Encode(v)|, st.history + [v], st.arena)))
    {
      DecodeEncoded(s, factory, st, v);
    }
  }

  /** From `pos` on, the key and then the value of each pair are read in turn, in that way;
      `cuts` holds where each of them ends, and the last one ends at `end`. */
  ghost predicate ReadsPairs(s: seq<byte>, factory: Option<Factory>, pos: nat, es: seq<Entry>, cuts: seq<nat>,
                             end: nat)
    decreases |es|
  {
    if |es| == 0 then |cuts| == 0 && pos == end <= |s|
    else
      && 2 <= |cuts|
      && ReadsAt(s, factory, pos, es[0].key, cuts[0])
      && ReadsAt(s, factory, cuts[0], es[0].value, cuts[1])
      && ReadsPairs(s, factory, cuts[1], es[1..], cuts[2..], end)
  }

  /** Pairs read one after the other are put into container `h` in order, and only their
      values stay in the history. */
  lemma {:induction false} EntriesRun(s: seq<byte>, factory: Option<Factory>, st: State, h: nat, es: seq<Entry>,
                                      cuts: seq<nat>, end: nat)
    requires h < |st.arena| && ReadsPairs(s, factory, st.pos, es, cuts, end)
    ensures DecodeEntries(s, factory, st, h, |es|)
         == Ok(State(end, st.history + ValuesOf(es), st.arena[h := PutAll(st.arena[h], es)]))
    decreases |es|
  {
    if |es| == 0 {
      assert st.history + ValuesOf(es) == st.history;
      assert st.arena[h := PutAll(st.arena[h], es)] == st.arena;
    } else {
      var next := State(cuts[1], st.history + [es[0].value], st.arena[h := Put(st.arena[h], es[0].key, es[0].value)]);
      FirstPair(s, factory, st, h, es, cuts, end);
      EntriesRun(s, factory, next, h, es[1..], cuts[2..], end);
      PairCombines(st, next, h, es);
    }
  }

  /** The first pair read is put into container `h`, leaving the rest to read. */
  lemma {:induction false} FirstPair(s: seq<byte>, factory: Option<Factory>, st: State, h: nat, es: seq<Entry>,
                                     cuts: seq<nat>, end: nat)
    requires h < |st.arena| && 0 < |es| && ReadsPairs(s, factory, st.pos, es, cuts, end)
    ensures var next := State(cuts[1], st.history + [es[0].value], st.arena[h := Put(st.arena[h], es[0].key, es[0].value)]);
      && DecodeEntries(s, factory, st, h, |es|) == DecodeEntries(s, factory, next, h, |es[1..]|)
      && ReadsPairs(s, factory, cuts[1], es[1..], cuts[2..], end)
  {
    assert Chosen(st) && Chosen(State(cuts[0], st.history, st.arena));
    PairStep(s, factory, st, h, |es|, es[0].key, es[0].value, cuts[0], cuts[1]);
  }

  /** One round of the entry loop when the key and the value each append themselves once. */
  lemma {:induction false} PairStep(s: seq<byte>, factory: Option<Factory>, st: State, h: nat, n: int,
                                    k: Value, v: Value, kEnd: nat, vEnd: nat)
    requires st.pos <= |s| && kEnd <= |s| && vEnd <= |s| && h < |st.arena| && n > 0
    requires DecodeValue(s, factory, st) == Ok((k, State(kEnd, st.history + [k], st.arena)))
    requires DecodeValue(s, factory, State(kEnd, st.history, st.arena))
          == Ok((v, State(vEnd, st.history + [v], st.arena)))
    ensures DecodeEntries(s, factory, st, h, n)
         == DecodeEntries(s, factory, State(vEnd, st.history + [v], st.arena[h := Put(st.arena[h], k, v)]), h, n - 1)
  {
    var kr := (k, State(kEnd, st.history + [k], st.arena));
    assert kr.1.(history := kr.1.history[..|kr.1.history| - 1]) == State(kEnd, st.history, st.arena);
    EntriesStep(s, factory, st, h, n, kr, (v, State(vEnd, st.history + [v], st.arena)));
  }

  /** Putting the first pair, then the rest, is putting them all; the first value, then
      the rest, are all the values. */
  lemma {:induction false} PairCombines(st: State, next: State, h: nat, es: seq<Entry>)
    requires h < |st.arena| && 0 < |es|
    requires next.history == st.history + [es[0].value]
    requires next.arena == st.arena[h := Put(st.arena[h], es[0].key, es[0].value)]
    ensures next.history + ValuesOf(es[1..]) == st.history + ValuesOf(es)
    ensures next.arena[h := PutAll(next.arena[h], es[1..])] == st.arena[h := PutAll(st.arena[h], es)]
  {
    assert ValuesOf(es) == [es[0].value] + ValuesOf(es[1..]);
    AppendAssoc(st.history, [es[0].value], ValuesOf(es[1..]));
  }

  /** An array whose count reads `|es|` and whose pairs are read one after the other
      decodes to a new container holding them as `put` one by one leaves them; the container
      enters the history before the values, and the keys leave no trace there. */
  lemma {:induction false} ArrayReads(s: seq<byte>, factory: Option<Factory>, st: State, countLen: nat,
                                      bodyLen: nat, es: seq<Entry>, cuts: seq<nat>)
    requires var start := st.pos + 3 + countLen;
      && st.pos < |s| && s[st.pos] == TAG_ARRAY
      && ReadExpected(s, st.pos + 1, COLON) == Ok(st.pos + 2)
      && ReadInt(s, st.pos + 2, COLON) == Ok((|es|, st.pos + 2 + countLen))
      && ReadExpected(s, start - 1, LBRACE) == Ok(start)
      && start + bodyLen < |s| && ReadsPairs(s, factory, start, es, cuts, start + bodyLen)
      && ReadExpected(s, start + bodyLen, RBRACE) == Ok(start + bodyLen + 1)
    ensures var h := |st.arena|;
      DecodeValue(s, factory, st)
      == Ok((Arr(h), State(st.pos + 4 + countLen + bodyLen, st.history + [Arr(h)] + ValuesOf(es),
                           st.arena + [PutAll([], es)])))
  {
    BodyRun(s, factory, st, countLen, bodyLen, es, cuts);
    ArrayFromParts(s, factory, st, countLen, bodyLen, |es|, ValuesOf(es), PutAll([], es));
  }

  /** The body of such an array fills the container just opened for it. */
  lemma {:induction false} BodyRun(s: seq<byte>, factory: Option<Factory>, st: State, countLen: nat, bodyLen: nat,
                                   es: seq<Entry>, cuts: seq<nat>)
    requires ReadsPairs(s, factory, st.pos + 3 + countLen, es, cuts, st.pos + 3 + countLen + bodyLen)
    ensures var st1 := State(st.pos + 3 + countLen, st.history + [Arr(|st.arena|)], st.arena + [[]]);
      DecodeEntries(s, factory, st1, |st.arena|, |es|)
      == Ok(State(st1.pos + bodyLen, st1.history + ValuesOf(es), st1.arena[|st.arena| := PutAll([], es)]))
  {
    var h := |st.arena|;
    var st1 := State(st.pos + 3 + countLen, st.history + [Arr(h)], st.arena + [[]]);
    assert st1.arena[h] == [];
    EntriesRun(s, factory, st1, h, es, cuts, st1.pos + bodyLen);
    assert PutAll(st1.arena[h], es) == PutAll([], es);
  }

  /** The steps of `unserializeArray` on a token whose count of `countLen` bytes reads `n`
      and whose body of `bodyLen` bytes appends `vs` and fills the new container with `c`. */
  lemma {:induction false} ArrayFromParts(s: seq<byte>, factory: Option<Factory>, st: State, countLen: nat,
                                          bodyLen: nat, n: int, vs: seq<Value>, c: seq<Entry>)
    requires st.pos < |s| && s[st.pos] == TAG_ARRAY
    requires ReadExpected(s, st.pos + 1, COLON) == Ok(st.pos + 2)
    requires ReadInt(s, st.pos + 2, COLON) == Ok((n, st.pos + 2 + countLen))
    requires ReadExpected(s, st.pos + 2 + countLen, LBRACE) == Ok(st.pos + 3 + countLen)
    requires var st1 := State(st.pos + 3 + countLen, st.history + [Arr(|st.arena|)], st.arena + [[]]);
      DecodeEntries(s, factory, st1, |st.arena|, n)
      == Ok(State(st1.pos + bodyLen, st1.history + vs, st1.arena[|st.arena| := c]))
    requires ReadExpected(s, st.pos + 3 + countLen + bodyLen, RBRACE) == Ok(st.pos + 4 + countLen + bodyLen)
    ensures DecodeValue(s, factory, st)
         == Ok((Arr(|st.arena|), State(st.pos + 4 + countLen + bodyLen, st.history + [Arr(|st.arena|)] + vs,
                                       st.arena + [c])))
  {
    DecodeArrayFromParts(s, factory, st, countLen, bodyLen, n, vs, c);
    assert DecodeValue(s, factory, st) == DecodeTagged(s, factory, TAG_ARRAY, st.(pos := st.pos + 1));
  }

  /** The same steps seen from `unserializeArray`, which starts after the tag. */
  lemma {:induction false} DecodeArrayFromParts(s: seq<byte>, factory: Option<Factory>, st: State, countLen: nat,
                                                bodyLen: nat, n: int, vs: seq<Value>, c: seq<Entry>)
    requires st.pos < |s|
    requires ReadExpected(s, st.pos + 1, COLON) == Ok(st.pos + 2)
    requires ReadInt(s, st.pos + 2, COLON) == Ok((n, st.pos + 2 + countLen))
    requires ReadExpected(s, st.pos + 2 + countLen, LBRACE) == Ok(st.pos + 3 + countLen)
    requires var st1 := State(st.pos + 3 + countLen, st.history + [Arr(|st.arena|)], st.arena + [[]]);
      DecodeEntries(s, factory, st1, |st.arena|, n)
      == Ok(State(st1.pos + bodyLen, st1.history + vs, st1.arena[|st.arena| := c]))
    requires ReadExpected(s, st.pos + 3 + countLen + bodyLen, RBRACE) == Ok(st.pos + 4 + countLen + bodyLen)
    ensures DecodeArray(s, factory, st.(pos := st.pos + 1))
         == Ok((Arr(|st.arena|), State(st.pos + 4 + countLen + bodyLen, st.history + [Arr(|st.arena|)] + vs,
                                       st.arena + [c])))
  {
    var h := |st.arena|;
    var st1 := State(st.pos + 3 + countLen, st.history + [Arr(h)], st.arena + [[]]);
    assert st1.arena[h := c] == st.arena + [c];
  }

  /** No two of the pairs have the same key. */
  predicate DistinctKeys(es: seq<Entry>)
    decreases |es|
  {
    |es| == 0 || (IndexOf(es[1..], es[0].key).None? && DistinctKeys(es[1..]))
  }

  /** No key of the pairs is in `entries` yet. */
  predicate NewKeys(entries: seq<Entry>, es: seq<Entry>)
    decreases |es|
  {
    |es| == 0 || (IndexOf(entries, es[0].key).None? && NewKeys(entries, es[1..]))
  }

  /** `DistinctKeys` says that no key occurs at two positions. */
  lemma {:induction false} DistinctKeysIff(es: seq<Entry>)
    ensures DistinctKeys(es) <==> forall i, j | 0 <= i < j < |es| :: es[i].key != es[j].key
    decreases |es|
  {
    if |es| > 0 {
      var rest := es[1..];
      DistinctKeysIff(rest);
      IndexOfFirst(rest, es[0].key);
      assert forall i | 0 < i < |es| :: es[i] == rest[i - 1];
    }
  }

  /** Appending a pair whose key none of `es` has keeps the keys of `es` new. */
  lemma {:induction false} NewKeysAppend(entries: seq<Entry>, e: Entry, es: seq<Entry>)
    requires NewKeys(entries, es) && IndexOf(es, e.key).None?
    ensures NewKeys(entries + [e], es)
    decreases |es|
  {
    if |es| > 0 {
      IndexOfAppend(entries, e, es[0].key);
      NewKeysAppend(entries, e, es[1..]);
    }
  }

  /** With pairwise different keys, none of them present yet, putting the pairs in order
      appends them all, in order. */
  lemma {:induction false} PutAllDistinct(entries: seq<Entry>, es: seq<Entry>)
    requires DistinctKeys(es) && NewKeys(entries, es)
    ensures PutAll(entries, es) == entries + es
    decreases |es|
  {
    if |es| > 0 {
      var e := es[0];
      PutLookup(entries, e.key, e.value);
      NewKeysAppend(entries, e, es[1..]);
      PutAllDistinct(entries + [e], es[1..]);
      AppendAssoc(entries, [e], es[1..]);
      assert [e] + es[1..] == es;
    }
  }

  /** After the pairs are put in order, every key of the pairs holds the value of its last
      pair, and every other key holds what it held before. */
  lemma {:induction false} PutAllLookup(entries: seq<Entry>, es: seq<Entry>, key: Value)
    ensures Lookup(PutAll(entries, es), key)
         == if exists i | 0 <= i < |es| :: es[i].key == key then Some(es[LastIndexOf(es, key)].value)
            else Lookup(entries, key)
    decreases |es|
  {
    if |es| > 0 {
      var next := Put(entries, es[0].key, es[0].value);
      PutLookup(entries, es[0].key, es[0].value);
      PutAllLookup(next, es[1..], key);
      var rest := es[1..];
      if exists i | 0 <= i < |rest| :: rest[i].key == key {
        var i :| 0 <= i < |rest| && rest[i].key == key;
        assert es[i + 1].key == key;
        LastIndexOfShift(es, key);
      } else if es[0].key == key {
        LastIndexOfShift(es, key);
      } else {
        assert !exists i | 0 <= i < |es| :: es[i].key == key by {
          forall i | 0 <= i < |es| ensures es[i].key != key {
            if i > 0 {
              assert es[i] == rest[i - 1];
            }
          }
        }
      }
    }
  }

  /** The position of the last pair with key `key` (0 when there is none). */
  function LastIndexOf(es: seq<Entry>, key: Value): (i: nat)
    ensures |es| > 0 ==> i < |es|
    ensures (exists j | 0 <= j < |es| :: es[j].key == key) ==>
      es[i].key == key && forall j | i < j < |es| :: es[j].key != key
    decreases |es|
  {
    if |es| == 0 then 0
    else if es[|es| - 1].key == key then |es| - 1
    else
      assert forall j | 0 <= j < |es| - 1 :: es[..|es| - 1][j] == es[j];
      LastIndexOf(es[..|es| - 1], key)
  }

  /** Dropping the first pair moves the last occurrence of a key one place down, unless the
      first pair was its only occurrence. */
  lemma {:induction false} LastIndexOfShift(es: seq<Entry>, key: Value)
    requires |es| > 0
    ensures (exists i | 1 <= i < |es| :: es[i].key == key) ==>
      LastIndexOf(es, key) == LastIndexOf(es[1..], key) + 1
    ensures es[0].key == key && (forall i | 1 <= i < |es| :: es[i].key != key) ==> LastIndexOf(es, key) == 0
  {
    var rest := es[1..];
    if exists i | 1 <= i < |es| :: es[i].key == key {
      var i :| 1 <= i < |es| && es[i].key == key;
      assert rest[i - 1].key == key;
      var a := LastIndexOf(es, key);
      var b := LastIndexOf(rest, key);
      assert rest[b] == es[b + 1];
      assert rest[a - 1] == es[a];
    }
  }
}
