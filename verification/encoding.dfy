/** The wire format of a scalar as PHP's `serialize()` writes it, and the proof that the
    decoder reads every such token back as the value it spells. The writer itself is not
    part of the Java library; it serves here as the reference the decoder is checked
    against. */
module Encoding {

  import opened Bytes
  import opened Results
  import opened Tokens
  import opened Values
  import opened Scalars
  import opened Unserializer
  import opened HistoryFacts

  /** The scalars `serialize()` can write so that they are read back unchanged: any
      boolean, a 32-bit integer, a float lexeme of the accepted shape, and a string shorter
      than 2^31 bytes. */
  predicate Encodable(v: Value) {
    match v
    case Null => true
    case Bool(_) => true
    case Int(n) => IsInt32(n)
    case Double(lexeme) => DoubleLexeme(lexeme)
    case Str(body) => |body| < TWO_31
    case _ => false
  }

  function Magnitude(n: int): nat {
    if n < 0 then -n else n
  }

  /** The token of one scalar: its tag, then its payload, ending in ';'. */
  function Encode(v: Value): (bs: seq<byte>)
    requires Encodable(v)
    ensures 2 <= |bs| && IsScalarTag(bs[0]) && bs[0] != TAG_REF && bs[|bs| - 1] == SEMICOLON
  {
    match v
    case Null => [TAG_NULL, SEMICOLON]
    case Bool(b) => [TAG_BOOL] + IntPayload(false, [if b then ZERO + 1 else ZERO])
    case Int(n) => [TAG_INT] + IntPayload(n < 0, Digits(Magnitude(n)))
    case Double(lexeme) => [TAG_DOUBLE] + ([COLON] + (lexeme + [SEMICOLON]))
    case Str(body) => [TAG_STRING] + ([COLON] + (RawToken(body) + [SEMICOLON]))
  }

  /** The digits of a 32-bit integer's magnitude, with its sign, are worth the integer. */
  lemma {:induction false} SignedDigits(n: int)
    requires IsInt32(n)
    ensures SignedValue(n < 0, Digits(Magnitude(n))) == n
  {
    DigitsValue(Magnitude(n));
  }

  lemma {:induction false} BoolPayload(s: seq<byte>, pos: nat, b: bool)
    requires At(s, pos, IntPayload(false, [if b then ZERO + 1 else ZERO]))
    ensures DecodeBoolean(s, pos) == Ok((Bool(b), pos + 3))
  {
    var ds := [if b then ZERO + 1 else ZERO];
    assert DecimalValue(ds) == if b then 1 else 0 by {
      assert ds[..0] == [];
    }
    DecodeBooleanToken(s, pos, false, ds);
  }

  lemma {:induction false} IntPayloadDecodes(s: seq<byte>, pos: nat, n: int)
    requires IsInt32(n) && At(s, pos, IntPayload(n < 0, Digits(Magnitude(n))))
    ensures DecodeInteger(s, pos) == Ok((Int(n), pos + |IntPayload(n < 0, Digits(Magnitude(n)))|))
  {
    SignedDigits(n);
    DecodeIntegerToken(s, pos, n < 0, Digits(Magnitude(n)));
  }

  /** The payload reader of `v`'s tag, started after the tag at `pos`, yields `v` and ends
      where `v`'s token ends. */
  predicate PayloadReadsBack(s: seq<byte>, pos: nat, history: seq<Value>, v: Value)
    requires Encodable(v) && pos < |s|
  {
    DecodeScalar(s, Encode(v)[0], pos + 1, history) == Ok((v, pos + |Encode(v)|))
  }

  /** The payload after the tag decodes to the value and ends where the token ends. */
  lemma {:induction false} PayloadDecodes(s: seq<byte>, pos: nat, history: seq<Value>, v: Value)
    requires Encodable(v) && At(s, pos, Encode(v))
    ensures pos < |s| && PayloadReadsBack(s, pos, history, v)
  {
    match v
    case Null => NullTokenDecodes(s, pos, history);
    case Bool(b) => BoolTokenDecodes(s, pos, history, b);
    case Int(n) => IntTokenDecodes(s, pos, history, n);
    case Double(lexeme) => DoubleTokenDecodes(s, pos, history, lexeme);
    case Str(body) => StringTokenDecodes(s, pos, history, body);
  }

  lemma {:induction false} NullTokenDecodes(s: seq<byte>, pos: nat, history: seq<Value>)
    requires At(s, pos, Encode(Null))
    ensures pos < |s| && PayloadReadsBack(s, pos, history, Null)
  {
    AtIndex(s, pos, Encode(Null), 1);
    ScalarDispatch(s, TAG_NULL, pos + 1, history, DecodeNull(s, pos + 1));
  }

  lemma {:induction false} BoolTokenDecodes(s: seq<byte>, pos: nat, history: seq<Value>, b: bool)
    requires At(s, pos, Encode(Bool(b)))
    ensures pos < |s| && PayloadReadsBack(s, pos, history, Bool(b))
  {
    var payload := IntPayload(false, [if b then ZERO + 1 else ZERO]);
    AtHead(s, pos, TAG_BOOL, payload);
    BoolPayload(s, pos + 1, b);
    ScalarDispatch(s, TAG_BOOL, pos + 1, history, DecodeBoolean(s, pos + 1));
  }

  lemma {:induction false} IntTokenDecodes(s: seq<byte>, pos: nat, history: seq<Value>, n: int)
    requires IsInt32(n) && At(s, pos, Encode(Int(n)))
    ensures pos < |s| && PayloadReadsBack(s, pos, history, Int(n))
  {
    var payload := IntPayload(n < 0, Digits(Magnitude(n)));
    AtHead(s, pos, TAG_INT, payload);
    IntPayloadDecodes(s, pos + 1, n);
    ScalarDispatch(s, TAG_INT, pos + 1, history, DecodeInteger(s, pos + 1));
  }

  lemma {:induction false} DoubleTokenDecodes(s: seq<byte>, pos: nat, history: seq<Value>, lexeme: seq<byte>)
    requires DoubleLexeme(lexeme) && At(s, pos, Encode(Double(lexeme)))
    ensures pos < |s| && PayloadReadsBack(s, pos, history, Double(lexeme))
  {
    AtHead(s, pos, TAG_DOUBLE, [COLON] + (lexeme + [SEMICOLON]));
    DecodeDoubleComplete(s, pos + 1, lexeme);
    ScalarDispatch(s, TAG_DOUBLE, pos + 1, history, DecodeDouble(s, pos + 1));
  }

  lemma {:induction false} StringTokenDecodes(s: seq<byte>, pos: nat, history: seq<Value>, body: seq<byte>)
    requires |body| < TWO_31 && At(s, pos, Encode(Str(body)))
    ensures pos < |s| && PayloadReadsBack(s, pos, history, Str(body))
  {
    AtHead(s, pos, TAG_STRING, [COLON] + (RawToken(body) + [SEMICOLON]));
    DecodeStringToken(s, pos + 1, body);
    ScalarDispatch(s, TAG_STRING, pos + 1, history, DecodeString(s, pos + 1));
  }

  /** Which payload reader each non-reference scalar tag selects. */
  lemma {:induction false} ScalarDispatch(s: seq<byte>, tag: byte, pos: nat, history: seq<Value>, r: Result<(Value, nat)>)
    requires pos <= |s| && IsScalarTag(tag) && tag != TAG_REF
    requires tag == TAG_NULL ==> r == DecodeNull(s, pos)
    requires tag == TAG_BOOL ==> r == DecodeBoolean(s, pos)
    requires tag == TAG_INT ==> r == DecodeInteger(s, pos)
    requires tag == TAG_DOUBLE ==> r == DecodeDouble(s, pos)
    requires tag == TAG_STRING ==> r == DecodeString(s, pos)
    ensures DecodeScalar(s, tag, pos, history) == r
  {
  }

  /** Wherever a scalar token stands, the decoder reads exactly that token, yields the
      value it spells and appends it to the history once. */
  lemma {:induction false} DecodeEncoded(s: seq<byte>, factory: Option<Factory>, st: State, v: Value)
    requires Encodable(v) && At(s, st.pos, Encode(v))
    ensures DecodeValue(s, factory, st) == Ok((v, State(st.pos + |Encode(v)|, st.history + [v], st.arena)))
  {
    PayloadDecodes(s, st.pos, st.history, v);
    assert DecodeScalar(s, Encode(v)[0], st.pos + 1, st.history) == Ok((v, st.pos + |Encode(v)|));
    TokenDecodes(s, factory, st, Encode(v), v);
  }

  /** A scalar token whose payload the reader accepts up to its last byte. */
  lemma {:induction false} TokenDecodes(s: seq<byte>, factory: Option<Factory>, st: State, w: seq<byte>, v: Value)
    requires 1 <= |w| && At(s, st.pos, w) && IsScalarTag(w[0])
    requires DecodeScalar(s, w[0], st.pos + 1, st.history) == Ok((v, st.pos + |w|))
    ensures DecodeValue(s, factory, st) == Ok((v, State(st.pos + |w|, st.history + [v], st.arena)))
  {
    AtIndex(s, st.pos, w, 0);
    ScalarDecodes(s, factory, st, w[0], v, st.pos + |w|);
  }

  /** An input that starts with a scalar token decodes to that scalar, whatever follows
      it, and leaves no container behind. */
  lemma {:induction false} UnserializeAt(s: seq<byte>, factory: Option<Factory>, v: Value)
    requires Encodable(v) && At(s, 0, Encode(v))
    ensures Unserialize(s, factory) == Ok(Decoded(v, [], |Encode(v)|))
  {
    DecodeEncoded(s, factory, State(0, [], []), v);
  }

  /** A scalar token followed by any bytes at all decodes to that scalar. */
  lemma {:induction false} UnserializeEncoded(v: Value, rest: seq<byte>, factory: Option<Factory>)
    requires Encodable(v)
    ensures Unserialize(Encode(v) + rest, factory) == Ok(Decoded(v, [], |Encode(v)|))
  {
    AtStart(Encode(v), rest);
    UnserializeAt(Encode(v) + rest, factory, v);
  }

  /** Different scalars are written differently. */
  lemma {:induction false} EncodeInjective(v: Value, w: Value)
    requires Encodable(v) && Encodable(w) && Encode(v) == Encode(w)
    ensures v == w
  {
    UnserializeEncoded(v, [], None);
    UnserializeEncoded(w, [], None);
    assert Encode(v) + [] == Encode(w) + [];
  }
}
