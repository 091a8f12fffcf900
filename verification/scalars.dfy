/** The payload readers of the scalar tags and of back-references. Each starts right after
    the tag byte and yields the decoded value and the position after its last byte; none of
    them touches the history (the dispatcher appends their results). */
module Scalars {

  import opened Bytes
  import opened Results
  import opened Tokens
  import opened Values

  /** `unserializeString`: `:len:"bytes";`. */
  function DecodeString(s: seq<byte>, pos: nat): (r: Result<(Value, nat)>)
    requires pos <= |s|
    ensures r.Ok? ==> pos < r.value.1 <= |s| && r.value.0.Str?
  {
    var p :- ReadExpected(s, pos, COLON);
    var raw :- ReadRawString(s, p);
    var next :- ReadExpected(s, raw.1, SEMICOLON);
    Ok((Str(raw.0), next))
  }

  /** `unserializeInteger`: `:digits;`. */
  function DecodeInteger(s: seq<byte>, pos: nat): (r: Result<(Value, nat)>)
    requires pos <= |s|
    ensures r.Ok? ==> pos < r.value.1 <= |s| && r.value.0.Int? && IsInt32(r.value.0.i)
  {
    var p :- ReadExpected(s, pos, COLON);
    var n :- ReadInt(s, p, SEMICOLON);
    Ok((Int(n.0), n.1))
  }

  /** `unserializeBoolean`: `:0;` or `:1;`; any other integer fails. */
  function DecodeBoolean(s: seq<byte>, pos: nat): (r: Result<(Value, nat)>)
    requires pos <= |s|
    ensures r.Ok? ==> pos < r.value.1 <= |s| && r.value.0.Bool?
  {
    var p :- ReadExpected(s, pos, COLON);
    var n :- ReadInt(s, p, SEMICOLON);
    if n.0 < 0 || n.0 > 1 then Fail(BadBoolean(n.0)) else Ok((Bool(n.0 == 1), n.1))
  }

  /** `unserializeNull`: `;`. */
  function DecodeNull(s: seq<byte>, pos: nat): (r: Result<(Value, nat)>)
    requires pos <= |s|
    ensures r.Ok? <==> pos < |s| && s[pos] == SEMICOLON
    ensures r.Ok? ==> r.value == (Null, pos + 1)
  {
    var p :- ReadExpected(s, pos, SEMICOLON);
    Ok((Null, p))
  }

  /** `unserializeReference`: `:n;` names the n-th history entry, counting from 1. */
  function DecodeReference(s: seq<byte>, pos: nat, history: seq<Value>): (r: Result<(Value, nat)>)
    requires pos <= |s|
    ensures r.Ok? ==> pos < r.value.1 <= |s| && r.value.0 in history
  {
    var p :- ReadExpected(s, pos, COLON);
    var n :- ReadInt(s, p, SEMICOLON);
    if 1 <= n.0 <= |history| then Ok((history[n.0 - 1], n.1)) else Fail(BadReference(n.0))
  }

  /** The tags whose payload is read here; every other tag except `a` and `O` is unknown. */
  predicate IsScalarTag(tag: byte) {
    tag == TAG_STRING || tag == TAG_INT || tag == TAG_DOUBLE || tag == TAG_BOOL
    || tag == TAG_NULL || tag == TAG_REF
  }

  /** The non-recursive arms of the dispatch in `unserializeObject`. */
  function DecodeScalar(s: seq<byte>, tag: byte, pos: nat, history: seq<Value>): (r: Result<(Value, nat)>)
    requires pos <= |s|
    ensures r.Ok? ==> IsScalarTag(tag) && pos < r.value.1 <= |s|
    ensures !IsScalarTag(tag) ==> r == Fail(UnknownType(tag))
  {
    if tag == TAG_STRING then DecodeString(s, pos)
    else if tag == TAG_INT then DecodeInteger(s, pos)
    else if tag == TAG_DOUBLE then DecodeDouble(s, pos)
    else if tag == TAG_BOOL then DecodeBoolean(s, pos)
    else if tag == TAG_NULL then DecodeNull(s, pos)
    else if tag == TAG_REF then DecodeReference(s, pos, history)
    else Fail(UnknownType(tag))
  }

  // ---------------------------------------------------------------------------------
  // unserializeDouble

  /** The loop of `unserializeDouble`. `first` is handed on unchanged because the source
      never clears it: a '-' is accepted wherever it occurs, not only in front. At most one
      '.' is accepted; ';' ends the lexeme and is consumed. */
  function ScanDouble(s: seq<byte>, pos: nat, first: bool, allowFraction: bool, lexeme: seq<byte>)
    : (r: Result<(seq<byte>, nat)>)
    requires pos <= |s|
    ensures r.Ok? ==> pos < r.value.1 <= |s| && s[r.value.1 - 1] == SEMICOLON
    decreases |s| - pos
  {
    var x :- ReadByte(s, pos);
    var c := x.0;
    if IsDigit(c) || (first && c == MINUS) then
      ScanDouble(s, pos + 1, first, allowFraction, lexeme + [c])
    else if allowFraction && c == DOT then
      ScanDouble(s, pos + 1, first, false, lexeme + [c])
    else if c == SEMICOLON then
      Ok((lexeme, pos + 1))
    else
      Fail(UnexpectedDoubleChar(c))
  }

  /** Bytes the scanner lets into a lexeme. */
  predicate IsDoubleByte(c: byte) {
    IsDigit(c) || c == MINUS || c == DOT
  }

  predicate NoDot(lexeme: seq<byte>) {
    forall i | 0 <= i < |lexeme| :: lexeme[i] != DOT
  }

  /** No two '.' in the lexeme: after the first '.', if any, there is none. */
  predicate AtMostOneDot(lexeme: seq<byte>)
    decreases |lexeme|
  {
    |lexeme| == 0 || if lexeme[0] == DOT then NoDot(lexeme[1..]) else AtMostOneDot(lexeme[1..])
  }

  /** What the scanner accepts: digits, '-' anywhere, and at most one '.'. */
  predicate ScannedLexeme(lexeme: seq<byte>) {
    (forall i | 0 <= i < |lexeme| :: IsDoubleByte(lexeme[i])) && AtMostOneDot(lexeme)
  }

  /** `Double.parseDouble` restricted to lexemes the scanner can produce: an optional
      leading '-', no other '-', and at least one digit ("", "-", "." and "1-2" throw). */
  predicate ParsesAsDouble(lexeme: seq<byte>) {
    var body := Unsigned(lexeme);
    (forall i | 0 <= i < |body| :: body[i] != MINUS) && (exists i | 0 <= i < |body| :: IsDigit(body[i]))
  }

  /** A lexeme without its leading '-', if it has one. */
  function Unsigned(lexeme: seq<byte>): seq<byte> {
    if |lexeme| > 0 && lexeme[0] == MINUS then lexeme[1..] else lexeme
  }

  /** `unserializeDouble`: the scanned lexeme, provided `Double.parseDouble` accepts it. The
      number itself is not computed; the value keeps the lexeme. */
  function DecodeDouble(s: seq<byte>, pos: nat): (r: Result<(Value, nat)>)
    requires pos <= |s|
    ensures r.Ok? ==> pos < r.value.1 <= |s| && r.value.0.Double?
  {
    var p :- ReadExpected(s, pos, COLON);
    var scanned :- ScanDouble(s, p, true, true, []);
    if ParsesAsDouble(scanned.0) then Ok((Double(scanned.0), scanned.1))
    else Fail(MalformedDouble(scanned.0))
  }

  lemma {:induction false} NoDotAppend(lexeme: seq<byte>, c: byte)
    ensures NoDot(lexeme + [c]) <==> NoDot(lexeme) && c != DOT
  {
    assert (lexeme + [c])[|lexeme|] == c;
    if NoDot(lexeme) && c != DOT {
      forall i | 0 <= i < |lexeme| + 1
        ensures (lexeme + [c])[i] != DOT
      {
        if i < |lexeme| {
          assert (lexeme + [c])[i] == lexeme[i];
        }
      }
    }
    if !NoDot(lexeme) {
      var i :| 0 <= i < |lexeme| && lexeme[i] == DOT;
      assert (lexeme + [c])[i] == DOT;
    }
  }

  /** In a lexeme with at most one '.', everything before a '.' is dot-free. */
  lemma {:induction false} NoDotBeforeDot(lexeme: seq<byte>, k: nat)
    requires AtMostOneDot(lexeme) && k < |lexeme| && lexeme[k] == DOT
    ensures NoDot(lexeme[..k])
    decreases k
  {
    if k > 0 {
      var tail := lexeme[1..];
      assert tail[k - 1] == DOT;
      NoDotBeforeDot(tail, k - 1);
      assert lexeme[..k] == [lexeme[0]] + tail[..k - 1];
      assert forall i | 0 < i < k :: lexeme[..k][i] == tail[..k - 1][i - 1];
    }
  }

  /** A byte may follow a lexeme with at most one '.' unless both are dots. */
  lemma {:induction false} AtMostOneDotAppend(lexeme: seq<byte>, c: byte)
    ensures AtMostOneDot(lexeme + [c]) <==> AtMostOneDot(lexeme) && (c == DOT ==> NoDot(lexeme))
    decreases |lexeme|
  {
    if |lexeme| > 0 {
      var tail := lexeme[1..];
      assert (lexeme + [c])[0] == lexeme[0];
      assert (lexeme + [c])[1..] == tail + [c];
      NoDotAppend(tail, c);
      AtMostOneDotAppend(tail, c);
      assert NoDot(lexeme) <==> lexeme[0] != DOT && NoDot(tail) by {
        if lexeme[0] != DOT && NoDot(tail) {
          forall i | 0 < i < |lexeme| ensures lexeme[i] != DOT {
            assert lexeme[i] == tail[i - 1];
          }
        }
      }
    }
  }

  lemma {:induction false} ScanDoubleLoopComplete(s: seq<byte>, start: nat, k: nat, lexeme: seq<byte>)
    requires ScannedLexeme(lexeme) && k <= |lexeme|
    requires At(s, start, lexeme + [SEMICOLON])
    ensures ScanDouble(s, start + k, true, NoDot(lexeme[..k]), lexeme[..k])
         == Ok((lexeme, start + |lexeme| + 1))
    decreases |lexeme| - k
  {
    assert s[start + k] == (lexeme + [SEMICOLON])[k] by {
      assert s[start..start + |lexeme| + 1][k] == s[start + k];
    }
    if k < |lexeme| {
      assert lexeme[..k] + [lexeme[k]] == lexeme[..k + 1];
      NoDotAppend(lexeme[..k], lexeme[k]);
      if lexeme[k] == DOT {
        NoDotBeforeDot(lexeme, k);
      }
      ScanDoubleLoopComplete(s, start, k + 1, lexeme);
    } else {
      assert lexeme[..k] == lexeme;
    }
  }

  /** Every lexeme of digits, '-' and at most one '.' is scanned up to its ';'. */
  lemma {:induction false} ScanDoubleComplete(s: seq<byte>, pos: nat, lexeme: seq<byte>)
    requires ScannedLexeme(lexeme) && At(s, pos, lexeme + [SEMICOLON])
    ensures ScanDouble(s, pos, true, true, []) == Ok((lexeme, pos + |lexeme| + 1))
  {
    assert lexeme[..0] == [];
    ScanDoubleLoopComplete(s, pos, 0, lexeme);
  }

  lemma {:induction false} ScanDoubleLoopSound(s: seq<byte>, start: nat, pos: nat, allowFraction: bool)
    requires start <= pos <= |s|
    requires ScannedLexeme(s[start..pos]) && allowFraction == NoDot(s[start..pos])
    requires ScanDouble(s, pos, true, allowFraction, s[start..pos]).Ok?
    ensures ScanDouble(s, pos, true, allowFraction, s[start..pos]).value.1 > pos
    ensures LexemeThen(s, start, ScanDouble(s, pos, true, allowFraction, s[start..pos]).value)
    decreases |s| - pos
  {
    var c := s[pos];
    var grown := s[start..pos + 1];
    assert grown == s[start..pos] + [c];
    NoDotAppend(s[start..pos], c);
    AtMostOneDotAppend(s[start..pos], c);
    if IsDigit(c) || c == MINUS {
      assert ScanDouble(s, pos, true, allowFraction, s[start..pos])
          == ScanDouble(s, pos + 1, true, allowFraction, grown);
      ScanDoubleLoopSound(s, start, pos + 1, allowFraction);
    } else if allowFraction && c == DOT {
      assert ScanDouble(s, pos, true, allowFraction, s[start..pos])
          == ScanDouble(s, pos + 1, true, false, grown);
      ScanDoubleLoopSound(s, start, pos + 1, false);
    } else {
      assert ScanDouble(s, pos, true, allowFraction, s[start..pos]) == Ok((s[start..pos], pos + 1));
    }
  }

  /** `r` is what scanning from `start` yields: the bytes up to the ';' just before `r.1`,
      of the scanned shape. */
  predicate LexemeThen(s: seq<byte>, start: nat, r: (seq<byte>, nat)) {
    start < r.1 <= |s| && r.0 == s[start..r.1 - 1] && ScannedLexeme(r.0)
  }

  /** Whatever the scanner accepts is exactly the bytes before the ';', and they are digits,
      '-' and at most one '.'. */
  lemma {:induction false} ScanDoubleSound(s: seq<byte>, pos: nat)
    requires pos <= |s| && ScanDouble(s, pos, true, true, []).Ok?
    ensures LexemeThen(s, pos, ScanDouble(s, pos, true, true, []).value)
  {
    assert s[pos..pos] == [];
    ScanDoubleLoopSound(s, pos, pos, true);
  }

  /** The scanner accepts a '-' after a digit: `1-2;` is scanned to the lexeme `1-2`. */
  lemma {:induction false} ScanDoubleInnerMinus(s: seq<byte>, pos: nat)
    requires At(s, pos, [ZERO + 1, MINUS, ZERO + 2, SEMICOLON])
    ensures ScanDouble(s, pos, true, true, []) == Ok(([ZERO + 1, MINUS, ZERO + 2], pos + 4))
  {
    var lexeme: seq<byte> := [ZERO + 1, MINUS, ZERO + 2];
    assert lexeme + [SEMICOLON] == [ZERO + 1, MINUS, ZERO + 2, SEMICOLON];
    assert AtMostOneDot(lexeme[2..]) && AtMostOneDot(lexeme[1..]);
    ScanDoubleComplete(s, pos, lexeme);
  }

  /** The grammar of a float as `unserializeDouble` accepts it: an optional leading '-',
      then digits with at most one '.', with at least one digit. */
  predicate DoubleLexeme(lexeme: seq<byte>) {
    var body := Unsigned(lexeme);
    && (forall i | 0 <= i < |body| :: IsDigit(body[i]) || body[i] == DOT)
    && AtMostOneDot(body)
    && (exists i | 0 <= i < |body| :: IsDigit(body[i]))
  }

  /** The scanner followed by `Double.parseDouble` accepts exactly the float grammar. */
  lemma {:induction false} DoubleLexemeIff(lexeme: seq<byte>)
    ensures DoubleLexeme(lexeme) <==> ScannedLexeme(lexeme) && ParsesAsDouble(lexeme)
  {
    var signed := |lexeme| > 0 && lexeme[0] == MINUS;
    var body := Unsigned(lexeme);
    var off := if signed then 1 else 0;
    assert forall i | 0 <= i < |body| :: body[i] == lexeme[i + off];
    if DoubleLexeme(lexeme) {
      forall i | 0 <= i < |lexeme|
        ensures IsDoubleByte(lexeme[i])
      {
        if i >= off {
          assert IsDigit(body[i - off]) || body[i - off] == DOT;
        }
      }
      forall i | 0 <= i < |body|
        ensures body[i] != MINUS
      {
        assert IsDigit(body[i]) || body[i] == DOT;
      }
    }
    if ScannedLexeme(lexeme) && ParsesAsDouble(lexeme) {
      forall i | 0 <= i < |body|
        ensures IsDigit(body[i]) || body[i] == DOT
      {
        assert IsDoubleByte(lexeme[i + off]);
        assert body[i] != MINUS;
      }
    }
  }

  /** Whatever `d:` accepts is ':', a lexeme of the float grammar and ';', and the value
      is that lexeme. */
  lemma {:induction false} DecodeDoubleSound(s: seq<byte>, pos: nat)
    requires pos <= |s| && DecodeDouble(s, pos).Ok?
    ensures var r := DecodeDouble(s, pos).value;
      && pos + 2 <= r.1 && s[pos] == COLON && s[r.1 - 1] == SEMICOLON
      && r.0 == Double(s[pos + 1..r.1 - 1]) && DoubleLexeme(r.0.lexeme)
  {
    ScanDoubleSound(s, pos + 1);
    DoubleLexemeIff(DecodeDouble(s, pos).value.0.lexeme);
  }

  /** Every lexeme of the float grammar is accepted by `d:` and kept as the value. */
  lemma {:induction false} DecodeDoubleComplete(s: seq<byte>, pos: nat, lexeme: seq<byte>)
    requires DoubleLexeme(lexeme) && At(s, pos, [COLON] + (lexeme + [SEMICOLON]))
    ensures DecodeDouble(s, pos) == Ok((Double(lexeme), pos + |lexeme| + 2))
  {
    AtHead(s, pos, COLON, lexeme + [SEMICOLON]);
    DoubleLexemeIff(lexeme);
    ScanDoubleComplete(s, pos + 1, lexeme);
  }

  /** `1-2` gets past the scanner but not past `Double.parseDouble`. */
  lemma {:induction false} DecodeDoubleInnerMinus(s: seq<byte>, pos: nat)
    requires At(s, pos, [COLON, ZERO + 1, MINUS, ZERO + 2, SEMICOLON])
    ensures DecodeDouble(s, pos) == Fail(MalformedDouble([ZERO + 1, MINUS, ZERO + 2]))
  {
    AtHead(s, pos, COLON, [ZERO + 1, MINUS, ZERO + 2, SEMICOLON]);
    ScanDoubleInnerMinus(s, pos + 1);
    var lexeme: seq<byte> := [ZERO + 1, MINUS, ZERO + 2];
    assert Unsigned(lexeme)[1] == MINUS;
    assert !ParsesAsDouble(lexeme);
  }

  /** A '.' after a run of scanned bytes that already holds a '.' is refused by the scanner
      as an unexpected character, whether it is the second '.' or a later one. */
  lemma {:induction false} DecodeDoubleSecondDot(s: seq<byte>, pos: nat, q: nat)
    requires pos < q < |s| && s[pos] == COLON && s[q] == DOT
    requires forall i | pos < i < q :: IsDoubleByte(s[i])
    requires exists i | pos < i < q :: s[i] == DOT
    ensures DecodeDouble(s, pos) == Fail(UnexpectedDoubleChar(DOT))
  {
    ScanDotAfterDot(s, pos + 1, q, true, []);
  }

  /** The scanner, from `pos` on, meets the '.' at `q` when fractions are no longer allowed
      by then. */
  lemma {:induction false} ScanDotAfterDot(s: seq<byte>, pos: nat, q: nat, allowFraction: bool, lexeme: seq<byte>)
    requires pos <= q < |s| && s[q] == DOT
    requires forall i | pos <= i < q :: IsDoubleByte(s[i])
    requires allowFraction ==> exists i | pos <= i < q :: s[i] == DOT
    ensures ScanDouble(s, pos, true, allowFraction, lexeme) == Fail(UnexpectedDoubleChar(DOT))
    decreases q - pos
  {
    var c := s[pos];
    if pos == q {
      assert !allowFraction;
    } else if IsDigit(c) || c == MINUS {
      if allowFraction {
        var i :| pos <= i < q && s[i] == DOT;
        assert pos + 1 <= i;
      }
      ScanDotAfterDot(s, pos + 1, q, allowFraction, lexeme + [c]);
    } else if allowFraction {
      ScanDotAfterDot(s, pos + 1, q, false, lexeme + [c]);
    }
  }


  // ---------------------------------------------------------------------------------
  // Integer, boolean, reference and string payloads against their token shapes

  /** The payload of `i:`, `b:` and `R:`: ':', an optional '-', digits and ';'. */
  function IntPayload(negative: bool, ds: seq<byte>): seq<byte> {
    [COLON] + IntToken(negative, ds, SEMICOLON)
  }

  lemma {:induction false} ReadIntPayload(s: seq<byte>, pos: nat, negative: bool, ds: seq<byte>)
    requires AllDigits(ds) && At(s, pos, IntPayload(negative, ds))
    ensures ReadExpected(s, pos, COLON) == Ok(pos + 1)
    ensures ReadInt(s, pos + 1, SEMICOLON)
         == Ok((SignedValue(negative, ds), pos + |IntPayload(negative, ds)|))
  {
    AtHead(s, pos, COLON, IntToken(negative, ds, SEMICOLON));
    ReadIntComplete(s, pos + 1, SEMICOLON, negative, ds);
  }

  /** `i:` yields the signed value of its digits as a Java `int`. */
  lemma {:induction false} DecodeIntegerToken(s: seq<byte>, pos: nat, negative: bool, ds: seq<byte>)
    requires AllDigits(ds) && At(s, pos, IntPayload(negative, ds))
    ensures DecodeInteger(s, pos) == Ok((Int(SignedValue(negative, ds)), pos + |IntPayload(negative, ds)|))
  {
    ReadIntPayload(s, pos, negative, ds);
  }

  /** `b:` accepts exactly the integers 0 and 1, as false and true. */
  lemma {:induction false} DecodeBooleanToken(s: seq<byte>, pos: nat, negative: bool, ds: seq<byte>)
    requires AllDigits(ds) && At(s, pos, IntPayload(negative, ds))
    ensures var n := SignedValue(negative, ds);
      DecodeBoolean(s, pos)
      == if n == 0 || n == 1 then Ok((Bool(n == 1), pos + |IntPayload(negative, ds)|))
         else Fail(BadBoolean(n))
  {
    ReadIntPayload(s, pos, negative, ds);
  }

  /** `R:n;` is the n-th history entry, counting from 1; 0, a negative index or one past
      the end fails. */
  lemma {:induction false} DecodeReferenceToken(s: seq<byte>, pos: nat, history: seq<Value>, negative: bool, ds: seq<byte>)
    requires AllDigits(ds) && At(s, pos, IntPayload(negative, ds))
    ensures var n := SignedValue(negative, ds);
      DecodeReference(s, pos, history)
      == if 1 <= n <= |history| then Ok((history[n - 1], pos + |IntPayload(negative, ds)|))
         else Fail(BadReference(n))
  {
    ReadIntPayload(s, pos, negative, ds);
  }

  /** Whatever `s:` accepts is ':', a length field that reads as the byte length of the
      value, the value's bytes between quotes, and ';'. */
  lemma {:induction false} DecodeStringSound(s: seq<byte>, pos: nat)
    requires pos <= |s| && DecodeString(s, pos).Ok?
    ensures var r := DecodeString(s, pos).value;
      var n := |r.0.bytes|;
      && pos + n + 5 <= r.1
      && s[pos] == COLON
      && ReadInt(s, pos + 1, COLON) == Ok((n, r.1 - n - 3))
      && s[r.1 - n - 3] == QUOTE
      && s[r.1 - n - 2..r.1 - 2] == r.0.bytes
      && s[r.1 - 2] == QUOTE && s[r.1 - 1] == SEMICOLON
  {
    var raw := ReadRawString(s, pos + 1).value;
    assert DecodeString(s, pos).value == (Str(raw.0), raw.1 + 1);
  }

  /** `s:` yields exactly the declared number of bytes between the quotes. */
  lemma {:induction false} DecodeStringToken(s: seq<byte>, pos: nat, body: seq<byte>)
    requires |body| < TWO_31
    requires At(s, pos, [COLON] + (RawToken(body) + [SEMICOLON]))
    ensures DecodeString(s, pos) == Ok((Str(body), pos + |RawToken(body)| + 2))
  {
    AtHead(s, pos, COLON, RawToken(body) + [SEMICOLON]);
    AtSplit(s, pos + 1, RawToken(body), [SEMICOLON]);
    AtSingle(s, pos + 1 + |RawToken(body)|, SEMICOLON);
    RawStringRoundTrip(s, pos + 1, body);
  }
}
