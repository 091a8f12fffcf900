/** The token layer of the unserializer: single control characters, an expected character,
    terminator-delimited integers and length-prefixed raw byte strings, all read from an
    immutable input `s` at a position `pos` that each reader advances. */
module Tokens {

  import opened Bytes
  import opened Results

  /** `readNextControlCharacter`: one byte, or a failure at the end of the data. */
  function ReadByte(s: seq<byte>, pos: nat): (r: Result<(byte, nat)>)
    requires pos <= |s|
    ensures r.Ok? <==> pos < |s|
    ensures r.Ok? ==> r.value == (s[pos], pos + 1)
    ensures r.Fail? ==> r.error == EndOfData
  {
    if pos < |s| then Ok((s[pos], pos + 1)) else Fail(EndOfData)
  }

  /** `readExpected`: succeeds exactly when the next byte is `expected`, and then
      consumes that one byte only. */
  function ReadExpected(s: seq<byte>, pos: nat, expected: byte): (r: Result<nat>)
    requires pos <= |s|
    ensures r.Ok? <==> pos < |s| && s[pos] == expected
    ensures r.Ok? ==> r.value == pos + 1
    ensures pos == |s| ==> r == Fail(EndOfData)
    ensures pos < |s| && s[pos] != expected ==> r == Fail(UnexpectedChar(expected, s[pos]))
  {
    var x :- ReadByte(s, pos);
    if x.0 != expected then Fail(UnexpectedChar(expected, x.0)) else Ok(x.1)
  }

  // ---------------------------------------------------------------------------------
  // readInt

  /** The body of `readInt`'s loop. `first` is cleared after the first byte, so a '-' is a
      sign only there; digits accumulate with Java `int` wrap-around; the terminator is
      consumed and ends the loop; the sign is applied at the very end. */
  function ReadIntLoop(s: seq<byte>, pos: nat, terminator: byte, first: bool, negative: bool, acc: int)
    : (r: Result<(int, nat)>)
    requires pos <= |s|
    requires IsInt32(acc)
    ensures r.Ok? ==> pos < r.value.1 <= |s| && IsInt32(r.value.0) && s[r.value.1 - 1] == terminator
    decreases |s| - pos
  {
    var x :- ReadByte(s, pos);
    var c := x.0;
    if first && c == MINUS then
      ReadIntLoop(s, pos + 1, terminator, false, true, acc)
    else if IsDigit(c) then
      ReadIntLoop(s, pos + 1, terminator, false, negative, Wrap32(acc * 10 + DigitValue(c)))
    else if c == terminator then
      Ok((if negative then Wrap32(-acc) else acc, pos + 1))
    else
      Fail(UnexpectedIntChar(terminator, c))
  }

  /** `readInt(terminator)`: the integer and the position after its terminator. */
  function ReadInt(s: seq<byte>, pos: nat, terminator: byte): (r: Result<(int, nat)>)
    requires pos <= |s|
    ensures r.Ok? ==> pos < r.value.1 <= |s| && IsInt32(r.value.0) && s[r.value.1 - 1] == terminator
  {
    ReadIntLoop(s, pos, terminator, true, false, 0)
  }

  /** The value `readInt` gives an optional sign and a digit string: the decimal value,
      negated when the sign is present, as a wrapped Java `int`. */
  function SignedValue(negative: bool, ds: seq<byte>): int
    requires AllDigits(ds)
  {
    var magnitude: int := DecimalValue(ds);
    Wrap32(if negative then -magnitude else magnitude)
  }

  /** The bytes of an integer token: an optional '-', the digits and the terminator. */
  function IntToken(negative: bool, ds: seq<byte>, terminator: byte): seq<byte> {
    (if negative then [MINUS] else []) + ds + [terminator]
  }

  /** A terminator that can end an integer: neither a digit nor the sign. */
  predicate IsTerminator(t: byte) {
    !IsDigit(t) && t != MINUS
  }

  lemma {:induction false} ReadIntLoopComplete(s: seq<byte>, start: nat, pos: nat, end: nat, terminator: byte,
                                               negative: bool)
    requires IsTerminator(terminator) && start <= pos <= end < |s| && s[end] == terminator
    requires AllDigits(s[start..end])
    ensures AllDigits(s[start..pos])
    ensures ReadIntLoop(s, pos, terminator, false, negative, Wrap32(DecimalValue(s[start..pos])))
         == Ok((SignedValue(negative, s[start..end]), end + 1))
    decreases end - pos
  {
    DigitsPrefix(s, start, pos, end);
    if pos < end {
      assert s[pos] == s[start..end][pos - start];
      var acc' := AccumulateDigit(s, start, pos, Wrap32(DecimalValue(s[start..pos])));
      ReadIntLoopComplete(s, start, pos + 1, end, terminator, negative);
    } else {
      SignAtEnd(negative, s[start..end], Wrap32(DecimalValue(s[start..end])));
    }
  }

  /** A prefix of a digit run is a digit run. */
  lemma {:induction false} DigitsPrefix(s: seq<byte>, start: nat, pos: nat, end: nat)
    requires start <= pos <= end <= |s| && AllDigits(s[start..end])
    ensures AllDigits(s[start..pos])
  {
    forall i | 0 <= i < pos - start
      ensures IsDigit(s[start..pos][i])
    {
      assert s[start..pos][i] == s[start..end][i];
    }
  }

  /** Every well-formed integer token is read to its value, consuming exactly the token. */
  lemma {:induction false} ReadIntComplete(s: seq<byte>, pos: nat, terminator: byte, negative: bool, ds: seq<byte>)
    requires IsTerminator(terminator) && AllDigits(ds)
    requires At(s, pos, IntToken(negative, ds, terminator))
    ensures ReadInt(s, pos, terminator)
         == Ok((SignedValue(negative, ds), pos + |IntToken(negative, ds, terminator)|))
  {
    var start := pos + if negative then 1 else 0;
    IntTokenParts(s, pos, negative, ds, terminator);
    assert ReadInt(s, pos, terminator) == ReadIntLoop(s, start, terminator, false, negative, 0);
    assert s[start..start] == [];
    ReadIntLoopComplete(s, start, start, start + |ds|, terminator, negative);
  }

  /** Where the sign, the digits and the terminator of an integer token stand. */
  lemma {:induction false} IntTokenParts(s: seq<byte>, pos: nat, negative: bool, ds: seq<byte>, terminator: byte)
    requires IsTerminator(terminator) && AllDigits(ds)
    requires At(s, pos, IntToken(negative, ds, terminator))
    ensures var start := pos + if negative then 1 else 0;
      && |IntToken(negative, ds, terminator)| == start - pos + |ds| + 1
      && (if negative then s[pos] == MINUS else s[pos] != MINUS)
      && start + |ds| < |s| && s[start..start + |ds|] == ds && s[start + |ds|] == terminator
  {
    var sign: seq<byte> := if negative then [MINUS] else [];
    assert IntToken(negative, ds, terminator) == sign + (ds + [terminator]);
    AtSplit(s, pos, sign, ds + [terminator]);
    var start := pos + |sign|;
    AtSplit(s, start, ds, [terminator]);
    AtSingle(s, start + |ds|, terminator);
    if negative {
      AtSingle(s, pos, MINUS);
    } else {
      assert s[pos] == (ds + [terminator])[0];
    }
  }

  /** `r` is what reading digits from `start` up to a terminator yields: the terminator
      sits just before `r.1`, only digits stand between, and `r.0` is their signed value. */
  predicate DigitsThen(s: seq<byte>, start: nat, terminator: byte, negative: bool, r: (int, nat)) {
    && start < r.1 <= |s| && s[r.1 - 1] == terminator && AllDigits(s[start..r.1 - 1])
    && r.0 == SignedValue(negative, s[start..r.1 - 1])
  }

  lemma {:induction false} ReadIntLoopSound(s: seq<byte>, start: nat, pos: nat, terminator: byte,
                                            negative: bool, acc: int)
    requires start <= pos <= |s| && IsTerminator(terminator)
    requires AllDigits(s[start..pos]) && acc == Wrap32(DecimalValue(s[start..pos]))
    requires ReadIntLoop(s, pos, terminator, false, negative, acc).Ok?
    ensures ReadIntLoop(s, pos, terminator, false, negative, acc).value.1 > pos
    ensures DigitsThen(s, start, terminator, negative, ReadIntLoop(s, pos, terminator, false, negative, acc).value)
    decreases |s| - pos
  {
    assert pos < |s|;
    if IsDigit(s[pos]) {
      var acc' := AccumulateDigit(s, start, pos, acc);
      assert ReadIntLoop(s, pos, terminator, false, negative, acc)
          == ReadIntLoop(s, pos + 1, terminator, false, negative, acc');
      ReadIntLoopSound(s, start, pos + 1, terminator, negative, acc');
    } else {
      assert ReadIntLoop(s, pos, terminator, false, negative, acc)
          == Ok((if negative then Wrap32(-acc) else acc, pos + 1));
      SignAtEnd(negative, s[start..pos], acc);
    }
  }

  /** One more digit: the wrapped accumulator stays the wrapped value of the digits. */
  lemma {:induction false} AccumulateDigit(s: seq<byte>, start: nat, pos: nat, acc: int) returns (acc': int)
    requires start <= pos < |s| && IsDigit(s[pos])
    requires AllDigits(s[start..pos]) && acc == Wrap32(DecimalValue(s[start..pos]))
    ensures acc' == Wrap32(acc * 10 + DigitValue(s[pos]))
    ensures AllDigits(s[start..pos + 1]) && acc' == Wrap32(DecimalValue(s[start..pos + 1]))
  {
    var ds := s[start..pos + 1];
    assert ds == s[start..pos] + [s[pos]];
    assert ds[..|ds| - 1] == s[start..pos];
    Wrap32MulAdd(DecimalValue(s[start..pos]), DigitValue(s[pos]));
    acc' := Wrap32(acc * 10 + DigitValue(s[pos]));
  }

  /** Negating the wrapped accumulator at the end gives the signed value of the digits. */
  lemma {:induction false} SignAtEnd(negative: bool, ds: seq<byte>, acc: int)
    requires AllDigits(ds) && acc == Wrap32(DecimalValue(ds))
    ensures (if negative then Wrap32(-acc) else acc) == SignedValue(negative, ds)
  {
    Wrap32Neg(DecimalValue(ds));
  }

  /** Whatever `readInt` accepts is an optional leading '-', then digits, then the
      terminator, and its value is the signed decimal value of those digits. */
  lemma {:induction false} ReadIntSound(s: seq<byte>, pos: nat, terminator: byte)
    requires pos <= |s| && IsTerminator(terminator)
    requires ReadInt(s, pos, terminator).Ok?
    ensures pos < |s|
    ensures var start := if s[pos] == MINUS then pos + 1 else pos;
      && start < ReadInt(s, pos, terminator).value.1
      && DigitsThen(s, start, terminator, s[pos] == MINUS, ReadInt(s, pos, terminator).value)
  {
    var start := if s[pos] == MINUS then pos + 1 else pos;
    assert s[start..start] == [];
    ReadIntLoopSound(s, start, start, terminator, s[pos] == MINUS, 0);
  }

  // ---------------------------------------------------------------------------------
  // readExactly

  /** What `readExactly(n)` yields: exactly the next `n` bytes, or a failure; never fewer. */
  function Take(s: seq<byte>, pos: nat, n: int): (r: Result<(seq<byte>, nat)>)
    requires pos <= |s|
    ensures r.Ok? <==> 0 <= n && pos + n <= |s|
    ensures r.Ok? ==> |r.value.0| == n && r.value.1 == pos + n
    ensures r.Ok? ==> r.value.0 == s[pos..pos + n]
  {
    if n < 0 then Fail(NegativeLength(n))
    else if pos + n <= |s| then Ok((s[pos..pos + n], pos + n))
    else Fail(EndOfData)
  }

  /** `readExactly` as its loop is written: the source may hand out fewer bytes than asked
      for on each `read(buffer, offset, length)`. `grant(p, wanted)` stands for how many
      the source chooses to deliver at position `p`; it is clamped to what a source may
      deliver (at least one byte, at most what is wanted and what is left), and at the end
      of the data the source reports end-of-file. Whatever the source does, the method
      agrees with `Take`. */
  method ReadExactly(s: seq<byte>, pos: nat, n: int, grant: (nat, nat) -> nat)
    returns (r: Result<(seq<byte>, nat)>)
    requires pos <= |s|
    ensures r == Take(s, pos, n)
  {
    if n < 0 {
      return Fail(NegativeLength(n));
    }
    var result: seq<byte> := [];
    var p := pos;
    var remaining := n;
    while remaining > 0
      invariant 0 <= remaining <= n
      invariant p == pos + (n - remaining) && p <= |s|
      invariant result == s[pos..p]
    {
      if p == |s| {
        break;
      }
      var count := grant(p, remaining);
      if count < 1 {
        count := 1;
      }
      if count > remaining {
        count := remaining;
      }
      if count > |s| - p {
        count := |s| - p;
      }
      assert s[pos..p + count] == s[pos..p] + s[p..p + count];
      result := result + s[p..p + count];
      p := p + count;
      remaining := remaining - count;
    }
    if remaining != 0 {
      return Fail(EndOfData);
    }
    return Ok((result, p));
  }

  // ---------------------------------------------------------------------------------
  // unserializeRawString

  /** `unserializeRawString`: `len:"<exactly len bytes>"`. The length field reads as the
      number of bytes of the content, its ':' is followed by the opening quote, and a length
      that does not match the quoted content is caught by the closing quote. */
  function ReadRawString(s: seq<byte>, pos: nat): (r: Result<(seq<byte>, nat)>)
    requires pos <= |s|
    ensures r.Ok? ==> var (body, next) := r.value;
      && pos + |body| + 3 <= next <= |s|
      && s[next - 1] == QUOTE && s[next - 2 - |body|] == QUOTE
      && s[next - 1 - |body|..next - 1] == body
    ensures r.Ok? ==> ReadInt(s, pos, COLON) == Ok((|r.value.0|, r.value.1 - |r.value.0| - 2))
  {
    var len :- ReadInt(s, pos, COLON);
    var open :- ReadExpected(s, len.1, QUOTE);
    var body :- Take(s, open, len.0);
    var close :- ReadExpected(s, body.1, QUOTE);
    Ok((body.0, close))
  }

  /** The bytes of a raw string: its byte length, ':', and the bytes between quotes. */
  function RawToken(body: seq<byte>): seq<byte> {
    Digits(|body|) + [COLON, QUOTE] + body + [QUOTE]
  }

  /** Once the length field reads `n`, exactly `n` quoted bytes are the string. */
  lemma {:induction false} ReadRawStringAfterLength(s: seq<byte>, pos: nat, p: nat, body: seq<byte>)
    requires pos <= |s| && ReadInt(s, pos, COLON) == Ok((|body|, p))
    requires At(s, p, [QUOTE] + body + [QUOTE])
    ensures ReadRawString(s, pos) == Ok((body, p + |body| + 2))
  {
    AtSplit(s, p, [QUOTE] + body, [QUOTE]);
    AtSplit(s, p, [QUOTE], body);
    AtSingle(s, p, QUOTE);
    AtSingle(s, p + 1 + |body|, QUOTE);
    assert ReadExpected(s, p, QUOTE) == Ok(p + 1);
    assert Take(s, p + 1, |body|) == Ok((body, p + 1 + |body|));
    assert ReadExpected(s, p + 1 + |body|, QUOTE) == Ok(p + 2 + |body|);
  }

  /** Every raw string shorter than 2^31 bytes is read back exactly. */
  lemma {:induction false} RawStringRoundTrip(s: seq<byte>, pos: nat, body: seq<byte>)
    requires |body| < TWO_31
    requires At(s, pos, RawToken(body))
    ensures ReadRawString(s, pos) == Ok((body, pos + |RawToken(body)|))
  {
    var lenToken := IntToken(false, Digits(|body|), COLON);
    assert RawToken(body) == lenToken + ([QUOTE] + body + [QUOTE]);
    AtSplit(s, pos, lenToken, [QUOTE] + body + [QUOTE]);
    ReadLength(s, pos, |body|);
    ReadRawStringAfterLength(s, pos, pos + |lenToken|, body);
  }

  /** A declared length shorter than the quoted content fails at the closing quote. */
  lemma {:induction false} RawStringWrongLength(s: seq<byte>, pos: nat, n: nat, body: seq<byte>)
    requires n < TWO_31 && n < |body|
    requires At(s, pos, Digits(n) + [COLON, QUOTE] + body)
    requires body[n] != QUOTE
    ensures ReadRawString(s, pos) == Fail(UnexpectedChar(QUOTE, body[n]))
  {
    var p := LengthThenQuote(s, pos, n, body);
    ReadRawStringShort(s, pos, p, n);
  }

  /** Where the length field of a raw string ends, and the bytes around its content. */
  lemma {:induction false} LengthThenQuote(s: seq<byte>, pos: nat, n: nat, body: seq<byte>) returns (p: nat)
    requires n < TWO_31 && n < |body|
    requires At(s, pos, Digits(n) + [COLON, QUOTE] + body)
    ensures pos <= |s| && ReadInt(s, pos, COLON) == Ok((n, p))
    ensures p + 1 + n < |s| && s[p] == QUOTE && s[p + 1 + n] == body[n]
  {
    var lenToken := IntToken(false, Digits(n), COLON);
    LengthFieldFirst(Digits(n), body);
    AtSplit(s, pos, lenToken, [QUOTE] + body);
    p := pos + |lenToken|;
    AtHead(s, p, QUOTE, body);
    AtIndex(s, p + 1, body, n);
    ReadLength(s, pos, n);
  }

  lemma {:induction false} LengthFieldFirst(ds: seq<byte>, body: seq<byte>)
    ensures ds + [COLON, QUOTE] + body == IntToken(false, ds, COLON) + ([QUOTE] + body)
  {
    assert ds + [COLON, QUOTE] == IntToken(false, ds, COLON) + [QUOTE];
  }

  /** The digits of a length below 2^31, then ':', are read as that length. */
  lemma {:induction false} ReadLength(s: seq<byte>, pos: nat, n: nat)
    requires n < TWO_31 && At(s, pos, IntToken(false, Digits(n), COLON))
    ensures pos <= |s| && ReadInt(s, pos, COLON) == Ok((n, pos + |IntToken(false, Digits(n), COLON)|))
  {
    DigitsValue(n);
    ReadIntComplete(s, pos, COLON, false, Digits(n));
  }

  /** With the length field read as `n` and an opening quote, a byte other than '"' after
      `n` bytes fails as an unexpected character. */
  lemma {:induction false} ReadRawStringShort(s: seq<byte>, pos: nat, p: nat, n: nat)
    requires pos <= |s| && ReadInt(s, pos, COLON) == Ok((n, p))
    requires p + 1 + n < |s| && s[p] == QUOTE && s[p + 1 + n] != QUOTE
    ensures ReadRawString(s, pos) == Fail(UnexpectedChar(QUOTE, s[p + 1 + n]))
  {
    assert ReadExpected(s, p, QUOTE) == Ok(p + 1);
    assert Take(s, p + 1, n) == Ok((s[p + 1..p + 1 + n], p + 1 + n));
  }
}
