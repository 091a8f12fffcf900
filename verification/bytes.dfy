/** Bytes as the decoder sees them, the ASCII control characters of the wire format,
    decimal digit strings, and Java's 32-bit `int` arithmetic. */
module Bytes {

  /** One byte as returned by `Source.read()`: 0..255, never the end marker. */
  type byte = b: int | 0 <= b < 256

  const QUOTE: byte := 34      // '"'
  const MINUS: byte := 45      // '-'
  const DOT: byte := 46        // '.'
  const ZERO: byte := 48       // '0'
  const NINE: byte := 57       // '9'
  const COLON: byte := 58      // ':'
  const SEMICOLON: byte := 59  // ';'
  const LBRACE: byte := 123    // '{'
  const RBRACE: byte := 125    // '}'

  // The type tags of the wire format.
  const TAG_NULL: byte := 78    // 'N'
  const TAG_OBJECT: byte := 79  // 'O'
  const TAG_REF: byte := 82     // 'R'
  const TAG_ARRAY: byte := 97   // 'a'
  const TAG_BOOL: byte := 98    // 'b'
  const TAG_DOUBLE: byte := 100 // 'd'
  const TAG_INT: byte := 105    // 'i'
  const TAG_STRING: byte := 115 // 's'

  /** `Character.digit(c, 10)` is in 0..9 exactly for '0'..'9' among the chars 0..255. */
  predicate IsDigit(c: byte) {
    ZERO <= c <= NINE
  }

  function DigitValue(c: byte): (d: nat)
    requires IsDigit(c)
    ensures d < 10
  {
    c - ZERO
  }

  predicate AllDigits(ds: seq<byte>) {
    forall i | 0 <= i < |ds| :: IsDigit(ds[i])
  }

  /** The value of a digit string read left to right, as `result*10+digit` accumulates it;
      the empty string is worth 0. */
  function DecimalValue(ds: seq<byte>): nat
    requires AllDigits(ds)
  {
    if |ds| == 0 then 0 else DecimalValue(ds[..|ds| - 1]) * 10 + DigitValue(ds[|ds| - 1])
  }

  /** The shortest decimal spelling of `n`, used to write length and count fields. */
  function Digits(n: nat): (ds: seq<byte>)
    ensures |ds| > 0 && AllDigits(ds)
  {
    if n < 10 then [ZERO + n] else Digits(n / 10) + [ZERO + n % 10]
  }

  lemma {:induction false} DigitsValue(n: nat)
    ensures DecimalValue(Digits(n)) == n
  {
    var ds := Digits(n);
    if n >= 10 {
      DigitsValue(n / 10);
      assert ds[..|ds| - 1] == Digits(n / 10);
    }
  }

  /** `s` spells `w` starting at position `pos`. */
  predicate At<T(==)>(s: seq<T>, pos: nat, w: seq<T>) {
    pos + |w| <= |s| && s[pos..pos + |w|] == w
  }

  lemma {:induction false} AtSplit<T>(s: seq<T>, pos: nat, a: seq<T>, b: seq<T>)
    requires At(s, pos, a + b)
    ensures At(s, pos, a) && At(s, pos + |a|, b)
  {
    assert s[pos..pos + |a|] == (a + b)[..|a|];
    assert s[pos + |a|..pos + |a| + |b|] == (a + b)[|a|..];
  }

  /** A sequence spells its own prefix at its start. */
  lemma {:induction false} AtStart<T>(w: seq<T>, rest: seq<T>)
    ensures At(w + rest, 0, w)
  {
    assert (w + rest)[0..|w|] == w;
  }

  lemma {:induction false} AtJoin<T>(s: seq<T>, pos: nat, a: seq<T>, b: seq<T>)
    requires At(s, pos, a) && At(s, pos + |a|, b)
    ensures At(s, pos, a + b)
  {
    assert s[pos..pos + |a| + |b|] == s[pos..pos + |a|] + s[pos + |a|..pos + |a| + |b|];
  }

  lemma {:induction false} AtIndex<T>(s: seq<T>, pos: nat, w: seq<T>, k: nat)
    requires At(s, pos, w) && k < |w|
    ensures pos + k < |s| && s[pos + k] == w[k]
  {
    assert s[pos..pos + |w|][k] == s[pos + k];
  }

  /** Splits off the first byte of a spelled sequence. */
  lemma {:induction false} AtHead<T>(s: seq<T>, pos: nat, c: T, w: seq<T>)
    requires At(s, pos, [c] + w)
    ensures pos < |s| && s[pos] == c && At(s, pos + 1, w)
  {
    AtSplit(s, pos, [c], w);
    assert s[pos] == s[pos..pos + 1][0];
  }

  /** Concatenation is associative; stated once so that the solver need not rediscover it
      element by element. */
  lemma AppendAssoc<T>(a: seq<T>, b: seq<T>, c: seq<T>)
    ensures a + b + c == a + (b + c)
  {
  }

  lemma {:induction false} AtSingle<T>(s: seq<T>, pos: nat, c: T)
    ensures At(s, pos, [c]) <==> pos < |s| && s[pos] == c
  {
    if pos < |s| {
      assert s[pos..pos + 1] == [s[pos]];
    }
  }

  // ---------------------------------------------------------------------------------
  // Java `int`

  const TWO_31: int := 0x8000_0000
  const TWO_32: int := 0x1_0000_0000

  predicate IsInt32(x: int) {
    -TWO_31 <= x < TWO_31
  }

  /** Two's-complement wrap-around of Java's `int` arithmetic. */
  function Wrap32(x: int): (w: int)
    ensures IsInt32(w)
    ensures IsInt32(x) ==> w == x
  {
    (x + TWO_31) % TWO_32 - TWO_31
  }

  /** Adding a multiple of 2^32 does not change the wrapped value. */
  lemma {:induction false} Wrap32Shift(x: int, k: int)
    ensures Wrap32(x + k * TWO_32) == Wrap32(x)
  {
    var q := (x + TWO_31) / TWO_32;
    var r := (x + TWO_31) % TWO_32;
    assert x + TWO_31 + k * TWO_32 == (q + k) * TWO_32 + r;
    DivModUnique(x + TWO_31 + k * TWO_32, q + k, r);
  }

  lemma {:induction false} DivModUnique(a: int, q: int, r: int)
    requires 0 <= r < TWO_32 && a == q * TWO_32 + r
    ensures a % TWO_32 == r
  {
  }

  /** The wrapped value differs from the exact one by a multiple of 2^32. */
  lemma {:induction false} Wrap32Offset(x: int) returns (k: int)
    ensures Wrap32(x) == x + k * TWO_32
  {
    k := -((x + TWO_31) / TWO_32);
  }

  /** Wrapping after every step of `acc*10+digit` is the same as wrapping once at the end. */
  lemma {:induction false} Wrap32MulAdd(a: int, d: int)
    ensures Wrap32(Wrap32(a) * 10 + d) == Wrap32(a * 10 + d)
  {
    var k := Wrap32Offset(a);
    assert Wrap32(a) * 10 + d == (a * 10 + d) + (10 * k) * TWO_32;
    Wrap32Shift(a * 10 + d, 10 * k);
  }

  /** Negating a wrapped value and wrapping again is wrapping the exact negation. */
  lemma {:induction false} Wrap32Neg(a: int)
    ensures Wrap32(-Wrap32(a)) == Wrap32(-a)
  {
    var k := Wrap32Offset(a);
    assert -Wrap32(a) == -a + (-k) * TWO_32;
    Wrap32Shift(-a, -k);
  }
}
