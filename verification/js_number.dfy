/**
 The two pieces of JavaScript number semantics the class-name hash relies on:
 the ToInt32 conversion applied by the `<<` operator, and
 `Number.prototype.toString(36)` on integer values.

 Numbers are modelled as mathematical integers; the hash only ever holds
 integer values, and `ClassName.ExactDoubleBound` states when those stay
 exactly representable as doubles.
 */
module JsNumber {

  predicate IsInt32(x: int) {
    -0x8000_0000 <= x < 0x8000_0000
  }

  /** ToInt32: the unique 32-bit two's-complement value congruent to x modulo 2^32
      (0x1_0000_0000 is 2^32 and 0x8000_0000 is 2^31). */
  function ToInt32(x: int): (r: int)
    ensures IsInt32(r)
    ensures (x - r) % 0x1_0000_0000 == 0
  {
    var m := x % 0x1_0000_0000;
    if m >= 0x8000_0000 then m - 0x1_0000_0000 else m
  }

  /** Two int32 values congruent modulo 2^32 are equal, so ToInt32's contract pins its result down. */
  lemma {:induction false} Int32Unique(x: int, r: int)
    requires IsInt32(r)
    requires (x - r) % 0x1_0000_0000 == 0
    ensures r == ToInt32(x)
  {
    var s := ToInt32(x);
    assert (r - s) % 0x1_0000_0000 == 0 by {
      assert r - s == (x - s) - (x - r);
    }
    assert -0x1_0000_0000 < r - s < 0x1_0000_0000;
  }

  predicate Congruent32(a: int, b: int) {
    (a - b) % 0x1_0000_0000 == 0
  }

  lemma CongruentScale(a: int, b: int)
    requires Congruent32(a, b)
    ensures Congruent32(32 * a, 32 * b)
  {
    var k := (a - b) / 0x1_0000_0000;
    assert a - b == k * 0x1_0000_0000;
    assert 32 * a - 32 * b == (32 * k) * 0x1_0000_0000;
  }

  lemma CongruentTrans(a: int, b: int, c: int)
    requires Congruent32(a, b) && Congruent32(b, c)
    ensures Congruent32(a, c)
  {
    var k := (a - b) / 0x1_0000_0000;
    var l := (b - c) / 0x1_0000_0000;
    assert a - b == k * 0x1_0000_0000;
    assert b - c == l * 0x1_0000_0000;
    assert a - c == (k + l) * 0x1_0000_0000;
  }

  /** `x << 5`: the left operand goes through ToInt32 and the 32-bit shift wraps,
      which amounts to reducing 32 * x to int32. */
  function ShiftLeft5(x: int): (r: int)
    ensures r == ToInt32(32 * x)
  {
    var a := ToInt32(x);
    var r := ToInt32(a * 32);
    CongruentScale(x, a);
    CongruentTrans(32 * x, 32 * a, r);
    Int32Unique(32 * x, r);
    r
  }

  predicate IsRadix36Digit(c: char) {
    ('0' <= c <= '9') || ('a' <= c <= 'z')
  }

  /** The digit `toString(36)` writes for the value d: `0`-`9`, then `a`-`z`. */
  function DigitChar(d: nat): (c: char)
    requires d < 36
    ensures IsRadix36Digit(c)
  {
    if d < 10 then ('0' as int + d) as char else ('a' as int + d - 10) as char
  }

  function DigitValue(c: char): (d: nat)
    requires IsRadix36Digit(c)
    ensures d < 36
    ensures DigitChar(d) == c
  {
    if c <= '9' then (c - '0') as nat else (c - 'a') as nat + 10
  }

  lemma DigitRoundTrip(d: nat)
    requires d < 36
    ensures DigitValue(DigitChar(d)) == d
  {
  }

  /** The digits of a natural number in base 36, most significant first, without leading zeros. */
  function Radix36(n: nat): (s: string)
    ensures |s| > 0
    ensures forall i :: 0 <= i < |s| ==> IsRadix36Digit(s[i])
    ensures |s| > 1 ==> s[0] != '0'
    decreases n
  {
    if n < 36 then [DigitChar(n)] else Radix36(n / 36) + [DigitChar(n % 36)]
  }

  /** `x.toString(36)` for an integer-valued number: a `-` sign for negatives, then the digits of |x|. */
  function ToString36(x: int): (s: string)
    ensures IsRadix36Numeral(s)
    ensures |Magnitude(s)| > 1 ==> Magnitude(s)[0] != '0'
    ensures (|s| > 0 && s[0] == '-') <==> x < 0
  {
    if x < 0 then "-" + Radix36(-x) else Radix36(x)
  }

  /** The numeral without its sign. */
  function Magnitude(s: string): string {
    if |s| > 0 && s[0] == '-' then s[1..] else s
  }

  /** An optional minus sign followed by one or more radix-36 digits. */
  predicate IsRadix36Numeral(s: string) {
    |Magnitude(s)| > 0 && forall i :: 0 <= i < |Magnitude(s)| ==> IsRadix36Digit(Magnitude(s)[i])
  }

  /** Reads radix-36 digits back into a number (the reading `parseInt(s, 36)` gives). */
  function ParseRadix36(s: string): nat
    requires forall i :: 0 <= i < |s| ==> IsRadix36Digit(s[i])
  {
    if |s| == 0 then 0 else ParseRadix36(s[..|s| - 1]) * 36 + DigitValue(s[|s| - 1])
  }

  function ParseInt36(s: string): int
    requires IsRadix36Numeral(s)
  {
    var m: int := ParseRadix36(Magnitude(s));
    if |s| > 0 && s[0] == '-' then -m else m
  }

  lemma {:induction false} Radix36RoundTrip(n: nat)
    ensures ParseRadix36(Radix36(n)) == n
    decreases n
  {
    var s := Radix36(n);
    if n < 36 {
      DigitRoundTrip(n);
    } else {
      Radix36RoundTrip(n / 36);
      assert s[..|s| - 1] == Radix36(n / 36);
      assert s[|s| - 1] == DigitChar(n % 36);
      DigitRoundTrip(n % 36);
    }
  }

  /** Rendering in base 36 loses nothing: the numeral parses back to the same integer. */
  lemma ToString36RoundTrip(x: int)
    ensures ParseInt36(ToString36(x)) == x
  {
    if x < 0 {
      Radix36RoundTrip(-x);
      assert ToString36(x)[1..] == Radix36(-x);
    } else {
      Radix36RoundTrip(x);
      assert Radix36(x)[0] != '-';
    }
  }

  /** Distinct integers render to distinct numerals, in both directions. */
  lemma ToString36Injective(x: int, y: int)
    ensures ToString36(x) == ToString36(y) <==> x == y
  {
    ToString36RoundTrip(x);
    ToString36RoundTrip(y);
  }
}
