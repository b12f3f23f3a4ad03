/**
 JavaScript string views of Dafny strings.

 A Dafny `string` is a sequence of Unicode scalar values, while a JavaScript
 string is a sequence of UTF-16 code units; `charCodeAt` and `length` see the
 latter. `CodeUnits` gives that view. The remaining functions are the small
 string operations the exporter uses: joining a list, concatenating a list,
 and counting occurrences of a character.
 */
module JsString {

  const SurrogateBase: int := 0x1_0000

  predicate IsCodeUnit(u: int) {
    0 <= u < 0x1_0000
  }

  /** The UTF-16 code units of one character: itself, or a high/low surrogate pair. */
  function CharUnits(c: char): (us: seq<int>)
    ensures |us| == 1 || |us| == 2
    ensures |us| == 2 <==> c as int >= SurrogateBase
    ensures forall k :: 0 <= k < |us| ==> IsCodeUnit(us[k])
    ensures c as int < SurrogateBase <==> us == [c as int]
    ensures |us| == 2 ==> 0xD800 <= us[0] < 0xDC00 && 0xDC00 <= us[1] < 0xE000
    ensures |us| == 2 ==> SurrogateBase + (us[0] - 0xD800) * 0x400 + (us[1] - 0xDC00) == c as int
  {
    var v := c as int;
    if v < SurrogateBase then [v]
    else [0xD800 + (v - SurrogateBase) / 0x400, 0xDC00 + (v - SurrogateBase) % 0x400]
  }

  /** What `s.charCodeAt(0)`, ..., `s.charCodeAt(s.length - 1)` return. */
  function CodeUnits(s: string): (us: seq<int>)
    ensures |us| >= |s|
    ensures |us| == |s| <==> forall k :: 0 <= k < |s| ==> s[k] as int < SurrogateBase
    ensures forall k :: 0 <= k < |us| ==> IsCodeUnit(us[k])
    decreases |s|
  {
    if |s| == 0 then [] else CodeUnits(s[..|s| - 1]) + CharUnits(s[|s| - 1])
  }

  /** A single character gives exactly its own code units. */
  lemma CodeUnitsOfChar(c: char)
    ensures CodeUnits([c]) == CharUnits(c)
  {
    assert [c][..0] == [];
  }

  /** Below U+10000 every character is one code unit, its own code point. */
  lemma {:induction false} CodeUnitsOfBmp(s: string)
    requires forall k :: 0 <= k < |s| ==> s[k] as int < SurrogateBase
    ensures |CodeUnits(s)| == |s|
    ensures forall k :: 0 <= k < |s| ==> CodeUnits(s)[k] == s[k] as int
    decreases |s|
  {
    if |s| > 0 {
      CodeUnitsOfBmp(s[..|s| - 1]);
    }
  }

  lemma {:induction false} CodeUnitsAppend(a: string, b: string)
    ensures CodeUnits(a + b) == CodeUnits(a) + CodeUnits(b)
    decreases |b|
  {
    if |b| == 0 {
      assert a + b == a;
    } else {
      var b' := b[..|b| - 1];
      assert (a + b)[..|a + b| - 1] == a + b';
      assert (a + b)[|a + b| - 1] == b[|b| - 1];
      CodeUnitsAppend(a, b');
    }
  }

  /** The characters of all entries, in order: `styles.join('')`. */
  function Concat(ss: seq<string>): (s: string)
    ensures |ss| == 0 ==> s == ""
  {
    if |ss| == 0 then "" else Concat(ss[..|ss| - 1]) + ss[|ss| - 1]
  }

  lemma {:induction false} ConcatAppend(a: seq<string>, b: seq<string>)
    ensures Concat(a + b) == Concat(a) + Concat(b)
    decreases |b|
  {
    if |b| == 0 {
      assert a + b == a;
    } else {
      var b' := b[..|b| - 1];
      assert (a + b)[..|a + b| - 1] == a + b';
      ConcatAppend(a, b');
    }
  }

  /** `Array.prototype.join(sep)` on a list of strings. */
  function Join(ss: seq<string>, sep: string): string {
    if |ss| == 0 then ""
    else if |ss| == 1 then ss[0]
    else Join(ss[..|ss| - 1], sep) + sep + ss[|ss| - 1]
  }

  /** Number of occurrences of c in s. */
  function Count(c: char, s: string): nat {
    if |s| == 0 then 0 else Count(c, s[..|s| - 1]) + (if s[|s| - 1] == c then 1 else 0)
  }

  lemma {:induction false} CountAppend(c: char, a: string, b: string)
    ensures Count(c, a + b) == Count(c, a) + Count(c, b)
    decreases |b|
  {
    if |b| == 0 {
      assert a + b == a;
    } else {
      var b' := b[..|b| - 1];
      assert (a + b)[..|a + b| - 1] == a + b';
      CountAppend(c, a, b');
    }
  }

  lemma {:induction false} CountAbsent(c: char, s: string)
    requires forall k :: 0 <= k < |s| ==> s[k] != c
    ensures Count(c, s) == 0
    decreases |s|
  {
    if |s| > 0 {
      CountAbsent(c, s[..|s| - 1]);
    }
  }

  lemma {:induction false} CountJoin(c: char, ss: seq<string>, sep: string)
    requires Count(c, sep) == 0
    requires forall k :: 0 <= k < |ss| ==> Count(c, ss[k]) == 0
    ensures Count(c, Join(ss, sep)) == 0
    decreases |ss|
  {
    if |ss| > 1 {
      CountJoin(c, ss[..|ss| - 1], sep);
      CountAppend(c, Join(ss[..|ss| - 1], sep), sep);
      CountAppend(c, Join(ss[..|ss| - 1], sep) + sep, ss[|ss| - 1]);
    }
  }
}
