/**
 Style-class naming (`generateClassName`, index.js:27-35).

 The hash starts at 5381 and absorbs every UTF-16 code unit of every style
 string, in order, with `hash = ((hash << 5) + hash) + code`. Only the shift
 wraps to 32 bits; the two additions are ordinary number additions, so the
 hash itself is not confined to 32 bits. The name is `class-` followed by the
 hash in base 36, with a `-` when the hash is negative.
 */
module ClassName {
  import opened JsNumber
  import opened JsString

  const Seed: int := 5381
  const Prefix: string := "class-"

  /** One round of the inner loop: the shifted part is an int32 congruent to 32 * h. */
  function Step(h: int, u: int): (r: int)
    ensures IsInt32(r - h - u)
    ensures Congruent32(32 * h, r - h - u)
  {
    ShiftLeft5(h) + h + u
  }

  /** The hash after absorbing the code units us, starting from h. */
  function HashUnits(h: int, us: seq<int>): int
    decreases |us|
  {
    if |us| == 0 then h else HashUnits(Step(h, us[0]), us[1..])
  }

  /** The two nested loops: each style string in turn, each code unit of it in turn.
      They hash exactly the code units of the concatenated style strings, so the
      boundaries between entries play no part. */
  function HashStyles(h: int, styles: seq<string>): (r: int)
    ensures r == HashUnits(h, CodeUnits(Concat(styles)))
    decreases |styles|
  {
    if |styles| == 0 then h
    else
      FlatStep(h, styles);
      HashStyles(HashUnits(h, CodeUnits(styles[0])), styles[1..])
  }

  lemma {:induction false} HashUnitsAppend(h: int, a: seq<int>, b: seq<int>)
    ensures HashUnits(h, a + b) == HashUnits(HashUnits(h, a), b)
    decreases |a|
  {
    if |a| == 0 {
      assert a + b == b;
    } else {
      assert (a + b)[0] == a[0];
      assert (a + b)[1..] == a[1..] + b;
      HashUnitsAppend(Step(h, a[0]), a[1..], b);
    }
  }

  /** Absorbing the first string, then the concatenation of the rest, is absorbing the whole concatenation. */
  lemma FlatStep(h: int, styles: seq<string>)
    requires |styles| > 0
    ensures HashUnits(h, CodeUnits(Concat(styles))) ==
      HashUnits(HashUnits(h, CodeUnits(styles[0])), CodeUnits(Concat(styles[1..])))
  {
    var rest := styles[1..];
    assert styles == [styles[0]] + rest;
    ConcatAppend([styles[0]], rest);
    assert Concat([styles[0]]) == styles[0] by {
      assert [styles[0]][..0] == [];
    }
    CodeUnitsAppend(styles[0], Concat(rest));
    HashUnitsAppend(h, CodeUnits(styles[0]), CodeUnits(Concat(rest)));
  }

  /** The value `hash` holds when the loops end. */
  function Hash(styles: seq<string>): int {
    HashStyles(Seed, styles)
  }

  /** `generateClassName(styles)` */
  function GenerateClassName(styles: seq<string>): string {
    Prefix + ToString36(Hash(styles))
  }

  /** Every class name is the prefix followed by a base-36 numeral (optionally signed),
      and that numeral reads back as the hash of the concatenated code units. */
  lemma ClassNameShape(styles: seq<string>)
    ensures |GenerateClassName(styles)| > |Prefix|
    ensures GenerateClassName(styles)[..|Prefix|] == Prefix
    ensures IsRadix36Numeral(GenerateClassName(styles)[|Prefix|..])
    ensures ParseInt36(GenerateClassName(styles)[|Prefix|..]) == HashUnits(Seed, CodeUnits(Concat(styles)))
  {
    var name := GenerateClassName(styles);
    assert name[|Prefix|..] == ToString36(Hash(styles));
    ToString36RoundTrip(Hash(styles));
  }

  /** Two style lists get the same name exactly when their hashes agree. */
  lemma ClassNameCollision(a: seq<string>, b: seq<string>)
    ensures GenerateClassName(a) == GenerateClassName(b) <==> Hash(a) == Hash(b)
  {
    ToString36Injective(Hash(a), Hash(b));
    if GenerateClassName(a) == GenerateClassName(b) {
      assert GenerateClassName(a)[|Prefix|..] == ToString36(Hash(a));
      assert GenerateClassName(b)[|Prefix|..] == ToString36(Hash(b));
    }
  }

  /** Only the characters matter, not how they are split into entries. */
  lemma ClassNameDependsOnConcat(a: seq<string>, b: seq<string>)
    requires Concat(a) == Concat(b)
    ensures GenerateClassName(a) == GenerateClassName(b)
  {
  }

  lemma ClassNameIgnoresSplit()
    ensures GenerateClassName(["ab", "c"]) == GenerateClassName(["a", "bc"])
  {
    assert Concat(["ab", "c"]) == "abc" by {
      assert ["ab", "c"][..1] == ["ab"];
      assert ["ab"][..0] == [];
    }
    assert Concat(["a", "bc"]) == "abc" by {
      assert ["a", "bc"][..1] == ["a"];
      assert ["a"][..0] == [];
    }
    ClassNameDependsOnConcat(["ab", "c"], ["a", "bc"]);
  }

  /** The order of the characters does matter. */
  lemma ClassNameOrderSensitive()
    ensures GenerateClassName(["a", "b"]) != GenerateClassName(["b", "a"])
  {
    assert CodeUnits("a") == [97] by { assert "a"[..0] == ""; }
    assert CodeUnits("b") == [98] by { assert "b"[..0] == ""; }
    assert HashUnits(Seed, [97]) == 177670 by {
      assert ToInt32(32 * Seed) == 172192;
      assert [97][1..] == [];
    }
    assert HashUnits(Seed, [98]) == 177671 by {
      assert ToInt32(32 * Seed) == 172192;
      assert [98][1..] == [];
    }
    assert HashUnits(177670, [98]) == 5863208 by {
      assert ToInt32(32 * 177670) == 5685440;
      assert [98][1..] == [];
    }
    assert HashUnits(177671, [97]) == 5863240 by {
      assert ToInt32(32 * 177671) == 5685472;
      assert [97][1..] == [];
    }
    assert Hash(["a", "b"]) == 5863208 by {
      assert ["a", "b"][1..] == ["b"];
      assert ["b"][1..] == [];
    }
    assert Hash(["b", "a"]) == 5863240 by {
      assert ["b", "a"][1..] == ["a"];
      assert ["a"][1..] == [];
    }
    ClassNameCollision(["a", "b"], ["b", "a"]);
  }

  /** With no style strings the hash is the seed, 5381, which is `45h` in base 36. */
  lemma ClassNameOfEmpty()
    ensures GenerateClassName([]) == "class-45h"
  {
    assert Hash([]) == 5381;
    assert Radix36(4) == "4";
    assert Radix36(149) == "45" by { assert Radix36(149) == Radix36(4) + [DigitChar(5)]; }
    assert Radix36(5381) == "45h" by { assert Radix36(5381) == Radix36(149) + [DigitChar(17)]; }
  }

  function Abs(x: int): nat {
    if x < 0 then -x else x
  }

  /** Each round moves the hash by at most 2^31 + 2^16 (written 0x8001_0000 below):
      the shifted part is an int32 and a code unit is below 2^16. */
  lemma {:induction false} HashGrowth(h: int, us: seq<int>)
    requires forall k :: 0 <= k < |us| ==> IsCodeUnit(us[k])
    ensures Abs(HashUnits(h, us)) <= Abs(h) + |us| * 0x8001_0000
    decreases |us|
  {
    if |us| > 0 {
      var h' := Step(h, us[0]);
      assert Abs(h') <= Abs(h) + 0x8001_0000;
      HashGrowth(h', us[1..]);
      assert HashUnits(h, us) == HashUnits(h', us[1..]);
    }
  }

  const TwoTo53: int := 0x20_0000_0000_0000

  /** Longest input, in code units, for which the model is exact. */
  const MaxExactUnits: int := 0x3F_FF00

  /** For inputs of at most MaxExactUnits code units, every value the loop computes,
      including the partial sum `(hash << 5) + hash`, stays below 2^53 in magnitude,
      so the source's double arithmetic is exact and agrees with this integer model. */
  lemma ExactDoubleBound(styles: seq<string>)
    requires |CodeUnits(Concat(styles))| <= MaxExactUnits
    ensures forall k :: 0 <= k <= |CodeUnits(Concat(styles))| ==>
      Abs(HashUnits(Seed, CodeUnits(Concat(styles))[..k])) + 0x8000_0000 < TwoTo53
  {
    var us := CodeUnits(Concat(styles));
    forall k | 0 <= k <= |us|
      ensures Abs(HashUnits(Seed, us[..k])) + 0x8000_0000 < TwoTo53
    {
      HashGrowth(Seed, us[..k]);
    }
  }
}
