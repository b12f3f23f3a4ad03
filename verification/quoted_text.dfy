/**
 Quote cleaning for `<q>` elements (`cleanQuotedText`, index.js:61-63).

 The first replacement, `/^"|"$/g`, removes a straight double quote at the very
 start and one at the very end (without the `m` flag `^` and `$` only match at
 the ends of the whole text, and a lone `"` is consumed by `^"` before `"$` is
 tried). The second, `/“|”/g`, removes every curly double quote.
 */
module QuotedText {
  import opened JsString

  const Quote: char := '"'

  /** U+201C and U+201D. */
  predicate IsCurlyQuote(c: char) {
    c == '\U{201C}' || c == '\U{201D}'
  }

  lemma {:induction false} CountSplit(c: char, s: string, i: nat)
    requires i <= |s|
    ensures Count(c, s) == Count(c, s[..i]) + Count(c, s[i..])
  {
    assert s == s[..i] + s[i..];
    CountAppend(c, s[..i], s[i..]);
  }

  /** The `^"` alternative: a straight quote at the very start. */
  function DropLeadingQuote(s: string): (a: string)
    ensures |a| < |s| <==> |s| > 0 && s[0] == Quote
    ensures |a| <= |s| <= |a| + 1
    ensures a == s[|s| - |a|..]
  {
    if |s| > 0 && s[0] == Quote then s[1..] else s
  }

  /** The `"$` alternative: a straight quote at the very end. */
  function DropTrailingQuote(a: string): (r: string)
    ensures |r| < |a| <==> |a| > 0 && a[|a| - 1] == Quote
    ensures |r| <= |a| <= |r| + 1
    ensures r == a[..|r|]
  {
    if |a| > 0 && a[|a| - 1] == Quote then a[..|a| - 1] else a
  }

  /** Taking a slice only drops characters. */
  lemma SliceCount(c: char, s: string, lo: nat, hi: nat)
    requires lo <= hi <= |s|
    ensures Count(c, s[lo..hi]) + Count(c, s[..lo]) + Count(c, s[hi..]) == Count(c, s)
  {
    CountSplit(c, s, lo);
    CountSplit(c, s[lo..], hi - lo);
    assert s[lo..][..hi - lo] == s[lo..hi];
    assert s[lo..][hi - lo..] == s[hi..];
  }

  lemma {:induction false} AllQuotes(s: string)
    requires forall k :: 0 <= k < |s| ==> s[k] == Quote
    ensures Count(Quote, s) == |s|
    ensures forall c :: c != Quote ==> Count(c, s) == 0
    decreases |s|
  {
    if |s| > 0 {
      AllQuotes(s[..|s| - 1]);
    }
  }

  lemma {:induction false} SliceContains(c: char, s: string, lo: nat, hi: nat, lo': nat, hi': nat)
    requires lo <= lo' <= hi' <= hi <= |s|
    ensures Count(c, s[lo'..hi']) <= Count(c, s[lo..hi])
  {
    var t := s[lo..hi];
    SliceCount(c, t, lo' - lo, hi' - lo);
    assert t[lo' - lo..hi' - lo] == s[lo'..hi'] by {
      forall k | 0 <= k < hi' - lo'
        ensures t[lo' - lo..hi' - lo][k] == s[lo'..hi'][k]
      {
        assert t[lo' - lo..hi' - lo][k] == t[lo' - lo + k] == s[lo + (lo' - lo + k)];
      }
    }
  }

  /** Where the text kept by `/^"|"$/g` starts: past a leading straight quote, if any. */
  function OuterStart(s: string): nat {
    if |s| > 0 && s[0] == Quote then 1 else 0
  }

  /** Where that text ends: before a trailing straight quote that the leading one did not take. */
  function OuterEnd(s: string): nat {
    if |s| > OuterStart(s) && s[|s| - 1] == Quote then |s| - 1 else |s|
  }

  /** What the two alternatives together remove: at most one quote at each end. */
  lemma StripFacts(s: string)
    ensures var r := DropTrailingQuote(DropLeadingQuote(s));
      && OuterStart(s) + |r| <= |s| && r == s[OuterStart(s)..OuterStart(s) + |r|]
      && |r| <= |s| <= |r| + 2
      && (|r| < |s| <==> |s| > 0 && (s[0] == Quote || s[|s| - 1] == Quote))
      && Count(Quote, r) + (|s| - |r|) == Count(Quote, s)
      && (forall c :: c != Quote ==> Count(c, r) == Count(c, s))
      && (|s| >= 2 ==> Count(Quote, s[1..|s| - 1]) <= Count(Quote, r))
  {
    var a := DropLeadingQuote(s);
    var r := DropTrailingQuote(a);
    var lo := |s| - |a|;
    var hi := lo + |r|;
    assert r == s[lo..hi];
    assert forall k :: 0 <= k < |s[..lo]| ==> s[..lo][k] == Quote;
    assert forall k :: 0 <= k < |s[hi..]| ==> s[hi..][k] == Quote;
    AllQuotes(s[..lo]);
    AllQuotes(s[hi..]);
    forall c
      ensures Count(c, r) + Count(c, s[..lo]) + Count(c, s[hi..]) == Count(c, s)
    {
      SliceCount(c, s, lo, hi);
    }
    if |s| >= 2 {
      SliceContains(Quote, s, lo, hi, 1, |s| - 1);
    }
  }

  /** `text.replace(/^"|"$/g, '')` */
  function StripOuterQuotes(s: string): (r: string)
    ensures OuterStart(s) + |r| <= |s| && r == s[OuterStart(s)..OuterStart(s) + |r|]
    ensures OuterStart(s) <= OuterEnd(s) <= |s| && r == s[OuterStart(s)..OuterEnd(s)]
    ensures |r| <= |s| <= |r| + 2
    ensures |r| < |s| <==> |s| > 0 && (s[0] == Quote || s[|s| - 1] == Quote)
    ensures Count(Quote, r) + (|s| - |r|) == Count(Quote, s)
    ensures forall c :: c != Quote ==> Count(c, r) == Count(c, s)
    ensures |s| >= 2 ==> Count(Quote, s[1..|s| - 1]) <= Count(Quote, r)
  {
    StripFacts(s);
    DropTrailingQuote(DropLeadingQuote(s))
  }

  /** `.replace(/“|”/g, '')` */
  function RemoveCurlyQuotes(s: string): (r: string)
    ensures |r| <= |s|
    ensures forall k :: 0 <= k < |r| ==> !IsCurlyQuote(r[k])
    ensures forall c :: !IsCurlyQuote(c) ==> Count(c, r) == Count(c, s)
    decreases |s|
  {
    if |s| == 0 then ""
    else
      var init := RemoveCurlyQuotes(s[..|s| - 1]);
      var last := s[|s| - 1];
      if IsCurlyQuote(last) then init
      else
        var r := init + [last];
        assert r[..|r| - 1] == init;
        r
  }

  /** `cleanQuotedText(text)` */
  function CleanQuotedText(s: string): (r: string)
    ensures |r| <= |s|
    ensures forall k :: 0 <= k < |r| ==> !IsCurlyQuote(r[k])
    ensures forall c :: c != Quote && !IsCurlyQuote(c) ==> Count(c, r) == Count(c, s)
    ensures Count(Quote, r) <= Count(Quote, s) <= Count(Quote, r) + 2
    ensures |s| >= 2 ==> Count(Quote, s[1..|s| - 1]) <= Count(Quote, r)
    ensures OuterStart(s) <= OuterEnd(s) <= |s| && r == RemoveCurlyQuotes(s[OuterStart(s)..OuterEnd(s)])
  {
    var m := StripOuterQuotes(s);
    var r := RemoveCurlyQuotes(m);
    assert !IsCurlyQuote(Quote);
    assert Count(Quote, r) == Count(Quote, m);
    r
  }

  /** Text with no curly quotes that neither starts nor ends with a straight quote is left alone. */
  lemma {:induction false} CleanQuotedTextFixedPoint(s: string)
    requires forall k :: 0 <= k < |s| ==> !IsCurlyQuote(s[k])
    requires |s| > 0 ==> s[0] != Quote && s[|s| - 1] != Quote
    ensures CleanQuotedText(s) == s
  {
    RemoveCurlyOfClean(s);
  }

  lemma {:induction false} RemoveCurlyOfClean(s: string)
    requires forall k :: 0 <= k < |s| ==> !IsCurlyQuote(s[k])
    ensures RemoveCurlyQuotes(s) == s
    decreases |s|
  {
    if |s| > 0 {
      RemoveCurlyOfClean(s[..|s| - 1]);
    }
  }

  /** Straight quotes around the text go. */
  lemma CleanStraightQuoted()
    ensures CleanQuotedText("\"hello\"") == "hello"
  {
    assert StripOuterQuotes("\"hello\"") == "hello" by {
      assert DropLeadingQuote("\"hello\"") == "hello\"";
      assert "hello\""[..5] == "hello";
    }
    RemoveCurlyOfClean("hello");
  }

  /** Curly-quote removal works character by character: it maps concatenation to concatenation. */
  lemma {:induction false} RemoveCurlyAppend(a: string, b: string)
    ensures RemoveCurlyQuotes(a + b) == RemoveCurlyQuotes(a) + RemoveCurlyQuotes(b)
    decreases |b|
  {
    if |b| == 0 {
      assert a + b == a;
    } else {
      var b' := b[..|b| - 1];
      assert (a + b)[..|a + b| - 1] == a + b';
      assert (a + b)[|a + b| - 1] == b[|b| - 1];
      RemoveCurlyAppend(a, b');
    }
  }

  /** Text with no quotes of its own, wrapped in curly quotes, comes back unwrapped. */
  lemma CleanCurlyWrapped(x: string)
    requires forall k :: 0 <= k < |x| ==> !IsCurlyQuote(x[k]) && x[k] != Quote
    ensures CleanQuotedText(['\U{201C}'] + x + ['\U{201D}']) == x
  {
    var s := ['\U{201C}'] + x + ['\U{201D}'];
    assert s[0] == '\U{201C}' && s[|s| - 1] == '\U{201D}';
    assert StripOuterQuotes(s) == s;
    RemoveCurlyAppend(['\U{201C}'] + x, ['\U{201D}']);
    RemoveCurlyAppend(['\U{201C}'], x);
    RemoveCurlyOfClean(x);
    assert ['\U{201C}'][..0] == [];
    assert ['\U{201D}'][..0] == [];
  }

  /** Curly quotes go wherever they are. */
  lemma CleanCurlyQuoted()
    ensures CleanQuotedText("\U{201C}hello\U{201D}") == "hello"
  {
    assert "\U{201C}hello\U{201D}" == ['\U{201C}'] + "hello" + ['\U{201D}'];
    CleanCurlyWrapped("hello");
  }

  /** A lone quote, and a pair of quotes, leave nothing. */
  lemma CleanOnlyQuotes()
    ensures CleanQuotedText("\"") == ""
    ensures CleanQuotedText("\"\"") == ""
  {
    assert StripOuterQuotes("\"") == "";
    assert StripOuterQuotes("\"\"") == "" by {
      assert DropLeadingQuote("\"\"") == "\"";
    }
  }

  /** Any text between straight quotes loses exactly those two quotes, whatever it holds,
      and then its curly quotes. */
  lemma CleanQuoteWrapped(x: string)
    ensures CleanQuotedText([Quote] + x + [Quote]) == RemoveCurlyQuotes(x)
  {
    var s := [Quote] + x + [Quote];
    assert OuterStart(s) == 1 && OuterEnd(s) == |s| - 1;
    assert s[1..|s| - 1] == x;
  }

  /** Doubled straight quotes around curly-free text take two cleanings to go: the first
      leaves one pair, the second removes it. */
  lemma CleanDoubleQuoted(x: string)
    requires forall k :: 0 <= k < |x| ==> !IsCurlyQuote(x[k])
    ensures CleanQuotedText([Quote, Quote] + x + [Quote, Quote]) == [Quote] + x + [Quote]
    ensures CleanQuotedText([Quote] + x + [Quote]) == x
  {
    var y := [Quote] + x + [Quote];
    RemoveCurlyOfClean(x);
    CleanQuoteWrapped(x);
    assert forall k :: 0 <= k < |y| ==> !IsCurlyQuote(y[k]) by {
      forall k | 0 <= k < |y|
        ensures !IsCurlyQuote(y[k])
      {
        if 0 < k < |y| - 1 {
          assert y[k] == x[k - 1];
        }
      }
    }
    RemoveCurlyOfClean(y);
    CleanQuoteWrapped(y);
    WrapTwice(Quote, x);
  }

  /** Wrapping twice in one character is wrapping once in two of it. */
  lemma WrapTwice<T>(q: T, x: seq<T>)
    ensures [q] + ([q] + x + [q]) + [q] == [q, q] + x + [q, q]
  {
    var a := [q] + ([q] + x + [q]) + [q];
    var b := [q, q] + x + [q, q];
    assert |a| == |b|;
    forall k | 0 <= k < |a|
      ensures a[k] == b[k]
    {
      if 2 <= k < |a| - 2 {
        assert a[k] == x[k - 2] == b[k];
      }
    }
  }

  /** Cleaning twice can remove more than cleaning once: `""a""` becomes `"a"`, then `a`. */
  lemma CleanQuotedTextNotIdempotent()
    ensures CleanQuotedText("\"\"a\"\"") == "\"a\""
    ensures CleanQuotedText(CleanQuotedText("\"\"a\"\"")) == "a"
  {
    assert "\"\"a\"\"" == [Quote, Quote] + "a" + [Quote, Quote];
    assert "\"a\"" == [Quote] + "a" + [Quote];
    CleanDoubleQuoted("a");
  }
}
