/**
 Background choice and URL extraction (index.js:90-97).

 The computed `background-image` of the custom background is used unless it is
 empty or `none`, in which case that of the default background is used. The
 chosen value goes through
   `value.replace(/^.*url\(['"]?([^)'"]+)['"]?\).*$/, '$1')`.

 The pattern is anchored at both ends and has no `s` flag, so `.` stops at line
 terminators. With JavaScript's backtracking, the greedy leading `.*` makes the
 rightmost `url(` that can complete a match win; for a given `url(` the
 optional quote is taken when present, the capture is the longest run of
 characters other than `)`, `'` and `"` (a shorter run cannot be followed by
 the rest of the pattern), and it must be followed by `)` or by a quote and
 `)`, then by a line-terminator-free rest. A match spans the whole value, so
 the replacement yields the capture alone; without a match the value is
 returned unchanged. Loading the extracted URL as an image is not modelled.
 */
module Background {

  datatype Option<T> = None | Some(value: T)

  /** What `.` does not match. */
  predicate IsLineTerminator(c: char) {
    c == '\n' || c == '\r' || c == '\U{2028}' || c == '\U{2029}'
  }

  /** s matches `.*` */
  predicate OneLine(s: string) {
    forall k :: 0 <= k < |s| ==> !IsLineTerminator(s[k])
  }

  predicate IsQuoteChar(c: char) {
    c == '\'' || c == '"'
  }

  /** c matches `[^)'"]` */
  predicate InUrlClass(c: char) {
    c != ')' && !IsQuoteChar(c)
  }

  /** The end of the longest run of `[^)'"]` starting at j. */
  function RunEnd(s: string, j: nat): (k: nat)
    requires j <= |s|
    ensures j <= k <= |s|
    ensures forall m :: j <= m < k ==> InUrlClass(s[m])
    ensures k < |s| ==> !InUrlClass(s[k])
    decreases |s| - j
  {
    if j < |s| && InUrlClass(s[j]) then RunEnd(s, j + 1) else j
  }

  /** `url(` starts at position m of s. */
  predicate OpensUrlAt(s: string, m: nat) {
    m + 4 <= |s| && s[m..m + 4] == "url("
  }

  /** Where the capture starts after the `url(` at i: past the optional quote. */
  function CaptureStart(s: string, i: nat): (j: nat)
    requires i + 4 <= |s|
    ensures j == i + 4 || (i + 4 < |s| && IsQuoteChar(s[i + 4]) && j == i + 5)
    ensures j == i + 4 ==> j == |s| || !IsQuoteChar(s[j])
  {
    if i + 4 < |s| && IsQuoteChar(s[i + 4]) then i + 5 else i + 4
  }

  /** `['"]?\).*$` matches s from k: a `)`, or a quote and a `)`, then the rest of the line. */
  predicate ClosesAt(s: string, k: nat) {
    || (k < |s| && s[k] == ')' && OneLine(s[k + 1..]))
    || (k + 1 < |s| && IsQuoteChar(s[k]) && s[k + 1] == ')' && OneLine(s[k + 2..]))
  }

  /** The capture, when the whole value matches with the `url(` of the pattern at position i. */
  function MatchAt(s: string, i: nat): (g: Option<string>)
    ensures g.Some? <==>
      && OpensUrlAt(s, i) && OneLine(s[..i])
      && CaptureStart(s, i) < RunEnd(s, CaptureStart(s, i))
      && ClosesAt(s, RunEnd(s, CaptureStart(s, i)))
    ensures g.Some? ==> g.value == s[CaptureStart(s, i)..RunEnd(s, CaptureStart(s, i))]
    ensures g.Some? ==> 0 < |g.value| && |g.value| + 5 <= |s|
    ensures g.Some? ==> forall m :: 0 <= m < |g.value| ==> InUrlClass(g.value[m])
  {
    if !(OpensUrlAt(s, i) && OneLine(s[..i])) then None
    else
      var j := CaptureStart(s, i);
      var k := RunEnd(s, j);
      if j < k && ClosesAt(s, k) then Some(s[j..k]) else None
  }

  /** Conversely, `url(`, an optional quote, a run of `[^)'"]`, an optional quote and `)`,
      with no line break before or after, match at the `url(` and capture the run. */
  lemma MatchAtWrapped(p: string, q1: string, c: string, q2: string, rest: string)
    requires OneLine(p) && OneLine(rest)
    requires q1 == "" || q1 == "'" || q1 == "\""
    requires q2 == "" || q2 == "'" || q2 == "\""
    requires |c| > 0 && forall m :: 0 <= m < |c| ==> InUrlClass(c[m])
    ensures MatchAt(p + "url(" + q1 + c + q2 + ")" + rest, |p|) == Some(c)
  {
    var a := p + "url(" + q1;
    var b := q2 + ")" + rest;
    var s := a + c + b;
    WrappedOpens(p, q1, c, b);
    WrappedRun(a, c, b, q2, rest);
    MatchAtOfParts(s, |p|, |a|, |a| + |c|);
    WrappedAssoc(p, q1, c, q2, rest);
  }

  lemma WrappedAssoc(p: string, q1: string, c: string, q2: string, rest: string)
    ensures p + "url(" + q1 + c + q2 + ")" + rest == (p + "url(" + q1) + c + (q2 + ")" + rest)
  {
  }

  /** A match is its parts: the opening, the capture start, the run and the closing. */
  lemma MatchAtOfParts(s: string, i: nat, j: nat, k: nat)
    requires OpensUrlAt(s, i) && OneLine(s[..i])
    requires CaptureStart(s, i) == j && j < k <= |s| && RunEnd(s, j) == k && ClosesAt(s, k)
    ensures MatchAt(s, i) == Some(s[j..k])
  {
  }

  /** The `url(` at |p| opens the pattern, and the capture starts right after the optional quote. */
  lemma WrappedOpens(p: string, q1: string, c: string, b: string)
    requires OneLine(p)
    requires q1 == "" || q1 == "'" || q1 == "\""
    requires |c| > 0 && InUrlClass(c[0])
    ensures var s := p + "url(" + q1 + c + b;
      OpensUrlAt(s, |p|) && OneLine(s[..|p|]) && CaptureStart(s, |p|) == |p| + 4 + |q1|
  {
    var s := p + "url(" + q1 + c + b;
    var i := |p|;
    assert s[..i] == p;
    assert s[i..i + 4] == "url(";
    assert s[i + 4] == if q1 == "" then c[0] else q1[0];
  }

  /** After the capture start, the run is exactly c and the closing part follows it. */
  lemma WrappedRun(a: string, c: string, b: string, q2: string, rest: string)
    requires OneLine(rest)
    requires q2 == "" || q2 == "'" || q2 == "\""
    requires b == q2 + ")" + rest
    requires |c| > 0 && forall m :: 0 <= m < |c| ==> InUrlClass(c[m])
    ensures var s := a + c + b;
      && s[|a|..|a| + |c|] == c
      && RunEnd(s, |a|) == |a| + |c|
      && ClosesAt(s, |a| + |c|)
  {
    var s := a + c + b;
    var j := |a|;
    var k := j + |c|;
    MiddleSlice(a, c, b);
    assert forall m :: j <= m < k ==> s[m] == c[m - j];
    assert s[k] == b[0];
    RunEndOfPlain(s, j, k);
    assert s[k..] == b;
    if q2 == "" {
      assert b[1..] == rest;
    } else {
      assert b[2..] == rest;
    }
  }

  /** The greedy `.*` tries the longest prefix first: the largest position below n where a match completes. */
  function LastMatch(s: string, n: nat): (r: Option<nat>)
    ensures r.None? ==> forall i :: 0 <= i < n ==> MatchAt(s, i).None?
    ensures r.Some? ==> r.value < n && MatchAt(s, r.value).Some?
    ensures r.Some? ==> forall i :: r.value < i < n ==> MatchAt(s, i).None?
    decreases n
  {
    if n == 0 then None
    else if MatchAt(s, n - 1).Some? then Some(n - 1)
    else LastMatch(s, n - 1)
  }

  /** `value.replace(/^.*url\(['"]?([^)'"]+)['"]?\).*$/, '$1')`: the capture of the rightmost
      matching `url(`, or the value itself when nothing matches. */
  function ExtractUrl(s: string): (r: string)
    ensures (forall i :: 0 <= i <= |s| ==> MatchAt(s, i).None?) ==> r == s
    ensures forall i :: (0 <= i <= |s| && MatchAt(s, i).Some? &&
      (forall i' :: i < i' <= |s| ==> MatchAt(s, i').None?)) ==> r == MatchAt(s, i).value
    ensures r != s ==> |r| < |s| && forall m :: 0 <= m < |r| ==> InUrlClass(r[m])
  {
    match LastMatch(s, |s| + 1)
    case Some(i) => MatchAt(s, i).value
    case None => s
  }

  /** Extraction leaves no `)` behind, so applying it again changes nothing. */
  lemma ExtractUrlIdempotent(s: string)
    ensures ExtractUrl(ExtractUrl(s)) == ExtractUrl(s)
  {
    var r := ExtractUrl(s);
    if r != s {
      forall i | 0 <= i <= |r|
        ensures MatchAt(r, i).None?
      {
      }
    }
  }

  /** x contains no `url(`. */
  predicate NoUrlOpener(x: string) {
    forall m :: 0 <= m < |x| ==> !OpensUrlAt(x, m)
  }

  /** The value `url(x)`, `url("x")` or `url('x')`. */
  function Wrapped(q: string, x: string): string {
    "url(" + q + x + q + ")"
  }

  /** For `url(x)`, `url("x")` and `url('x')` with a plain x, the extracted value is x. */
  lemma ExtractSimpleUrl(q: string, x: string)
    requires q == "" || q == "\"" || q == "'"
    requires |x| > 0 && forall m :: 0 <= m < |x| ==> InUrlClass(x[m])
    requires NoUrlOpener(x)
    ensures ExtractUrl(Wrapped(q, x)) == x
  {
    var s := Wrapped(q, x);
    assert OneLine("");
    MatchAtWrapped("", q, x, q, "");
    assert s == "" + "url(" + q + x + q + ")" + "";
    forall i | 0 < i <= |s|
      ensures MatchAt(s, i).None?
    {
      SimpleNoOtherOpener(q, x, i);
    }
  }

  lemma SimpleNoOtherOpener(q: string, x: string, i: nat)
    requires q == "" || q == "\"" || q == "'"
    requires |x| > 0 && forall m :: 0 <= m < |x| ==> InUrlClass(x[m])
    requires NoUrlOpener(x)
    requires 0 < i
    ensures !OpensUrlAt(Wrapped(q, x), i)
  {
    var s := Wrapped(q, x);
    var j := 4 + |q|;
    var k := j + |x|;
    if i + 4 <= |s| {
      var w := s[i..i + 4];
      if i < j {
        assert s[i] != 'u';
        assert w[0] == s[i];
      } else if i + 3 >= k {
        assert s[i + 3] == ')' || IsQuoteChar(s[i + 3]);
        assert w[3] == s[i + 3];
      } else {
        assert s == ("url(" + q) + x + (q + ")");
        MiddleSlice("url(" + q, x, q + ")");
        SliceOfSlice(s, j, k, i - j, i - j + 4);
        assert x[i - j..i - j + 4] == w;
        assert !OpensUrlAt(x, i - j);
      }
    }
  }

  /** The middle part of a three-part sequence sits right after the first part. */
  lemma MiddleSlice<T>(a: seq<T>, c: seq<T>, b: seq<T>)
    ensures (a + c + b)[|a|..|a| + |c|] == c
  {
    var s := a + c + b;
    forall m | 0 <= m < |c|
      ensures s[|a|..|a| + |c|][m] == c[m]
    {
      assert s[|a| + m] == c[m];
    }
  }

  /** A slice of a slice is a slice. */
  lemma SliceOfSlice<T>(s: seq<T>, j: nat, k: nat, lo: nat, hi: nat)
    requires j <= k <= |s| && lo <= hi <= k - j
    ensures s[j..k][lo..hi] == s[j + lo..j + hi]
  {
    forall m | 0 <= m < hi - lo
      ensures s[j..k][lo..hi][m] == s[j + lo..j + hi][m]
    {
      assert s[j..k][lo..hi][m] == s[j..k][lo + m] == s[j + lo + m];
    }
  }

  lemma RunEndOfPlain(s: string, j: nat, k: nat)
    requires j <= k < |s|
    requires forall m :: j <= m < k ==> InUrlClass(s[m])
    requires !InUrlClass(s[k])
    ensures RunEnd(s, j) == k
    decreases k - j
  {
    if j < k {
      RunEndOfPlain(s, j + 1, k);
    }
  }

  /** With several `url(...)` layers the last one wins. */
  lemma ExtractLastOfTwo()
    ensures ExtractUrl("url(a), url(b)") == "b"
  {
    var s := "url(a), url(b)";
    assert s[8..12] == "url(";
    assert OneLine(s[..8]);
    assert s[12..13] == "b";
    RunEndOfPlain(s, 12, 13);
    assert s[14..] == "";
    assert MatchAt(s, 8) == Some("b");
    forall i | 8 < i <= |s|
      ensures MatchAt(s, i).None?
    {
      assert !OpensUrlAt(s, i) by {
        if i + 4 <= |s| {
          assert s[i..i + 4][0] == s[i] != 'u';
        }
      }
    }
  }

  /** `!bgCustom || bgCustom === 'none'` picks the default background. */
  function ChooseBackground(custom: string, fallback: string): (chosen: string)
    ensures custom != "" && custom != "none" ==> chosen == custom
    ensures custom == "" || custom == "none" ==> chosen == fallback
  {
    if custom == "" || custom == "none" then fallback else custom
  }

  /** The URL handed to the image loader for the page background (index.js:90-97): the
      extraction applied to the custom background, or to the default one when the custom
      value is empty or `none`. */
  function BackgroundUrl(custom: string, fallback: string): (url: string)
    ensures custom != "" && custom != "none" ==> url == ExtractUrl(custom)
    ensures custom == "" || custom == "none" ==> url == ExtractUrl(fallback)
    ensures |url| <= |ChooseBackground(custom, fallback)|
  {
    ExtractUrl(ChooseBackground(custom, fallback))
  }

  /** A custom background of `none` yields the default background's image URL. */
  lemma NoneCustomUsesDefault(x: string)
    requires |x| > 0 && forall m :: 0 <= m < |x| ==> InUrlClass(x[m])
    requires NoUrlOpener(x)
    ensures BackgroundUrl("none", Wrapped("\"", x)) == x
  {
    ExtractSimpleUrl("\"", x);
  }
}
