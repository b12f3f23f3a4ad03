/**
 The style deduplication table (`collectStyles`, index.js:37-51) and the loop
 that gives every element of the chat a class (index.js:78-82).

 The browser's computed style is an abstract input: the sequence of
 (property, value) pairs the style object enumerates, with the value
 `getPropertyValue` returns for each.

 The table is a JavaScript object used as a map. Its keys all start with
 `class-`, so none of them looks like an array index and none is inherited
 from `Object.prototype`: the object enumerates its keys in insertion order and
 `uniqueStyles[className]` is absent exactly when the key was never stored
 (a stored array is truthy even when empty). The model therefore keeps the
 map together with its keys in insertion order.
 */
module Styles {
  import opened JsString
  import opened ClassName

  /** One entry of a computed style: a property name and its value. */
  datatype Declaration = Declaration(property: string, value: string)

  type ComputedStyle = seq<Declaration>

  /** The `${key}:${val}` string stored for a declaration. */
  function Format(d: Declaration): (f: string)
    ensures |f| == |d.property| + 1 + |d.value|
    ensures f[|d.property|] == ':'
  {
    d.property + ":" + d.value
  }

  /** The property is before the colon and the value after it. */
  lemma FormatParts(d: Declaration)
    ensures Format(d)[..|d.property|] == d.property
    ensures Format(d)[|d.property| + 1..] == d.value
  {
  }

  /** CSS property names hold no colon. */
  predicate ColonFree(name: string) {
    forall k :: 0 <= k < |name| ==> name[k] != ':'
  }

  /** Splitting at the first colon recovers the declaration: with colon-free property
      names, distinct declarations give distinct `key:val` strings. */
  lemma FormatInjective(d: Declaration, e: Declaration)
    requires ColonFree(d.property) && ColonFree(e.property)
    ensures Format(d) == Format(e) <==> d == e
  {
    var f, g := Format(d), Format(e);
    FormatParts(d);
    FormatParts(e);
    if f == g {
      assert |d.property| == |e.property|;
      assert d.property == f[..|d.property|] == e.property;
      assert d.value == f[|d.property| + 1..] == e.value;
    }
  }

  /** The `styles` list collectStyles builds: one `key:val` string per declaration
      with a non-empty value, in the order the style enumerates them. */
  function StyleStrings(style: ComputedStyle): (ss: seq<string>)
    ensures |ss| <= |style|
    ensures |ss| == |style| <==> forall k :: 0 <= k < |style| ==> style[k].value != ""
    ensures forall k :: 0 <= k < |ss| ==>
      exists d :: d in style && d.value != "" && ss[k] == Format(d)
    decreases |style|
  {
    if |style| == 0 then []
    else
      var d := style[|style| - 1];
      var init := style[..|style| - 1];
      var ss := StyleStrings(init) + Contribution(d);
      assert forall e :: e in init ==> e in style;
      ss
  }

  /** What one declaration adds to the style list. */
  function Contribution(d: Declaration): seq<string> {
    if d.value != "" then [Format(d)] else []
  }

  /** StyleStrings works declaration by declaration: it maps concatenation to concatenation. */
  lemma {:induction false} StyleStringsAppend(a: ComputedStyle, b: ComputedStyle)
    ensures StyleStrings(a + b) == StyleStrings(a) + StyleStrings(b)
    decreases |b|
  {
    if |b| == 0 {
      assert a + b == a;
    } else {
      var b' := b[..|b| - 1];
      assert (a + b)[..|a + b| - 1] == a + b';
      assert (a + b)[|a + b| - 1] == b[|b| - 1];
      StyleStringsAppend(a, b');
    }
  }

  /** ... and a single declaration contributes its string exactly when its value is non-empty. */
  lemma StyleStringsSingle(d: Declaration)
    ensures StyleStrings([d]) == if d.value != "" then [Format(d)] else []
  {
    assert [d][..0] == [];
  }

  predicate Distinct(s: seq<string>) {
    forall i, j :: 0 <= i < j < |s| ==> s[i] != s[j]
  }

  /** A class-name table: the map from class name to style strings, and its keys in insertion order. */
  datatype Table = Table(order: seq<string>, rules: map<string, seq<string>>)

  predicate WellFormed(t: Table) {
    && Distinct(t.order)
    && (forall k :: k in t.rules ==> k in t.order)
    && (forall k :: k in t.order ==> k in t.rules)
  }

  type StyleTable = t: Table | WellFormed(t) witness Table([], map[])

  /** `const uniqueStyles = {}` */
  const EmptyTable: StyleTable := Table([], map[])

  /** The class name an element with this computed style receives. */
  function ClassOf(style: ComputedStyle): string {
    GenerateClassName(StyleStrings(style))
  }

  /** `if (!uniqueStyles[name]) uniqueStyles[name] = styles`: first writer wins, and a new
      key goes last in the enumeration order. */
  function InsertIfAbsent(t: StyleTable, name: string, styles: seq<string>): (r: StyleTable)
    ensures name in r.rules
    ensures name in t.rules ==> r == t
    ensures name !in t.rules ==> r.rules[name] == styles && r.order == t.order + [name]
    ensures r.rules.Keys == t.rules.Keys + {name}
    ensures forall k :: k in t.rules ==> r.rules[k] == t.rules[k]
  {
    if name in t.rules then t
    else
      var t': Table := Table(t.order + [name], t.rules[name := styles]);
      assert WellFormed(t');
      t'
  }

  /** `collectStyles(el, uniqueStyles)`: returns the element's class name, and the table
      with that name added (as the last key) only if it was not already there. */
  function CollectStyles(style: ComputedStyle, t: StyleTable): (r: (string, StyleTable))
    ensures r.0 == GenerateClassName(StyleStrings(style))
    ensures r.0 in r.1.rules
    ensures r.0 in t.rules ==> r.1 == t
    ensures r.0 !in t.rules ==> r.1.rules[r.0] == StyleStrings(style) && r.1.order == t.order + [r.0]
    ensures forall k :: k in t.rules ==> k in r.1.rules && r.1.rules[k] == t.rules[k]
    ensures forall k :: k in r.1.rules ==> k in t.rules || k == r.0
  {
    var styles := StyleStrings(style);
    var name := GenerateClassName(styles);
    (name, InsertIfAbsent(t, name, styles))
  }

  /** The keys of s, each once, in order of first occurrence. */
  function FirstOccurrences(s: seq<string>): (r: seq<string>)
    ensures Distinct(r)
    ensures forall k :: k in r <==> k in s
    ensures forall i, j :: 0 <= i < j < |r| ==> FirstIndex(s, r[i]) < FirstIndex(s, r[j])
    decreases |s|
  {
    if |s| == 0 then []
    else
      var init := s[..|s| - 1];
      var last := s[|s| - 1];
      var p := FirstOccurrences(init);
      assert s == init + [last];
      assert forall k :: k in s <==> k in init || k == last;
      FirstIndexExtend(init, last);
      if last in init then p else p + [last]
  }

  /** Appending an element moves no first occurrence, and a new element's first occurrence is at the end. */
  lemma FirstIndexExtend(s: seq<string>, x: string)
    ensures forall k :: k in s ==> FirstIndex(s + [x], k) == FirstIndex(s, k)
    ensures x !in s ==> FirstIndex(s + [x], x) == |s|
  {
    forall k | k in s
      ensures FirstIndex(s + [x], k) == FirstIndex(s, k)
    {
      FirstIndexAppend(s, x, k);
    }
    if x !in s {
      FirstIndexAppend(s, x, x);
    }
  }

  lemma {:induction false} DistinctCard(s: seq<string>)
    requires Distinct(s)
    ensures |set k | k in s| == |s|
    decreases |s|
  {
    if |s| > 0 {
      var init := s[..|s| - 1];
      DistinctCard(init);
      assert (set k | k in s) == (set k | k in init) + {s[|s| - 1]};
    }
  }

  lemma SameElementsSameSet(a: seq<string>, b: seq<string>)
    requires forall k :: k in a <==> k in b
    ensures (set k | k in a) == (set k | k in b)
  {
  }

  /** The position of the first occurrence of k in s. */
  function FirstIndex(s: seq<string>, k: string): (r: nat)
    requires k in s
    ensures r < |s| && s[r] == k
    ensures forall j :: 0 <= j < r ==> s[j] != k
    decreases |s|
  {
    if s[0] == k then 0 else 1 + FirstIndex(s[1..], k)
  }

  lemma {:induction false} FirstIndexAppend(s: seq<string>, x: string, k: string)
    requires k in s + [x]
    ensures k in s ==> FirstIndex(s + [x], k) == FirstIndex(s, k)
    ensures k !in s ==> FirstIndex(s + [x], k) == |s|
  {
    var r := FirstIndex(s + [x], k);
    if k in s {
      var r' := FirstIndex(s, k);
      assert (s + [x])[r'] == k;
      assert s[r] == k || r == |s|;
    }
  }

  /** What the loop of index.js:78-82 has established once the elements whose style
      strings are strs have received the names `names`: the table's keys are exactly
      those names, in order of first assignment, and each rule holds the style strings
      of the first element that received its name. */
  ghost predicate Tabulated(strs: seq<seq<string>>, names: seq<string>, table: StyleTable) {
    && |names| == |strs|
    && (forall k :: k in table.rules <==> k in names)
    && table.order == FirstOccurrences(names)
    && (forall k :: k in table.rules ==> k in names && table.rules[k] == strs[FirstIndex(names, k)])
  }

  lemma OrderStep(names: seq<string>, table: StyleTable, name: string, styles: seq<string>)
    requires forall k :: k in table.rules <==> k in names
    requires table.order == FirstOccurrences(names)
    ensures InsertIfAbsent(table, name, styles).order == FirstOccurrences(names + [name])
  {
    assert (names + [name])[..|names|] == names;
  }

  lemma RulesStep(strs: seq<seq<string>>, names: seq<string>, table: StyleTable, name: string, styles: seq<string>)
    requires |names| == |strs|
    requires forall k :: k in names ==> k in table.rules
    requires forall k :: k in table.rules ==> k in names && table.rules[k] == strs[FirstIndex(names, k)]
    ensures forall k :: k in InsertIfAbsent(table, name, styles).rules ==>
      k in names + [name] &&
      InsertIfAbsent(table, name, styles).rules[k] == (strs + [styles])[FirstIndex(names + [name], k)]
  {
    var table' := InsertIfAbsent(table, name, styles);
    forall k | k in table'.rules
      ensures k in names + [name]
      ensures table'.rules[k] == (strs + [styles])[FirstIndex(names + [name], k)]
    {
      FirstIndexAppend(names, name, k);
    }
  }

  /** One more element keeps what the loop has established. */
  lemma TabulatedStep(strs: seq<seq<string>>, names: seq<string>, table: StyleTable, name: string, styles: seq<string>)
    requires Tabulated(strs, names, table)
    ensures Tabulated(strs + [styles], names + [name], InsertIfAbsent(table, name, styles))
  {
    OrderStep(names, table, name, styles);
    RulesStep(strs, names, table, name, styles);
  }

  lemma TakeOneMore<T>(s: seq<T>, i: nat)
    requires i < |s|
    ensures s[..i + 1] == s[..i] + [s[i]]
  {
  }

  lemma TakeAll<T>(s: seq<T>)
    ensures s[..|s|] == s
  {
  }

  /** The loop of index.js:78-82 over the elements in document order: element i gets
      the class of its own style strings, the table holds exactly the assigned names,
      keyed in order of first assignment, one rule per distinct name, and each rule
      holds the style strings of the first element that received the name. */
  method AssignClasses(els: seq<ComputedStyle>) returns (names: seq<string>, table: StyleTable)
    ensures |names| == |els|
    ensures forall i :: 0 <= i < |els| ==> names[i] == ClassOf(els[i])
    ensures forall k :: k in table.rules <==> k in names
    ensures table.order == FirstOccurrences(names)
    ensures |table.order| == |set k | k in names|
    ensures forall k :: k in table.rules ==>
      k in names && table.rules[k] == StyleStrings(els[FirstIndex(names, k)])
  {
    ghost var strs := StringsOf(els);
    ghost var classes := ClassesOf(els);
    names := [];
    table := EmptyTable;
    var i := 0;
    while i < |els|
      invariant 0 <= i <= |els|
      invariant names == classes[..i]
      invariant Tabulated(strs[..i], names, table)
    {
      var r := CollectStyles(els[i], table);
      AssignStep(els, strs, classes, i, names, table);
      names := names + [r.0];
      table := r.1;
      i := i + 1;
    }
    AssignDone(els, strs, classes, names, table);
  }

  /** The style strings of every element. */
  ghost function StringsOf(els: seq<ComputedStyle>): (strs: seq<seq<string>>)
    ensures |strs| == |els|
    ensures forall k :: 0 <= k < |els| ==> strs[k] == StyleStrings(els[k])
  {
    seq(|els|, i requires 0 <= i < |els| => StyleStrings(els[i]))
  }

  /** The class of every element. */
  ghost function ClassesOf(els: seq<ComputedStyle>): (classes: seq<string>)
    ensures |classes| == |els|
    ensures forall k :: 0 <= k < |els| ==> classes[k] == ClassOf(els[k])
  {
    seq(|els|, i requires 0 <= i < |els| => ClassOf(els[i]))
  }

  /** The invariant at the end of the loop gives what AssignClasses promises. */
  lemma AssignDone(els: seq<ComputedStyle>, strs: seq<seq<string>>, classes: seq<string>,
                   names: seq<string>, table: StyleTable)
    requires |strs| == |els| && |classes| == |els|
    requires forall k :: 0 <= k < |els| ==> strs[k] == StyleStrings(els[k]) && classes[k] == ClassOf(els[k])
    requires names == classes[..|els|]
    requires Tabulated(strs[..|els|], names, table)
    ensures |names| == |els|
    ensures forall i :: 0 <= i < |els| ==> names[i] == ClassOf(els[i])
    ensures forall k :: k in table.rules <==> k in names
    ensures table.order == FirstOccurrences(names)
    ensures |table.order| == |set k | k in names|
    ensures forall k :: k in table.rules ==>
      k in names && table.rules[k] == StyleStrings(els[FirstIndex(names, k)])
  {
    TakeAll(strs);
    TakeAll(classes);
    TabulatedDone(els, strs, names, table);
  }

  /** One turn of the loop keeps its invariant. */
  lemma AssignStep(els: seq<ComputedStyle>, strs: seq<seq<string>>, classes: seq<string>, i: nat,
                   names: seq<string>, table: StyleTable)
    requires |strs| == |els| && |classes| == |els|
    requires forall k :: 0 <= k < |els| ==> strs[k] == StyleStrings(els[k]) && classes[k] == ClassOf(els[k])
    requires i < |els|
    requires names == classes[..i]
    requires Tabulated(strs[..i], names, table)
    ensures names + [CollectStyles(els[i], table).0] == classes[..i + 1]
    ensures Tabulated(strs[..i + 1], names + [CollectStyles(els[i], table).0], CollectStyles(els[i], table).1)
  {
    var r := CollectStyles(els[i], table);
    TabulatedStep(strs[..i], names, table, r.0, strs[i]);
    TakeOneMore(strs, i);
    TakeOneMore(classes, i);
  }

  /** What the finished loop establishes, stated without the ghost list of style strings. */
  lemma TabulatedDone(els: seq<ComputedStyle>, strs: seq<seq<string>>, names: seq<string>, table: StyleTable)
    requires |strs| == |els|
    requires forall i :: 0 <= i < |els| ==> strs[i] == StyleStrings(els[i])
    requires Tabulated(strs, names, table)
    ensures |names| == |els|
    ensures forall k :: k in table.rules <==> k in names
    ensures table.order == FirstOccurrences(names)
    ensures |table.order| == |set k | k in names|
    ensures forall k :: k in table.rules ==>
      k in names && table.rules[k] == StyleStrings(els[FirstIndex(names, k)])
  {
    DistinctCard(table.order);
    SameElementsSameSet(table.order, names);
  }

  /** Elements with the same style strings share one class. */
  lemma SameStylesSameClass(a: ComputedStyle, b: ComputedStyle, t: StyleTable, u: StyleTable)
    requires StyleStrings(a) == StyleStrings(b)
    ensures CollectStyles(a, t).0 == CollectStyles(b, u).0
  {
  }
}
