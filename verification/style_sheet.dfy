/**
 Style-sheet assembly (index.js:84-88): one rule per table entry, in the
 table's key order, each `.name { s1; s2; ...; }` followed by a newline.
 */
module StyleSheet {
  import opened JsNumber
  import opened JsString
  import opened ClassName
  import opened Styles

  /** `.${className} { ${styles.join('; ')}; }\n` */
  function Rule(name: string, styles: seq<string>): (r: string)
    ensures |r| == |name| + |Join(styles, "; ")| + 8
    ensures r[0] == '.' && r[1..|name| + 1] == name
    ensures r[|name| + 1..|name| + 4] == " { "
    ensures r[|name| + 4..|r| - 4] == Join(styles, "; ")
    ensures r[|r| - 4..] == "; }\n"
  {
    "." + name + " { " + Join(styles, "; ") + "; }\n"
  }

  /** The rule of every listed key, in the listed order. */
  function RuleList(order: seq<string>, rules: map<string, seq<string>>): (rs: seq<string>)
    requires forall k :: k in order ==> k in rules
    ensures |rs| == |order|
  {
    seq(|order|, i requires 0 <= i < |order| => Rule(order[i], rules[order[i]]))
  }

  /** The rules for the given keys, in order. */
  function RulesFor(order: seq<string>, rules: map<string, seq<string>>): string
    requires forall k :: k in order ==> k in rules
    decreases |order|
  {
    if |order| == 0 then ""
    else
      var last := order[|order| - 1];
      RulesFor(order[..|order| - 1], rules) + Rule(last, rules[last])
  }

  /** `cssContent` once the `for (const className in uniqueStyles)` loop is done: the rules
      of all keys, one after another, in the table's key order. */
  function Sheet(t: StyleTable): (css: string)
    ensures css == Concat(RuleList(t.order, t.rules))
  {
    RulesForIsConcat(t.order, t.rules);
    RulesFor(t.order, t.rules)
  }

  /** The right-to-left construction of the rules agrees with concatenating the rule list. */
  lemma {:induction false} RulesForIsConcat(order: seq<string>, rules: map<string, seq<string>>)
    requires forall k :: k in order ==> k in rules
    ensures RulesFor(order, rules) == Concat(RuleList(order, rules))
    decreases |order|
  {
    if |order| > 0 {
      var init := order[..|order| - 1];
      var rs := RuleList(order, rules);
      assert rs[..|rs| - 1] == RuleList(init, rules);
      RulesForIsConcat(init, rules);
    }
  }

  /** Changing the map outside the listed keys changes nothing. */
  lemma {:induction false} RulesForFrame(order: seq<string>, rules: map<string, seq<string>>, name: string, styles: seq<string>)
    requires forall k :: k in order ==> k in rules
    requires name !in order
    ensures RulesFor(order, rules[name := styles]) == RulesFor(order, rules)
    decreases |order|
  {
    if |order| > 0 {
      RulesForFrame(order[..|order| - 1], rules, name, styles);
    }
  }

  /** Collecting one more element adds its rule at the end of the sheet when its class is
      new, and leaves the sheet as it was when the class already had a rule. */
  lemma SheetAfterInsert(t: StyleTable, name: string, styles: seq<string>)
    ensures Sheet(InsertIfAbsent(t, name, styles)) ==
      if name in t.rules then Sheet(t) else Sheet(t) + Rule(name, styles)
  {
    if name !in t.rules {
      var t' := InsertIfAbsent(t, name, styles);
      assert t'.order[..|t'.order| - 1] == t.order;
      RulesForFrame(t.order, t.rules, name, styles);
    }
  }

  /** A rule is one line when neither its name nor its style strings hold a newline. */
  lemma RuleIsOneLine(name: string, styles: seq<string>)
    requires Count('\n', name) == 0
    requires forall k :: 0 <= k < |styles| ==> Count('\n', styles[k]) == 0
    ensures Count('\n', Rule(name, styles)) == 1
  {
    var body := Join(styles, "; ");
    CountAbsent('\n', ".");
    CountAbsent('\n', " { ");
    CountAbsent('\n', "; ");
    CountAbsent('\n', "; }");
    assert Count('\n', "; }\n") == 1 by {
      assert "; }\n"[..3] == "; }";
    }
    CountJoin('\n', styles, "; ");
    CountAppend('\n', ".", name);
    CountAppend('\n', "." + name, " { ");
    CountAppend('\n', "." + name + " { ", body);
    CountAppend('\n', "." + name + " { " + body, "; }\n");
  }

  /** The sheet has exactly one line per table entry. */
  lemma {:induction false} SheetLineCount(t: StyleTable)
    requires forall k :: k in t.rules ==> Count('\n', k) == 0
    requires forall k :: k in t.rules ==> forall j :: 0 <= j < |t.rules[k]| ==> Count('\n', t.rules[k][j]) == 0
    ensures Count('\n', Sheet(t)) == |t.order|
  {
    RulesForLineCount(t.order, t.rules);
  }

  lemma {:induction false} RulesForLineCount(order: seq<string>, rules: map<string, seq<string>>)
    requires forall k :: k in order ==> k in rules
    requires forall k :: k in rules ==> Count('\n', k) == 0
    requires forall k :: k in rules ==> forall j :: 0 <= j < |rules[k]| ==> Count('\n', rules[k][j]) == 0
    ensures Count('\n', RulesFor(order, rules)) == |order|
    decreases |order|
  {
    if |order| > 0 {
      var last := order[|order| - 1];
      RulesForLineCount(order[..|order| - 1], rules);
      RuleIsOneLine(last, rules[last]);
      CountAppend('\n', RulesFor(order[..|order| - 1], rules), Rule(last, rules[last]));
    }
  }

  /** Class names never contain a newline: they are `class-`, an optional `-` and digits. */
  lemma ClassNameIsOneLine(styles: seq<string>)
    ensures Count('\n', GenerateClassName(styles)) == 0
  {
    var numeral := ToString36(Hash(styles));
    var name := Prefix + numeral;
    NumeralIsOneLine(numeral);
    forall k | 0 <= k < |name|
      ensures name[k] != '\n'
    {
      if k >= |Prefix| {
        assert name[k] == numeral[k - |Prefix|];
      } else {
        assert name[k] == Prefix[k];
      }
    }
    CountAbsent('\n', name);
  }

  /** A sign and radix-36 digits leave no room for a line break. */
  lemma NumeralIsOneLine(n: string)
    requires IsRadix36Numeral(n)
    ensures forall k :: 0 <= k < |n| ==> n[k] != '\n'
  {
    forall k | 0 <= k < |n|
      ensures n[k] != '\n'
    {
      if n[0] == '-' {
        if k > 0 {
          assert n[k] == Magnitude(n)[k - 1];
        }
      } else {
        assert n[k] == Magnitude(n)[k];
      }
    }
  }
}
