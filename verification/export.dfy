/**
 The style part of `exportChatAsHtml` (index.js:78-88): every element gets its
 class, and the table built along the way becomes the `<style>` content.
 */
module Export {
  import opened JsString
  import opened Styles
  import opened StyleSheet

  /** No property name or value of any element holds a newline. */
  predicate SingleLineStyles(els: seq<ComputedStyle>) {
    forall i, d :: 0 <= i < |els| && d in els[i] ==> Count('\n', d.property) == 0 && Count('\n', d.value) == 0
  }

  lemma StyleStringsAreOneLine(style: ComputedStyle)
    requires forall d :: d in style ==> Count('\n', d.property) == 0 && Count('\n', d.value) == 0
    ensures forall j :: 0 <= j < |StyleStrings(style)| ==> Count('\n', StyleStrings(style)[j]) == 0
  {
    var ss := StyleStrings(style);
    forall j | 0 <= j < |ss|
      ensures Count('\n', ss[j]) == 0
    {
      var d :| d in style && d.value != "" && ss[j] == Format(d);
      FormatIsOneLine(d);
    }
  }

  lemma FormatIsOneLine(d: Declaration)
    requires Count('\n', d.property) == 0 && Count('\n', d.value) == 0
    ensures Count('\n', Format(d)) == 0
  {
    CountAbsent('\n', ":");
    CountAppend('\n', d.property, ":");
    CountAppend('\n', d.property + ":", d.value);
  }

  /** The table the loop of index.js:78-82 leaves when element i received names[i]: its keys
      are the assigned names in order of first assignment, and each key holds the style
      strings of the first element that received it. */
  ghost predicate BuiltFrom(t: StyleTable, els: seq<ComputedStyle>, names: seq<string>) {
    && |names| == |els|
    && t.order == FirstOccurrences(names)
    && (forall k :: k in t.rules <==> k in names)
    && (forall k :: k in t.rules ==> k in names && t.rules[k] == StyleStrings(els[FirstIndex(names, k)]))
  }

  /** The classes assigned to the elements (index.js:55) and `cssContent` (index.js:84-88).
      The sheet is that of a table whose keys are the assigned names in order of first
      assignment, each holding the style strings of the first element that received it;
      counted by lines, it has one rule per distinct name. */
  method ExportStyles(els: seq<ComputedStyle>) returns (names: seq<string>, css: string)
    ensures |names| == |els|
    ensures forall i :: 0 <= i < |els| ==> names[i] == ClassOf(els[i])
    ensures exists t: StyleTable :: css == Sheet(t) && BuiltFrom(t, els, names)
    ensures SingleLineStyles(els) ==> Count('\n', css) == |set k | k in names|
  {
    var table;
    names, table := AssignClasses(els);
    css := Sheet(table);
    if SingleLineStyles(els) {
      SingleLineSheet(els, names, table);
    }
    assert BuiltFrom(table, els, names);
  }

  /** With newline-free styles, the sheet of the finished table has one line per key. */
  lemma SingleLineSheet(els: seq<ComputedStyle>, names: seq<string>, table: StyleTable)
    requires SingleLineStyles(els)
    requires |names| == |els|
    requires forall i :: 0 <= i < |els| ==> names[i] == ClassOf(els[i])
    requires forall k :: k in table.rules ==>
      k in names && table.rules[k] == StyleStrings(els[FirstIndex(names, k)])
    ensures Count('\n', Sheet(table)) == |table.order|
  {
    forall k | k in table.rules
      ensures Count('\n', k) == 0
      ensures forall j :: 0 <= j < |table.rules[k]| ==> Count('\n', table.rules[k][j]) == 0
    {
      var i := FirstIndex(names, k);
      ClassNameIsOneLine(StyleStrings(els[i]));
      StyleStringsAreOneLine(els[i]);
    }
    SheetLineCount(table);
  }
}
