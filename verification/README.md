# Export-HTML: class hashing, style deduplication, quote cleaning, background URL

This project models the pure core of `index.js` from the SillyTavern Export-HTML
plugin. The plugin copies the chat's DOM subtree into one self-contained HTML
file. It gives every element a class derived from a hash of its computed style,
keeps one CSS rule per distinct class, cleans the text of `<q>` elements and
picks the page background's image URL.

Modules, one per concern of the source:

- `JsNumber` (`js_number.dfy`): the JavaScript number operations the hash uses.
  `ToInt32` is the 32-bit signed wrap, `ShiftLeft5` is `x << 5`, and
  `ToString36` is `Number.prototype.toString(36)` on integers, with its inverse
  `ParseInt36`.
- `JsString` (`js_string.dfy`): strings as JavaScript sees them.
  - `CodeUnits` gives the UTF-16 code units that `charCodeAt` reads. A Dafny
    `char` is a Unicode scalar value, so characters above U+FFFF become
    surrogate pairs.
  - `Concat`, `Join` (`Array.prototype.join`) and `Count` (occurrences of a
    character) complete the module.
- `ClassName` (`class_name.dfy`): `generateClassName`.
- `Styles` (`styles.dfy`): `collectStyles`, the class-name table and the
  per-element loop.
- `StyleSheet` (`style_sheet.dfy`): the `cssContent` assembly.
- `Export` (`export.dfy`): the loop and the assembly together.
- `QuotedText` (`quoted_text.dfy`): `cleanQuotedText`.
- `Background` (`background.dfy`): the background choice and the `url(...)`
  regular expression.

Modelling decisions:

- **The hash is an unbounded integer.** In `((hash << 5) + hash) + code`
  (index.js:31) only the shift wraps to 32 bits. The two additions are ordinary
  number additions, so the hash is not confined to 32 bits and grows with the
  length of the styles.
  - `ClassName.ExactDoubleBound` shows that all intermediate values stay below
    2^53 when the concatenated styles hold at most 0x3FFF00 code units. In that
    range, double arithmetic equals the model's integer arithmetic.
- **The table's key order is insertion order.** The table is a plain object
  whose keys all start with `class-`. Such keys are never array indices and
  never inherited, so `for ... in` enumerates them in insertion order.
  - `Styles.Table` therefore keeps the key order next to the map.
  - `!uniqueStyles[name]` is true exactly when the key is absent, because a
    stored array is truthy even when empty.
- **The computed style is an input.** It is the sequence of (property, value)
  pairs that the style object enumerates.
- **The URL regular expression is modelled by its matching behaviour.** The
  pattern is `/^.*url\(['"]?([^)'"]+)['"]?\).*$/` (see `Background`).
  - The rightmost `url(` that can complete a match wins.
  - The capture is the longest run of characters other than `)`, `'` and `"`.
  - `.` does not match line terminators.
- **Quote stripping removes at most one straight quote at each end.** Without
  the `m` flag, `^` and `$` in `/^"|"$/g` (index.js:62) match only at the ends of
  the whole text, so `""a""` becomes `"a"`.

## Model

| member | source | states |
|---|---|---|
| JsNumber.ToInt32 | index.js:31 | the 32-bit signed wrap gives an int32 that differs from its argument by a multiple of 2^32 |
| JsNumber.ShiftLeft5 | index.js:31 | `x << 5` equals the 32-bit signed wrap of `32·x`, even though the shift first wraps `x` itself |
| JsNumber.ToString36 | index.js:34 | `toString(36)` produces a `-` exactly when the number is negative, followed by a non-empty run of `[0-9a-z]` with no leading zero |
| JsNumber.ToString36RoundTrip | index.js:34 | parsing the base-36 text of an integer gives the integer back |
| JsNumber.ToString36Injective | index.js:34 | two integers have the same base-36 text exactly when they are equal |
| JsString.CharUnits | index.js:31 | a character below U+10000 is the one code unit of its own value; exactly the others take two units, a high surrogate in D800..DBFF and a low one in DC00..DFFF that decode back to the character |
| JsString.CodeUnits | index.js:30-31 | `charCodeAt` reads at least one UTF-16 code unit per character, each in 0..0xFFFF, and exactly one per character exactly when no character is above U+FFFF |
| JsString.CodeUnitsOfChar | index.js:30-31 | the code units of a one-character string are that character's code units |
| JsString.CodeUnitsOfBmp | index.js:30-31 | below U+10000, `charCodeAt(k)` is the code point of character k |
| JsString.CodeUnitsAppend | index.js:29-31 | the code units of a concatenation are the concatenation of the code units |
| ClassName.Step | index.js:31 | one hash step adds `hash` and the code unit to a 32-bit value congruent to `32·hash` modulo 2^32 |
| ClassName.HashStyles | index.js:28-33 | the nested loop over strings and characters hashes the code units of the concatenated strings in one flat pass |
| ClassName.ClassNameShape | index.js:27-35 | a class name is `class-` followed by a base-36 numeral whose value is the hash of the concatenated styles' code units |
| ClassName.ClassNameCollision | index.js:27-35 | two style lists get the same class name exactly when their hashes are equal |
| ClassName.ClassNameDependsOnConcat | index.js:27-35 | the class name depends only on the concatenation of the style strings, not on how they are split |
| ClassName.ClassNameIgnoresSplit | index.js:27-35 | `["ab","c"]` and `["a","bc"]` get the same class name |
| ClassName.ClassNameOrderSensitive | index.js:27-35 | `["a","b"]` and `["b","a"]` get different class names |
| ClassName.ClassNameOfEmpty | index.js:27-35 | an element with no non-empty style gets `class-45h`, since 5381 is `45h` in base 36 |
| ClassName.HashGrowth | index.js:31 | each step changes the magnitude of the hash by at most 0x80010000 |
| ClassName.ExactDoubleBound | index.js:28-33 | up to 0x3FFF00 code units, every intermediate hash stays far enough below 2^53 to be exact as a double |
| Styles.Format | index.js:43 | the stored string is one character longer than property and value together, with the `:` right after the property |
| Styles.FormatParts | index.js:43 | the property comes before that `:` and the value after it |
| Styles.FormatInjective | index.js:43 | with colon-free property names, two declarations give the same `key:val` string exactly when they are equal |
| Styles.StyleStrings | index.js:39-45 | every string in the style list is `key:val` of some declaration with a non-empty value, and the list is as long as the style exactly when no value is empty; the exact list, in input order, follows from StyleStringsAppend with StyleStringsSingle |
| Styles.StyleStringsAppend | index.js:40-45 | the style list is built declaration by declaration, so it keeps the input order |
| Styles.StyleStringsSingle | index.js:42-44 | a declaration contributes `key:val` exactly when its value is not empty |
| Styles.InsertIfAbsent | index.js:47-49 | the name becomes a key; an existing key keeps its first value and the table is unchanged; a new key goes last in key order with the given styles; no other key changes |
| Styles.CollectStyles | index.js:37-51 | returns the class name of the element's style list and adds that name to the table, first writer wins, all other keys unchanged |
| Styles.FirstOccurrences | index.js:85 | the key order holds each assigned name once, exactly the assigned names, ordered by where each name was first assigned |
| Styles.AssignClasses | index.js:78-82 | element i gets the class of its own styles; the table's keys are exactly the assigned names, in order of first assignment; one key per distinct name; each rule holds the styles of the first element that got the name |
| Styles.SameStylesSameClass | index.js:46 | two elements with identical style lists get the same class name, whatever the table |
| StyleSheet.Rule | index.js:87 | a rule is `.`, the class name, ` { `, the style strings joined with `; `, then `; }` and a newline, each part at its own position |
| StyleSheet.Sheet | index.js:84-88 | the sheet is the rules of all table keys concatenated in the table's key order |
| StyleSheet.SheetAfterInsert | index.js:84-88 | collecting one more element appends its rule to the sheet when its class is new and leaves the sheet unchanged otherwise |
| StyleSheet.RuleIsOneLine | index.js:87 | a rule `.name { s1; ...; }` followed by a newline is exactly one line when its parts hold no newline |
| StyleSheet.SheetLineCount | index.js:84-88 | when no key and no stored style string holds a newline, the sheet has exactly one line per table key |
| StyleSheet.ClassNameIsOneLine | index.js:34 | a class name never contains a newline |
| Export.ExportStyles | index.js:78-88 | every element gets its class; the sheet is that of a table keyed by the assigned names in order of first assignment, each holding the styles of the first element with that name; when no style holds a newline, it has as many lines as there are distinct class names |
| Export.SingleLineSheet | index.js:84-88 | with newline-free styles the finished table's sheet has one line per key |
| QuotedText.DropLeadingQuote | index.js:62 | the `^"` alternative removes one character exactly when the text starts with a straight quote, and keeps the rest |
| QuotedText.DropTrailingQuote | index.js:62 | the `"$` alternative removes one character exactly when the text ends with a straight quote, and keeps the rest |
| QuotedText.StripOuterQuotes | index.js:62 | the result is exactly the text between a leading straight quote, if any, and a trailing straight quote, if any is left after the leading one (so `"ab"` gives `ab` and a lone `"` gives the empty string); it is shorter exactly when the text starts or ends with a quote, and interior quotes are kept |
| QuotedText.RemoveCurlyQuotes | index.js:62 | no curly quote is left, and every other character keeps its count |
| QuotedText.RemoveCurlyAppend | index.js:62 | curly-quote removal maps concatenation to concatenation |
| QuotedText.CleanQuotedText | index.js:61-63 | the result is the text between the outer straight quotes (as `StripOuterQuotes` bounds it) with every curly quote removed and the other characters in their order; hence no curly quote is left, other characters keep their counts, at most two straight quotes go, and the interior ones stay |
| QuotedText.CleanQuoteWrapped | index.js:61-63 | any text between two straight quotes loses exactly those two quotes and its curly quotes, whatever quotes it holds inside |
| QuotedText.CleanDoubleQuoted | index.js:61-63 | curly-free text inside doubled straight quotes keeps one pair after one cleaning and loses it after a second |
| QuotedText.CleanQuotedTextFixedPoint | index.js:61-63 | text with no curly quotes that neither starts nor ends with a straight quote is returned unchanged |
| QuotedText.CleanStraightQuoted | index.js:61-63 | `"hello"` becomes `hello` |
| QuotedText.CleanCurlyWrapped | index.js:61-63 | text without quotes of its own, wrapped in curly quotes, is unwrapped |
| QuotedText.CleanCurlyQuoted | index.js:61-63 | `“hello”` becomes `hello` |
| QuotedText.CleanOnlyQuotes | index.js:61-63 | a lone straight quote and a pair of straight quotes both become empty |
| QuotedText.CleanQuotedTextNotIdempotent | index.js:61-63 | `""a""` becomes `"a"`, and cleaning again gives `a` |
| Background.MatchAt | index.js:94 | the pattern matches with its `url(` at i exactly when `url(` is there with no line break before it, the longest `[^)'"]` run after the optional quote is non-empty, and `)` or a quote and `)` follow it with no line break after; the capture is that run |
| Background.MatchAtWrapped | index.js:94 | `url(`, an optional quote, a non-empty `[^)'"]` run, an optional quote and `)`, between line-break-free text, match and capture the run |
| Background.LastMatch | index.js:94 | the greedy `.*` chooses the rightmost position where the whole pattern matches |
| Background.ExtractUrl | index.js:94 | with no match the value comes back unchanged; otherwise it is the capture at the rightmost matching `url(`, which is shorter and holds only `[^)'"]` characters |
| Background.ExtractUrlIdempotent | index.js:94-96 | extracting from an extracted URL changes nothing |
| Background.ExtractSimpleUrl | index.js:94-96 | from `url(x)`, `url("x")` and `url('x')` with a plain x, the extracted value is x |
| Background.ExtractLastOfTwo | index.js:94 | with `url(a), url(b)` the last `url(` wins, giving `b` |
| Background.BackgroundUrl | index.js:90-97 | the URL is extracted from the custom background, or from the default one when the custom value is empty or `none` (the choice made by the helper `ChooseBackground`), and is never longer than the chosen value |
| Background.NoneCustomUsesDefault | index.js:90-97 | with a custom background of `none`, the URL comes from the default background's `url("x")` and is x |

## Left out

- `getCachedImg` (image loading through a canvas, and its cache) is not modelled. It is browser I/O. The model stops at the URL that would be handed to it.
- DOM access is not modelled: `getComputedStyle`, `querySelectorAll`, `cloneNode`, `setAttribute` and `innerHTML`. The computed style of each element is an input, and the elements are a sequence in document order.
- The `Progress` widget, logging, the HTML template, the Blob download and `registerSlashCommand` are not modelled. They are UI and I/O around the core.
- `ClassName.GenerateClassName` carries no contract of its own. Its properties are stated by `ClassName.ClassNameShape` and the lemmas after it.
- ClassName.HashUnits: doubles are not modelled. The hash is an exact integer, which agrees with the source only while intermediate values stay below 2^53. `ClassName.ExactDoubleBound` guarantees this up to 0x3FFF00 code units. Beyond that, the rounding of doubles is not modelled.
- Background.ExtractSimpleUrl: proved only for an x that contains no `url(`. With a nested `url(` the greedy prefix can pick a later position.
- `.` in the regular expression is taken to exclude exactly `\n`, `\r`, U+2028 and U+2029, the JavaScript line terminators.
