# Shared utilities, Metro asset plugin and counter hook of the monorepo boilerplate

This Dafny project models the logic in the monorepo's JavaScript core:

- the string utilities (`truncate`, `slugify`, `getInitials`, `pluralize`);
- the number utilities (`formatNumber`, `calculatePercentage`, `clamp`, `formatBytes`);
- the array and object utilities (`groupBy`, `unique`, `chunk`, `omit`, `pick`);
- the Metro asset plugin that rewrites asset file names into Android resource names;
- the `useCounter` React hook.

Modules:

- `JsCore` (js_core.dfy): the JavaScript pieces the utilities rely on.
  - `Option`/`Result` for `undefined` and thrown errors.
  - The `Object.prototype` member names every plain object inherits.
  - `String(n)` for integers, with its inverse.
- `Text` (text.dfy): the regular-expression character classes `\w` and `\s`, and the string rewrites the utilities chain together:
  - ASCII case mapping;
  - filtering and replacing a character class;
  - collapsing runs;
  - trimming a class at both ends;
  - `split` on one separator, and `join`.
- `StringUtils`, `NumberUtils` and `DataUtils`: one module per utility file.
  - The pure functions are Dafny functions.
  - `chunk`, `groupBy`, `omit` and `pick` build their results step by step in the source, so they are methods with loops. Each is proved against a defining function or a set expression.
- `AssetPlugin`: `filter` and `transform` of the asset plugin, as pure functions on an `Asset` value.
- `Counter`: the hook's state as a class.
  - `count` and the `initialValue` of the latest render are fields.
  - `increment`, `decrement` and `reset` are methods with `modifies` clauses.

Behaviour of the code that the model makes explicit:

- **`reset` and later renders.**
  - The `reset` callback depends on `[initialValue]`, so it restores the `initialValue` of the latest render, not the one the counter was created with.
  - `Counter.Counter.Rerender` models such a render: `count` is kept, as `useState` ignores later initial values, and the reset target changes.
- **`getInitials` and empty words.** Repeated, leading or trailing spaces make empty words.
  - `word[0]` of an empty word is `undefined`, and `join("")` writes `undefined` as the empty string.
  - So empty words contribute nothing, and nothing fails. `StringUtils.HeadsOfSplit` proves this against the word-start definition.
- **The rule list beside `transform`.** It includes "not start with a number", but no step of the sanitising chain enforces it, and `.` is kept as well.
  - `AssetPlugin.SanitizeNameKeepsLeadingDigit` shows `1.png` coming through unchanged.
- **`groupBy` on an inherited key.** For an element without an own field of that name, a key such as `toString` reads the member every object inherits.
  - The group is then named after that member's text.
  - `DataUtils.Label` models this read.

## Model

| member | source | states |
|---|---|---|
| JsCore.NatToString | packages/shared/utils/numberUtils.js:11 | `toString()` of a natural number: at least one character, all decimal digits, no leading zero, and one character exactly below 10 |
| JsCore.IntToString | packages/shared/utils/numberUtils.js:11 | `toString()` of an integer: a minus sign followed by the digits of the magnitude exactly when it is negative |
| JsCore.NatToStringRoundTrip | packages/shared/utils/numberUtils.js:11 | reading the decimal text of a natural number back gives the number |
| JsCore.IntToStringRoundTrip | packages/shared/utils/numberUtils.js:11 | reading the text of any integer back, sign included, gives the integer |
| Text.Lower | packages/shared/utils/stringUtils.js:23 | `toLowerCase()`: same length; each ASCII uppercase letter becomes its own lowercase letter (code point plus 32), and every other character is unchanged |
| Text.Upper | packages/shared/utils/stringUtils.js:41 | `toUpperCase()`: same length; each ASCII lowercase letter becomes its own uppercase letter (code point minus 32), and every other character is unchanged |
| Text.IsWordChar | packages/shared/utils/stringUtils.js:25 | `\w`: only ASCII characters, never a hyphen |
| Text.IsSpace | packages/shared/utils/stringUtils.js:24-26 | `\s` and what `trim()` removes: never a word character or a hyphen |
| Text.Filter | packages/shared/utils/stringUtils.js:25 | deleting a character class: every remaining character is kept by the class and comes from the input, and nothing is added |
| Text.FilterOne | packages/shared/utils/stringUtils.js:25 | one character survives exactly when the class keeps it |
| Text.FilterAppend | packages/shared/utils/stringUtils.js:25 | the deletion works piecewise over concatenation; with `FilterOne` this fixes the result as the kept characters in their order |
| Text.FilterFilter | packages/shared/utils/stringUtils.js:25 | deleting with a larger class and then a smaller one is deleting with the smaller one |
| Text.FilterFixed | packages/shared/utils/stringUtils.js:25 | a string with only kept characters is left unchanged by the deletion |
| Text.ReplaceOutside | apps/mobile/metro.asset-plugin.js:23 | replacing a class's complement: same length, each character kept if in the class, else the replacement |
| Text.FilterReplaceOutside | apps/mobile/metro.asset-plugin.js:23 | the characters of any class inside the kept one, and other than the replacement, are left in place and in order |
| Text.CollapseRuns | packages/shared/utils/stringUtils.js:26 | replacing runs of a class by one character: no two neighbours in the class, and every other character comes from the input |
| Text.CollapseKeepsOthers | packages/shared/utils/stringUtils.js:26 | every character outside the class survives the collapse, in order |
| Text.CollapseRun | packages/shared/utils/stringUtils.js:26 | a maximal run of class characters becomes exactly one replacement character |
| Text.CollapsePlain | packages/shared/utils/stringUtils.js:26 | characters outside the class are copied and end any run |
| Text.CollapseTwoWords | packages/shared/utils/stringUtils.js:26 | two words with one class character between them get exactly one replacement between them |
| Text.FilterCollapse | packages/shared/utils/stringUtils.js:26 | the characters of any class disjoint from the collapsed one are left in place and in order |
| Text.CollapseRunsFixed | packages/shared/utils/stringUtils.js:26 | a string whose class characters are isolated copies of the replacement is unchanged by the collapse |
| Text.Trim | packages/shared/utils/stringUtils.js:27 | dropping leading and trailing runs of a class: the result is a contiguous slice of the input, does not start or end with a class character, and everything dropped at either end is in the class |
| Text.FilterTrim | packages/shared/utils/stringUtils.js:24 | trimming keeps all characters of any class disjoint from the trimmed one, in order |
| Text.TrimKeeps | packages/shared/utils/stringUtils.js:27 | trimming keeps every per-character property and every no-adjacent-pair property the input has |
| Text.TrimFixed | packages/shared/utils/stringUtils.js:27 | a string that neither starts nor ends with a class character is left unchanged by trimming |
| Text.Split | packages/shared/utils/stringUtils.js:38 | `split(sep)`: at least one piece, and no piece contains the separator |
| Text.Join | packages/shared/utils/stringUtils.js:38 | the partner of `split(sep)`: splitting `parts.join(sep)` on `sep` gives back the parts when none contains `sep` |
| Text.SplitJoin | packages/shared/utils/stringUtils.js:38 | joining the pieces of `split(sep)` with `sep` gives back the string |
| Text.SplitAppend | apps/mobile/metro.asset-plugin.js:20 | the pieces of `a + sep + b` are the pieces of `a` followed by those of `b` |
| StringUtils.Truncate | packages/shared/utils/stringUtils.js:11-14 | an empty string or one no longer than the limit is returned as is; otherwise the result is the first `maxLength` characters (none for a negative limit) followed by "...", so exactly three longer than the limit clamped at 0 |
| StringUtils.TruncateBound | packages/shared/utils/stringUtils.js:12-13 | for a non-negative limit the result is at most three characters longer than the limit, and a result longer than the input starts with the input's first `maxLength` characters |
| StringUtils.Slugify | packages/shared/utils/stringUtils.js:21-28 | the slug has only lowercase ASCII letters, digits and hyphens, no two hyphens in a row, and no hyphen at either end |
| StringUtils.KeptChars | packages/shared/utils/stringUtils.js:23-25 | after lowercasing, trimming and deleting `[^\w\s-]`, only word characters, white space and hyphens remain, none an uppercase ASCII letter |
| StringUtils.CollapsedChars | packages/shared/utils/stringUtils.js:26 | after each run of `[\s_-]` becomes one hyphen, only slug characters remain |
| StringUtils.Hyphenate | packages/shared/utils/stringUtils.js:26-27 | collapsing the separator runs into hyphens and trimming the hyphens turns any kept, lowercased text into a slug |
| StringUtils.TrimHyphensGivesSlug | packages/shared/utils/stringUtils.js:27 | trimming the hyphens off slug characters with no double hyphen gives a slug |
| StringUtils.HyphenateFixed | packages/shared/utils/stringUtils.js:26-27 | the last two steps leave a slug unchanged |
| StringUtils.SlugifyFixed | packages/shared/utils/stringUtils.js:21-28 | a slug is its own slug |
| StringUtils.SlugifyKeepsLettersAndDigits | packages/shared/utils/stringUtils.js:21-28 | the slug's letters and digits are those of the lowercased input, in the same order |
| StringUtils.SlugifyHelloWorld | packages/shared/utils/stringUtils.js:21-28 | "Hello World!" gives "hello-world" |
| StringUtils.SlugifyIdempotent | packages/shared/utils/stringUtils.js:21-28 | slugifying twice is slugifying once |
| StringUtils.WordStarts | packages/shared/utils/stringUtils.js:37-40 | the characters that begin space-separated words: no more of them than characters, none a space, all taken from the name |
| StringUtils.Heads | packages/shared/utils/stringUtils.js:39-40 | `map(word => word[0]).join("")`: at most one character per word, the first character of every non-empty word among them, and one per word when no word is empty |
| StringUtils.HeadsOfSplit | packages/shared/utils/stringUtils.js:38-40 | splitting on " ", taking each word's first character and joining gives exactly the word starts: empty words contribute nothing |
| StringUtils.GetInitials | packages/shared/utils/stringUtils.js:35-43 | "" for an empty name; at most two characters; no lowercase ASCII letter |
| StringUtils.GetInitialsWordStarts | packages/shared/utils/stringUtils.js:35-43 | the initials are the first two word starts of the name, uppercased |
| StringUtils.GetInitialsJohnDoe | packages/shared/utils/stringUtils.js:33 | "John Doe" gives "JD", as the doc comment says |
| StringUtils.Pluralize | packages/shared/utils/stringUtils.js:52-55 | a count of exactly 1 gives "1 " and the singular; otherwise the count's text, a space, then the plural, or the singular plus "s" when the plural is missing or empty |
| StringUtils.PluralizeExamples | packages/shared/utils/stringUtils.js:53-54 | (1, item, items) gives "1 item", (5, item, items) gives "5 items", and (0, item, no plural) gives "0 items" |
| NumberUtils.CommaAt | packages/shared/utils/numberUtils.js:11 | where the pattern matches: never in front, always before a digit that a word character precedes and at least three characters follow |
| NumberUtils.InsertCommas | packages/shared/utils/numberUtils.js:11 | the `replace` never shortens the string and never inserts in front: the result is at least as long as the input and starts with the same character (that the inserted characters are exactly commas is `StripInsertedCommas`) |
| NumberUtils.FormatNumber | packages/shared/utils/numberUtils.js:10-12 | `formatNumber(n)` is at least as long as `n.toString()` and starts with "-" exactly when `n` is negative |
| NumberUtils.CommaAtSigned | packages/shared/utils/numberUtils.js:11 | in an optionally signed run of digits, the comma pattern matches exactly after the sign where a positive multiple of three digits follows |
| NumberUtils.InsertCommasGroups | packages/shared/utils/numberUtils.js:11 | inserting commas into a signed run of digits keeps the sign and groups the digits in threes from the right |
| NumberUtils.FormatNumberShape | packages/shared/utils/numberUtils.js:10-12 | `formatNumber(n)` is the minus sign (for negative `n`) followed by the grouped digits of the magnitude |
| NumberUtils.GroupPieces | packages/shared/utils/numberUtils.js:11 | the comma-separated pieces of grouped digits are all digits; the first has one to three, every later one exactly three |
| NumberUtils.FormatNumberGroups | packages/shared/utils/numberUtils.js:10-12 | the result starts with "-" exactly for negative numbers; after it, the first group has one to three digits (no comma follows the sign) and every later group exactly three |
| NumberUtils.StripInsertedCommas | packages/shared/utils/numberUtils.js:11 | deleting the commas from the comma-inserted text of a comma-free string gives back that string |
| NumberUtils.FormatNumberStripCommas | packages/shared/utils/numberUtils.js:10-12 | `formatNumber(n)` with every comma removed is `n.toString()` |
| NumberUtils.FormatNumberExample | packages/shared/utils/numberUtils.js:10-12 | 1234567 is formatted as "1,234,567" |
| NumberUtils.CalculatePercentage | packages/shared/utils/numberUtils.js:21-24 | 0 for a zero total whatever the value; otherwise the result times the total is 100 times the value |
| NumberUtils.PercentageBounds | packages/shared/utils/numberUtils.js:23 | a value between 0 and a positive total is between 0 and 100 percent of it |
| NumberUtils.Clamp | packages/shared/utils/numberUtils.js:33-35 | for `min <= max` the result lies in `[min, max]` and equals `num` when `num` already does; below the range it is `min`; above `max`, or when `max < min`, it is `max` |
| NumberUtils.ClampIdempotent | packages/shared/utils/numberUtils.js:34 | clamping a clamped value changes nothing, whatever the bounds |
| NumberUtils.Log1024 | packages/shared/utils/numberUtils.js:66 | the unit index is the exact integer logarithm: `1024^i <= bytes < 1024^(i+1)` |
| NumberUtils.UnitLabel | packages/shared/utils/numberUtils.js:65-67 | `sizes[i]` is `undefined` exactly past the five units |
| NumberUtils.FormatBytes | packages/shared/utils/numberUtils.js:62-68 | "0 Bytes" for zero; "NaN undefined" for a negative count; otherwise an amount in `[1, 1024)` with a unit, which is `undefined` from 1024^5 bytes on |
| NumberUtils.FormatBytesUnit | packages/shared/utils/numberUtils.js:64-67 | for `1 <= b < 1024^5` the unit is `sizes[i]` with `1024^i <= b < 1024^(i+1)`, and the amount times `1024^i` is `b` |
| NumberUtils.FormatBytesOneMegabyte | packages/shared/utils/numberUtils.js:62-67 | 1048576 bytes are shown as 1 MB |
| DataUtils.Chunk | packages/shared/utils/dataUtils.js:37-43 | the chunks concatenate back to the array; each holds 1 to `size` elements and all but the last exactly `size`; there are `ceil(n / size)` of them, and none for an empty array |
| DataUtils.UniqueFrom | packages/shared/utils/dataUtils.js:28 | adding the elements in order to a `Set` that already holds `seen` lists no element twice, and exactly the elements of the array not in `seen` |
| DataUtils.Unique | packages/shared/utils/dataUtils.js:27-29 | no duplicates, and exactly the elements of the array |
| DataUtils.UniqueFromOrder | packages/shared/utils/dataUtils.js:28 | the listed elements come in the order of their first occurrences |
| DataUtils.UniqueOrder | packages/shared/utils/dataUtils.js:27-29 | `unique(a)` lists the distinct elements in the order of their first occurrence in `a` |
| DataUtils.UniqueExample | packages/shared/utils/dataUtils.js:27-29 | `unique([1, 2, 2, 3, 1])` is `[1, 2, 3]` |
| DataUtils.UniqueFromAppend | packages/shared/utils/dataUtils.js:28 | one more element at the end adds it to the list exactly when it is new |
| DataUtils.Label | packages/shared/utils/dataUtils.js:13 | `item[key]`: an own field gives its value; a label naming an inherited member can only come from an own field |
| DataUtils.Labels | packages/shared/utils/dataUtils.js:13 | one label per element, each `item[key]` as `Label` reads it |
| DataUtils.Members | packages/shared/utils/dataUtils.js:14-17 | the members of group `g` are elements of the array, no more of them than the array has, each with label `g` |
| DataUtils.LabelSetLabels | packages/shared/utils/dataUtils.js:13 | the set of group names holds exactly the elements' labels |
| DataUtils.GroupedStep | packages/shared/utils/dataUtils.js:13-17 | pushing one element onto the group of its label turns the grouping of the first `i` elements into that of the first `i + 1` |
| DataUtils.GroupBy | packages/shared/utils/dataUtils.js:11-20 | a `TypeError` exactly when some label names a member every object inherits; otherwise one group per label, each holding exactly the elements with that label in source order |
| DataUtils.MembersContains | packages/shared/utils/dataUtils.js:17 | every element sits in the group of its own label |
| DataUtils.MembersOfAbsentLabel | packages/shared/utils/dataUtils.js:14-17 | a name that is no element's label has an empty group |
| DataUtils.GroupSizesSum | packages/shared/utils/dataUtils.js:11-20 | the sizes of the groups, one per distinct label, add up to the length of the array |
| DataUtils.Omit | packages/shared/utils/dataUtils.js:60-64 | the result has exactly the keys of the object that are not in `keys`, each with its original value |
| DataUtils.Pick | packages/shared/utils/dataUtils.js:72-80 | the result has exactly the keys in both `keys` and the object, each with the object's value |
| AssetPlugin.FilterAsset | apps/mobile/metro.asset-plugin.js:8-10 | every asset is accepted |
| AssetPlugin.SanitizeName | apps/mobile/metro.asset-plugin.js:21-25 | the sanitised name has only `[a-z0-9_.]`, no two underscores in a row, and no underscore at either end |
| AssetPlugin.CollapsedNameChars | apps/mobile/metro.asset-plugin.js:24 | collapsing underscore runs keeps only name characters |
| AssetPlugin.TrimUnderscoresGivesName | apps/mobile/metro.asset-plugin.js:25 | trimming underscores off name characters with no double underscore gives a sanitised name |
| AssetPlugin.SanitizeNameFixed | apps/mobile/metro.asset-plugin.js:21-25 | a sanitised name is left unchanged |
| AssetPlugin.SanitizeNameKeepsLettersAndDigits | apps/mobile/metro.asset-plugin.js:21-25 | the letters, digits and dots of the sanitised name are those of the lowercased name, in the same order |
| AssetPlugin.SanitizeMyLogo | apps/mobile/metro.asset-plugin.js:21-25 | "My Logo.PNG" becomes "my_logo.png" |
| AssetPlugin.SanitizeNameIdempotent | apps/mobile/metro.asset-plugin.js:21-25 | sanitising twice is sanitising once |
| AssetPlugin.SanitizeNameKeepsLeadingDigit | apps/mobile/metro.asset-plugin.js:18-25 | a name starting with a digit keeps it ("1.png" stays "1.png"), although the comment lists "not start with a number" |
| AssetPlugin.SegmentStart | apps/mobile/metro.asset-plugin.js:20 | the last segment starts just after a `/`, or at 0, and no `/` follows that position |
| AssetPlugin.LastSegment | apps/mobile/metro.asset-plugin.js:20 | `split('/').pop()` has no `/`, is the suffix of the path, and is preceded by `/` when shorter than the path |
| AssetPlugin.LastSegmentIsLastPart | apps/mobile/metro.asset-plugin.js:20 | the last segment is the last piece of `split('/')` |
| AssetPlugin.LastSegmentOfJoin | apps/mobile/metro.asset-plugin.js:20 | a directory prefix ending in `/` followed by a name without `/` has that name as its last segment |
| AssetPlugin.FindFrom | apps/mobile/metro.asset-plugin.js:27 | the search returns the first position from `k` on where the pattern occurs, or none when it occurs nowhere from `k` on |
| AssetPlugin.ReplaceFirst | apps/mobile/metro.asset-plugin.js:27 | `replace` with a string pattern: unchanged when the pattern does not occur; otherwise the text before the first occurrence, the replacement, and the text after it |
| AssetPlugin.ReplaceFirstAt | apps/mobile/metro.asset-plugin.js:27 | given the first occurrence `k`, `replace` splices the replacement in at `k` |
| AssetPlugin.FirstOccurrence | apps/mobile/metro.asset-plugin.js:27 | the position `replace` uses: the last segment occurs there, and nowhere earlier in the path |
| AssetPlugin.SpliceFirst | apps/mobile/metro.asset-plugin.js:27 | `file.replace(fileName, rep)` puts `rep` in place of the first occurrence of the file name, wherever in the path that is |
| AssetPlugin.SanitizePath | apps/mobile/metro.asset-plugin.js:19-28 | each output path is the input path with the first occurrence of its last segment replaced by the sanitised segment |
| AssetPlugin.Transform | apps/mobile/metro.asset-plugin.js:13-34 | as many paths as before, in the same order, each sanitised as above; every other field is copied unchanged |
| AssetPlugin.SanitizePathRewritesDirectory | apps/mobile/metro.asset-plugin.js:27 | for "Logo/Logo" the directory is rewritten ("logo/Logo") and the file name keeps its capital |
| AssetPlugin.SanitizedHasNoSlash | apps/mobile/metro.asset-plugin.js:23-25 | a sanitised name contains no `/` |
| AssetPlugin.SpliceLast | apps/mobile/metro.asset-plugin.js:20-27 | the intended splice: the directory part up to the last `/` is kept, the rest is exactly the replacement, and a replacement without `/` becomes the new last segment |
| AssetPlugin.SanitizePathIntended | apps/mobile/metro.asset-plugin.js:20-27 | the intended path: directory part unchanged, last segment replaced by its sanitised form, which is then the path's last segment |
| AssetPlugin.TransformIntended | apps/mobile/metro.asset-plugin.js:13-34 | the intended transform: same number and order of paths, other fields unchanged, every path ending in a sanitised last segment |
| AssetPlugin.SpliceAgrees | apps/mobile/metro.asset-plugin.js:27 | the two splices agree when the file name does not occur earlier in its path |
| AssetPlugin.SanitizePathAgrees | apps/mobile/metro.asset-plugin.js:20-27 | the written and the intended sanitised path agree when the file name does not occur earlier in its path |
| AssetPlugin.TransformAgrees | apps/mobile/metro.asset-plugin.js:13-34 | the written and the intended transform agree on assets whose file names occur only at the end of their paths |
| Counter.Counter.constructor | packages/shared/hooks/useCounter.js:8-9 | the count starts at the initial value, 0 by default |
| Counter.Counter.Increment | packages/shared/hooks/useCounter.js:11-13 | the count goes up by one; the reset target is unchanged |
| Counter.Counter.Decrement | packages/shared/hooks/useCounter.js:15-17 | the count goes down by one; the reset target is unchanged |
| Counter.Counter.Reset | packages/shared/hooks/useCounter.js:19-21 | the count becomes the initial value, whatever it was |
| Counter.Counter.Rerender | packages/shared/hooks/useCounter.js:9-21 | a later render keeps the count and makes its `initialValue` the reset target |
| Counter.IncrementThenDecrement | packages/shared/hooks/useCounter.js:11-17 | an increment followed by a decrement restores the count |
| Counter.ResetTwice | packages/shared/hooks/useCounter.js:19-21 | the first reset brings the count to the initial value, and a second reset leaves it there |
| Counter.ApplyChanges | packages/shared/hooks/useCounter.js:11-17 | any interleaving of increments and decrements moves the count by the number of increments less the number of decrements, and keeps the reset target |
| Counter.Net | packages/shared/hooks/useCounter.js:11-17 | the net effect of a sequence of calls is the count of increments less the count of decrements, whatever their order |
| Counter.ResetAfterChanges | packages/shared/hooks/useCounter.js:11-21 | after any interleaving of increments and decrements, a reset returns to the initial value |
| Counter.Trace | packages/shared/hooks/useCounter.js:8-21 | starting from 5, increment, increment, decrement and reset pass through 6, 7, 6 and 5 |

## Left out

- Text.Lower, Text.Upper: case mapping covers the ASCII letters only.
  - Characters whose JavaScript lowercase is ASCII, such as the Kelvin sign, are kept as they are.
  - Such characters would survive `slugify` in the source but are deleted here.
  - Full Unicode case tables are outside the model.
- Strings are sequences of characters, not of UTF-16 code units. `length`, `substring` and `word[0]` differ for characters outside the Basic Multilingual Plane.
- JavaScript numbers are modelled as unbounded integers (and reals for `calculatePercentage`).
  - Floating-point rounding, `NaN`, `Infinity` and exponent notation in `toString()` are not modelled.
  - `formatNumber` is modelled on integers only.
- NumberUtils.CalculatePercentage: returns the exact quotient. The rounding by `toFixed(decimals)` and the `decimals` parameter are not modelled, because they are floating-point formatting.
- NumberUtils.FormatBytes: the amount is the exact quotient, not rounded to two decimals.
  - The unit index is the exact integer logarithm rather than the floating-point `Math.log` quotient.
  - The two can differ just below a power of 1024.
- `randomInt` depends on `Math.random` and is not modelled. `roundTo` is floating-point rounding only and is not modelled either.
- `deepClone` is not modelled: it is a JSON serialise/parse round trip with lossy semantics for dates, functions, `undefined` and cycles.
- DataUtils.Chunk: requires a positive `size` unless the array is empty. With a non-positive size the source's loop never ends on a non-empty array.
- DataUtils.Label: the text of an inherited member is taken as V8 prints it: "function toString() { [native code] }", "function Object() { [native code] }" for `constructor`, and "[object Object]" for `__proto__`.
  - The spacing of native-code text is engine-specific.
- DataUtils.GroupBy: elements are maps from field names to string values.
  - Labels of other types are not modelled, nor is their conversion to property names.
  - The order of the result's keys is not modelled.
- DataUtils.Pick: objects are maps of their own keys. A key found only through the prototype chain (`key in obj` for "toString") would be copied by the source but is not modelled.
- DataUtils.Omit: key order is not modelled, and neither are non-enumerable properties.
- AssetPlugin.ReplaceFirst: the replacement text is taken literally. The `$` patterns of `String.prototype.replace` cannot arise, because a sanitised name contains no `$`.
- AssetPlugin.Transform: an asset's other fields are a map copied as a whole. Property order and getters are not modelled.
- Counter: React's `useState` and `useCallback` are not modelled.
  - Not modelled: render scheduling, batching of state updates, and the identity of the memoised callbacks.
  - The class holds the state that those calls keep between renders.
- The page, screen and layout components hold no logic of their own and are not part of this model.
- The asset-copy script (file-system I/O), the image maps (bundler `require` handles and logging) and the package index (re-exports) are not part of this model.

## Findings

| source | as written | input that shows it | evidently intended | confidence | as-written member | corrected member |
|---|---|---|---|---|---|---|
| apps/mobile/metro.asset-plugin.js:27 | the sanitised name replaces the first occurrence of the file name anywhere in the path | "Logo/Logo" becomes "logo/Logo": the directory is rewritten and the file name keeps its capital | replace the last path segment, giving "Logo/logo" | high; not executed | AssetPlugin.SanitizePathRewritesDirectory | AssetPlugin.SanitizePathIntended |
