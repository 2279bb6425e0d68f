# SVG fragment combiner — a Dafny model

`index.js` turns several `<svg>` blocks into one: `combineSVGs` finds every
`<svg …>…</svg>` block in a text and reads its attributes with `parseAttributes`.
It merges the attributes of all blocks with `mergeAttributes`, stacks the blocks'
contents vertically in `<g transform="translate(0, y)">` groups, and writes one outer
`<svg>`. That outer tag carries the merged attributes followed by a computed `width`
(the widest block), `height` (the sum of the heights) and `viewBox="0 0 width height"`.

The model has six modules, one file each:

- `Builtins` (`builtins.dfy`) covers the JavaScript built-ins the three functions rely on:
  - the `\s` class;
  - `split(/\s+/)` and `join(' ')`;
  - the first-seen order of a `Set`;
  - `parseFloat`;
  - the text of a number in a template literal.
- `AttrMaps` (`attr_maps.dfy`) models a plain object used as a dictionary. It is an
  insertion-ordered sequence of key/value pairs, so `Object.entries` order is its order.
- `AttrParse` (`parse_attributes.dfy`) models `parseAttributes`:
  - the regular expression `(\S+)\s*=\s*"([^"]*)"` as an exact scanner, with greedy
    backtracking and the leftmost match;
  - the `exec` loop as a method.
- `AttrMerge` (`merge_attributes.dfy`) models `mergeAttributes`:
  - the merge policy as functions;
  - the target object as a class whose entries the method updates in place;
  - the class-union loop as a method.
- `SvgScan` (`svg_scan.dfy`) models the block expression `/<svg([^>]*)>([\s\S]*?)<\/svg>/gi`
  under `matchAll`, as a scanner that ignores ASCII case. Without the `u` flag, the `i`
  flag lets no other character match the letters `s`, `v` and `g`.
- `Combine` (`combine_svgs.dfy`) models `combineSVGs`: the loop over the blocks, the size
  arithmetic, the wrapper groups and the final template.

Numbers are `Finite(n)` for a natural number `n`, or `NaN`. Only the parts of JavaScript
arithmetic that this code reaches are modelled:
- after leading whitespace, a text without a leading decimal digit is `NaN` (see "Left out"
  for what this reading of `parseFloat` leaves aside);
- `NaN + x` is `NaN`;
- `NaN > x` is false;
- a number is written back as its decimal digits, and `NaN` as `NaN`.

Behaviour a reader might not expect, which the model follows:
- A non-class attribute whose merged value is the empty string is overwritten by a later
  block, because the guard is `!target[key]`, not "key absent". `MergedFirstWins` states
  this.
- A width or height that is present but not numeric (`"auto"`) is `NaN`, not 0. A NaN
  height makes every later offset and the total height `NaN` (`SumHeightsNaN`). A NaN
  width is skipped by the `>` comparison (`MaxWidthIsMaximum`).
- Merging is not idempotent for `class`. The first class value is copied verbatim, so
  `"a a"` stays `"a a"`; merging the same attributes again collapses it to `"a"`
  (`MergeTwiceClass`). For other keys a second merge changes nothing
  (`MergeTwiceKeepsOthers`).
- A block whose attribute text has an unterminated quote is not skipped wholesale: the
  attribute pattern goes on matching from the next position, as `exec` does.

## Model

| member | source | states |
|---|---|---|
| Builtins.SpanRun | index.js:9 | a run of `\s` (or of `\S`) stops at the first character outside the class |
| Builtins.IndexOfFirst | index.js:59 | `indexOf` finds the first occurrence at or after the start, and `None` means there is none |
| Builtins.SplitNoSpace | index.js:41-42 | no piece of `split(/\s+/)` contains whitespace |
| Builtins.SplitJoin | index.js:46 | joining non-empty whitespace-free tokens with one space and splitting again gives the tokens back |
| Builtins.DedupMembers | index.js:41-46 | a `Set` built from a list holds exactly the list's elements |
| Builtins.DedupNoDup | index.js:41-46 | a `Set` holds each element once |
| Builtins.DedupAppend | index.js:43-46 | adding more elements to a `Set` keeps the old elements first, then the new ones in first-seen order |
| Builtins.ParseFloat | index.js:81-82 | `parseFloat` gives a number exactly when a digit follows the leading whitespace, otherwise `NaN` |
| Builtins.NumTextReadsBack | index.js:81-82 | `parseFloat` of a text that starts with a number's written text, followed by a non-digit, is that number (`NaN` for `"NaN…"`) |
| Builtins.AddLaws | index.js:89-90 | 0 is the unit of addition, and neither the order nor the grouping of a sum changes it |
| Builtins.NumTextRoundTrip | index.js:106-108 | the decimal text written for a whole number reads back as that number |
| AttrMaps.Lookup | index.js:37-48 | reading `obj[k]` gives `undefined` exactly when `k` is not a key, and otherwise a value stored in the object |
| AttrMaps.LookupUnique | index.js:37-48 | in an object with one entry per key, reading a key gives the value of its entry |
| AttrMaps.TruthyLookup | index.js:37-48 | `!obj[k]` is false exactly when the object holds a non-empty value under `k` |
| AttrMaps.Put | index.js:16 | assigning `obj[k] = v` makes `k` map to `v`, leaves every other key as it was, and appends a new key at the end |
| AttrMaps.PutKeepsUnique | index.js:16 | assignment never creates a second entry for a key |
| AttrMaps.LastValueIsLast | index.js:13-17 | the value kept for a key is the one from the last pair that names it; `None` iff no pair names it |
| AttrMaps.PutAllLookup | index.js:13-17 | after a run of assignments a key holds its last assigned value, or its old value if none was assigned |
| AttrMaps.PutAllKeepsUnique | index.js:13-17 | a run of assignments keeps each key once |
| AttrMaps.PutAllKeys | index.js:11-17 | after a run of assignments the old keys keep their places and the new keys follow in the order of their first assignment |
| AttrMaps.PutAllEntries | index.js:13-17 | every entry afterwards is an old entry or one of the assigned pairs |
| AttrMaps.AttrTextSnoc | index.js:98-101 | writing one more entry appends ` key="value"` to the attribute text |
| AttrParse.TailAt | index.js:9 | a match of `\s*=\s*"…"` ends with a closing quote inside the text |
| AttrParse.TailValue | index.js:9 | the value is enclosed in quotes and contains no quote |
| AttrParse.LongestNameIsLongest | index.js:9 | greedy `\S+` backtracks to the longest name whose tail matches, and no longer name has a matching tail |
| AttrParse.MatchAtLongest | index.js:9 | a match starting at a position exists iff some name end there works, and then it is the longest one |
| AttrParse.Exec | index.js:13 | a match `exec` returns starts at or after `lastIndex`; its name is non-empty, its value starts at least two characters after the name, and its closing quote lies inside the text |
| AttrParse.ExecLeftmost | index.js:13 | `exec` returns the leftmost match at or after `lastIndex`, and `null` iff there is none |
| AttrParse.MatchesGenuine | index.js:13-17 | every match the loop sees is the pattern's match at its own start |
| AttrParse.PairsWellFormed | index.js:14-15 | every key read is non-empty and whitespace-free, and every value is quote-free |
| AttrParse.ParseAttributes | index.js:6-20 | the result holds each key once and has only well-formed entries; a key holds the value of its last match, the keys come in order of first match, and the result is empty iff the pattern matches nowhere |
| AttrParse.ParsedKeys | index.js:11-19 | the object's keys are the matched names in the order of their first match, each once |
| AttrParse.ParsedEmpty | index.js:11-19 | no match at any position leaves the object empty, and only then |
| AttrParse.ParseInvertsAttrText | index.js:97-101 | reading back the text written for distinct keys without spaces, quotes or `=` gives the same entries in the same order |
| AttrMerge.ClassTokensSpec | index.js:41-46 | the merged class tokens are free of repeats, are exactly the tokens of either value, and list the existing tokens first |
| AttrMerge.ClassUnionSplits | index.js:46 | splitting the joined class value gives back the merged token list |
| AttrMerge.UnionClasses | index.js:41-46 | the loop adding each new token to the `Set` yields the joined union of both values' tokens |
| AttrMerge.MergeEntry | index.js:30-52 | one source entry: a reserved key changes nothing; `class` is set when missing or empty and united otherwise; another key is set only when missing or empty; no other key changes |
| AttrMerge.AttributeSet.Set | index.js:50 | assigning a key updates the object's entries and nothing else |
| AttrMerge.MergeOne | index.js:30-52 | one pass of the loop body changes the target exactly as `MergeEntry` says for that source entry |
| AttrMerge.MergeAttributes | index.js:23-54 | after the loop the target holds the source entries merged one by one, in the source's order |
| AttrMerge.MergedUntouched | index.js:30-34 | `width`, `height`, `viewBox` and keys the source lacks keep their old value |
| AttrMerge.MergedNoReserved | index.js:30-34 | a target without `width`, `height` or `viewBox` never gains them |
| AttrMerge.MergedFirstWins | index.js:48-52 | any other key keeps a non-empty old value, and otherwise takes the source's value if it has one |
| AttrMerge.MergedClass | index.js:35-47 | `class` takes the source value verbatim when the target's is missing or empty, otherwise the union of both values' tokens |
| AttrMerge.MergeEntryKeys | index.js:31-53 | one entry adds its key at the end exactly when the key is new and not reserved |
| AttrMerge.MergedKeys | index.js:31-53 | the keys afterwards are the old keys followed by the source's new non-reserved keys, in source order |
| AttrMerge.MergedUnique | index.js:23-54 | merging keeps each key once |
| AttrMerge.MergeTwiceKeepsOthers | index.js:48-52 | merging the same attributes again leaves every key except `class` as it was |
| AttrMerge.MergeTwiceClass | index.js:37-46 | merging `class="a a"` into an empty object gives `"a a"`, and merging it a second time gives `"a"` |
| SvgScan.CloseFromFirst | index.js:59 | the lazy `[\s\S]*?` stops at the first `</svg>` in any letter case, and `None` means there is none |
| SvgScan.SvgAt | index.js:59 | a block match at a position lies inside the text with its `>` before its `</svg>` |
| SvgScan.SvgAtShape | index.js:59 | a block starts with `<svg`, its attribute text holds no `>`, and its content holds no closing tag |
| SvgScan.NextSvgLeftmost | index.js:59-60 | each match is the leftmost position where the block pattern matches |
| SvgScan.SvgMatches | index.js:60 | every match found lies inside the text, at or after where the search resumed |
| SvgScan.Fragments | index.js:59-60 | one fragment per match, in match order, each holding that match's attribute text and content |
| SvgScan.SvgMatchesGenuine | index.js:60 | every match `matchAll` yields is the pattern's match at its own start |
| SvgScan.SvgMatchesInOrder | index.js:60 | the matches come in document order and do not overlap |
| SvgScan.FragmentsClean | index.js:59 | no captured attribute text contains `>`, and no captured content contains `</svg>` |
| SvgScan.NoOpenNoFragments | index.js:59-60 | a text without `<svg` in any case has no blocks |
| SvgScan.FragmentsOfWrittenBlocks | index.js:59-60 | blocks written out one after another are found again, one per block and in order, with the same attribute text and content |
| Combine.DimensionOfNumber | index.js:81-82 | a size written as a whole number, possibly followed by a unit such as `px`, is that number |
| Combine.GreaterOrder | index.js:84 | `>` is false both ways when either side is `NaN`; between numbers it is a strict order in which two different numbers compare |
| Combine.MaxWidthIsMaximum | index.js:84-86 | the width is a number, at least every numeric block width, and either 0 or one of the widths |
| Combine.SumHeightsNaN | index.js:88-90 | the total height is `NaN` exactly when some block's height is `NaN` |
| Combine.SumHeightsAppend | index.js:88-90 | the total height of two runs of blocks is the sum of their totals, so the offsets of a later run start at the earlier run's total |
| Combine.Stacked | index.js:88-93 | when a block's offset is a number, every earlier block lies wholly above it |
| Combine.WrapReadsBack | index.js:93 | `parseFloat` of the text after `translate(0, ` in a wrapper is the offset, and the block's content sits unchanged just before `\n</g>\n` |
| Combine.WrappedPrefix | index.js:88-93 | the wrappers of the first `k` blocks begin the combined content |
| Combine.WrapperAt | index.js:71-93 | block `k` gets one wrapper, right after those of the blocks before it, moved down by the sum of their heights |
| Combine.MergeAllNoReserved | index.js:64-78 | the merged attributes never contain `width`, `height` or `viewBox` |
| Combine.MergeAllUnique | index.js:64-78 | the merged attributes name each key once |
| Combine.MergeAllNoneTruthy | index.js:48-52 | a non-class key that no block gives a non-empty value has no non-empty merged value |
| Combine.MergeAllFirstWins | index.js:71-78 | a non-class key takes the value from the first block that gives it a non-empty value |
| Combine.MergeAllKeys | index.js:71-78 | the merged keys are all the blocks' keys, each once, in order of first appearance, except `width`, `height` and `viewBox` |
| Combine.MergeAllAbsent | index.js:71-78 | a key that no block has is not in the merged attributes |
| Combine.BlockAttrsUnique | index.js:76 | every block's parsed attributes name each key once |
| Combine.AttributeText | index.js:97-101 | the loop writes every merged entry as ` key="value"`, in insertion order |
| Combine.CombineSVGs | index.js:57-113 | the result is the outer tag with the merged attribute text, the widest width, the summed height and one wrapper per block at its offset |
| Combine.RenderReadsBack | index.js:104-112 | the merged attribute text follows `<svg` directly; `parseFloat` at the `width` and `height` values and at both sizes in `viewBox` gives the computed width and height; the content sits unchanged in the tag |
| Combine.EmptyRender | index.js:104-112 | the template with no attributes, size 0 and no content is the exact text returned for an input without blocks |
| Combine.CombineNoBlocks | index.js:64-112 | an input without blocks yields width `0`, height `0`, viewBox `0 0 0 0` and empty content, and no failure |
| Combine.CombineNoSvg | index.js:59-112 | an input with no `<svg` in any case yields that empty output |

## Left out

- The HTTP server around these functions and the abc2svg renderer. They are I/O and a
  library, and only the three text functions are modelled.
- Builtins.ParseFloat: reads only the leading run of decimal digits after whitespace. A sign,
  a fraction (`"12.5"` reads as 12), an exponent and `Infinity` are not modelled, so a size is
  a natural number or `NaN`. Texts such as `"-5"`, `"+5"`, `".5"` and `"Infinity"`, which
  JavaScript reads as numbers, are `NaN` in the model.
- Builtins.Add: sizes and sums are exact natural numbers. JavaScript adds doubles, so sums
  above 2^53 would round there; the model does not round them.
- Number text: JavaScript writes numbers of 10^21 and more in exponent form. The model
  writes them in plain digits.
- Objects as dictionaries: JavaScript lists integer-like keys (`"1"`) before other keys and
  lets prototype keys (`toString`, `__proto__`) answer `obj[key]`. Neither is modelled;
  keys keep insertion order and only assigned keys exist.
