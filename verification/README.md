# Safari JSON formatter, modelled in Dafny

The formatter is a browser content script. When a page's body text parses as
JSON, it replaces the page with a tree of HTML elements that shows the value
with decorations: brackets, braces, quotes, `:` delimiters and a `,` after
every value. There are two variants:

- `formattedJSON.js`, the earlier one. It has plain containers and quoted
  string literals.
- `src/formattedJSON.js`, the current one. Its containers and long strings
  are collapsible: each gets a disclosure triangle whose click toggles the
  class `closed` on the triangle's parent. Keys can be sorted, and the text
  gets an escape fix-up before it is parsed.

The model has these modules:

- `Json`: the parsed value. Its `TypeOf` is the formatter's `_typeof`.
- `Dom`: the element tree. `_html` and `_append` become node constructors and
  concatenation of children. An empty markup string contributes no node.
  `TextOf` is `textContent`. `InnerText` is the browser's `innerText` setter,
  which turns text into text nodes separated by `<br>` elements.
- `Current` and `Legacy`: the two renderers. In each, functions state the tree
  that `render` must build, and `Build...` methods carry the source's loops
  and are proved to build exactly that tree. Lemmas state the shape of every
  kind of value, and where disclosure triangles may and may not appear.
- `Order`: the default `Array.prototype.sort` order on strings. Keys are
  sorted in place by an insertion sort, proved sorted and a permutation. The
  sorted result is proved to be the unique sorted permutation.
- `Text`: JavaScript `split` and `join` with a literal separator. `Escapes`:
  the backslash and quote fix-up that the current `init` applies before
  parsing, how `JSON.parse` reads a string literal after it, and a corrected
  fix-up (see "## Findings"). `Loader` keeps the fix-up as written, because
  it models what the page does.
- `Classes`: `_toggleClass` on a `className` value. `Events`: `handleEvents`,
  as a page holding the `className` of every triangle's parent.
- `Loader`: `init` of both variants, and the current variant's `preparePage`,
  over a `Body` whose content they replace.
- `Shown`: a reference definition of the text a rendered value shows:
  each value's literal text, strings unescaped between quote decorators,
  with a `,` after every value. Both renderers are proved to show exactly
  that text.

`JSON.parse` and `JSON.stringify` are not modelled; `init` takes them as
function parameters. A number is kept as its literal text.

## Model

| member | source | states |
|---|---|---|
| Json.TypeOf | src/formattedJSON.js:105-113 | null is "null" and an array is "array", although JavaScript's `typeof` gives "object" for both; every other value gets its `typeof`; each of the six names is given to exactly one kind of value |
| Json.Literal | src/formattedJSON.js:259 | the text node of a scalar: a boolean or null shows the keyword that names it, a number its literal, a string its characters without quotes |
| Json.IndexOf | formattedJSON.js:100 | `obj[k]` finds a member whose key is `k`, and no earlier member has that key |
| Json.LookupOwnKey | formattedJSON.js:98-100 | with unique keys, looking up the key of the i-th member finds that member |
| Text.Split | src/formattedJSON.js:87 | a split always yields at least one piece |
| Text.SplitJoinIsReplaceAll | src/formattedJSON.js:26-27 | splitting on a pattern and joining with a replacement replaces every occurrence, left to right, without overlap |
| Text.JoinSplit | src/formattedJSON.js:87-96 | joining the pieces of a split with the same separator gives the text back |
| Text.SplitAbsent | src/formattedJSON.js:87 | text without the separator's first character splits into itself alone |
| Text.SplitPiecesAvoid | src/formattedJSON.js:87 | no piece of a split on one character contains that character |
| Text.SplitJoin | src/formattedJSON.js:96 | pieces free of a one-character separator survive a join and a split unchanged |
| Text.JoinAppend | src/formattedJSON.js:96 | joining one more part gives the earlier join, the separator and that part |
| Text.JoinLength | src/formattedJSON.js:243 | a join is as long as its parts together plus one separator between each neighbouring pair |
| Order.LexLeqRefl | src/formattedJSON.js:204 | the sort order is reflexive |
| Order.LexLeqAntisym | src/formattedJSON.js:204 | the sort order is antisymmetric |
| Order.LexLeqTrans | src/formattedJSON.js:204 | the sort order is transitive |
| Order.LexLeqTotal | src/formattedJSON.js:204 | any two keys are comparable |
| Order.SortedUnique | src/formattedJSON.js:203-205 | two sorted permutations of the same keys are equal, so the sorted key order does not depend on how it is computed |
| Order.SortStringsSorted | src/formattedJSON.js:203-205 | the reference sort returns a sorted permutation of its input |
| Order.PermutationKeepsDistinct | src/formattedJSON.js:199-205 | rearranging keys that occur once each keeps every key once |
| Order.SortInPlace | src/formattedJSON.js:203-205 | `keys.sort()` leaves the array sorted and a permutation of its old contents |
| Dom.ListIfAny | src/formattedJSON.js:186 | the list is included exactly when it has children, and nothing else is included |
| Dom.AddClass | src/formattedJSON.js:277 | `className += " " + t` appends one token and keeps the tag and the children |
| Dom.InnerText | src/formattedJSON.js:167 | `innerText = json` gives the holder only `<br>`s and non-empty text nodes free of line breaks |
| Dom.InnerTextReadBack | src/formattedJSON.js:167 | reading the holder back, a `<br>` as a line feed, gives the text with its line breaks normalized to line feeds |
| Dom.InnerTextContent | src/formattedJSON.js:167 | the holder's text content is the text without its line breaks |
| Dom.InnerTextOneLine | src/formattedJSON.js:167 | a single line becomes a single text node, and empty text no node |
| Dom.TextOfAllAppend | src/formattedJSON.js:159 | `textContent` of a run of children is the text of the first ones followed by the text of the rest |
| Dom.DecorationTexts | src/formattedJSON.js:184-187 | the text shown by each decoration: the bracket itself, ",", ":", nothing for a triangle, and `"key":` for a key label |
| Current.Render | src/formattedJSON.js:267-280 | every rendered node is an element carrying its kind's name among its classes |
| Current.ArrayNode | src/formattedJSON.js:174-190 | `renderArray` gives a container with classes `array collapsible`, a triangle and a final separator; its full shape is stated by `Current.ArrayShape` |
| Current.ObjectNode | src/formattedJSON.js:196-222 | `renderObject` gives a container with classes `object collapsible`, a triangle and a final separator; its full shape is stated by `Current.ObjectShape` |
| Current.StringNode | src/formattedJSON.js:234-252 | `renderString` gives the string's class list and a triangle exactly when the string is longer than the threshold; its full shape is stated by `Current.StringShape` |
| Current.StringClasses | src/formattedJSON.js:235-240 | the class list starts with `string`; it holds `collapsible` exactly when the string is longer than the threshold, and `closed` exactly when it is that long and folding is on |
| Current.ValueNode | src/formattedJSON.js:258-261 | `renderValue` gives a span of class `value` showing the literal and then `,` |
| Current.OrderKeys | src/formattedJSON.js:199-205 | the keys visited are as many as the members, a permutation of the member keys, each one a key of the object |
| Current.KeyOrder | src/formattedJSON.js:199-205 | without `sort_keys`, keys come in enumeration order; with it, in ascending order; in both cases the keys are a permutation of the member keys, and when those are unique every key appears exactly once |
| Current.KeyOrderExamples | src/formattedJSON.js:199-205 | `{"b":2,"a":1}` lists b, a unsorted and a, b sorted; "B" sorts before "b" |
| Current.GatherKeys | src/formattedJSON.js:197-205 | the key array, filled in enumeration order and sorted in place when asked, holds exactly the key order the renderer specifies |
| Current.BuildNode | src/formattedJSON.js:267-280 | the dispatch builds exactly the specified tree |
| Current.BuildArray | src/formattedJSON.js:174-190 | the loop over the elements builds exactly the specified array node |
| Current.BuildObject | src/formattedJSON.js:196-222 | the loop over the keys builds exactly the specified object node |
| Current.ScalarShape | src/formattedJSON.js:258-279 | a boolean, number or null is a span with classes `value` and its kind, holding the literal and then the separator; it has no triangle and is not collapsible |
| Current.ArrayItemsStep | src/formattedJSON.js:177-179 | each pass of the element loop appends exactly one `<li>` holding the render of the next element, so the list holds one `<li>` per element, in index order |
| Current.ArrayShape | src/formattedJSON.js:174-190 | an array is triangle, `[`, the list (left out when the array is empty), `]` and separator; it is collapsible even when empty |
| Current.EntriesStep | src/formattedJSON.js:207-210 | each pass of the key loop appends exactly the next key's `"key":` label and then a `<dd>` with the render of that key's value |
| Current.EntriesAt | src/formattedJSON.js:207-210 | the list alternates a `"key":` label and a `<dd>` with the render of that key's value, in key order |
| Current.ObjectShape | src/formattedJSON.js:196-222 | an object is triangle, `{`, a `<dl>` of 2·n children pairing each key's label with the render of the member `obj[key]` reads (left out when empty), `}` and separator |
| Current.StringShape | src/formattedJSON.js:234-252 | a string is collapsible exactly when longer than the threshold, and closed exactly when collapsible and folding is on; classes appear in the order string, collapsible, closed; it has a triangle exactly when collapsible; the value span and a final separator are always present |
| Current.ContainerMarked | src/formattedJSON.js:181-189 | an array or object container has a triangle and the collapsible class, and so does nothing in its decorations |
| Current.RenderMarksCollapsible | src/formattedJSON.js:174-252 | throughout a rendered tree, an element holds a triangle exactly when it carries `collapsible` |
| Legacy.Render | formattedJSON.js:128-141 | every rendered node is an element carrying its kind's name among its classes |
| Legacy.ArrayNode | formattedJSON.js:77-90 | `renderArray` gives a container with class `array`, no triangle and a final separator; its full shape is stated by `Legacy.ArrayShape` |
| Legacy.ObjectNode | formattedJSON.js:96-110 | `renderObject` gives a container with class `object`, no triangle and a final separator; its full shape is stated by `Legacy.ObjectShape` |
| Legacy.ValueNode | formattedJSON.js:116-122 | `renderValue(l, quote)` gives a span of class `value` showing the literal, between quotes exactly when `quote` is set, and then `,` |
| Legacy.BuildNode | formattedJSON.js:128-141 | the dispatch builds exactly the specified tree |
| Legacy.BuildArray | formattedJSON.js:77-90 | the loop over the elements builds exactly the specified array node |
| Legacy.BuildObject | formattedJSON.js:96-110 | the `for ... in` loop builds exactly the specified object node |
| Legacy.QuoteFlag | formattedJSON.js:116-122 | quote decorators surround the literal exactly when `quote` is set; the separator always comes last inside the value span |
| Legacy.ScalarShape | formattedJSON.js:128-139 | every scalar, strings included, is a span with classes `value` and its kind; a string holds quote, text, quote, separator, and any other scalar holds its literal and the separator |
| Legacy.KeyLabelPlain | formattedJSON.js:99 | a member's `<dt>` label holds no triangle and nothing in it is collapsible |
| Legacy.ArrayItemsStep | formattedJSON.js:79-81 | each pass of the element loop appends exactly one `<li>` holding the render of the next element, so the list holds one `<li>` per element, in index order |
| Legacy.ArrayShape | formattedJSON.js:77-90 | an array has class `array` only and no triangle; it is `[`, the list (left out when the array is empty), `]` and `,` |
| Legacy.EntriesStep | formattedJSON.js:98-101 | each pass of the `for ... in` loop appends exactly the next member's label and then a `<dd>` with that member's render |
| Legacy.EntriesAt | formattedJSON.js:98-101 | the list alternates the i-th member's label and the i-th member's render |
| Legacy.ObjectShape | formattedJSON.js:96-110 | an object has class `object` only and its members in enumeration order, never sorted; an empty object is `{`, `}` and `,` |
| Legacy.RenderNothingCollapsible | formattedJSON.js:77-141 | no element of a rendered tree is collapsible or holds a triangle |
| Classes.Toggle | src/formattedJSON.js:86-97 | `_toggleClass` appends a name that is not a token and changes nothing else; the present case is stated by `Classes.TogglePresent` |
| Classes.Without | src/formattedJSON.js:89-91 | no kept token equals the name ignoring case, and no token is added |
| Classes.WithoutMembers | src/formattedJSON.js:89-91 | the filter keeps exactly the tokens that differ from the name, ignoring case |
| Classes.ToggleAbsent | src/formattedJSON.js:86-96 | toggling an absent name appends it as the last token and changes nothing else |
| Classes.TogglePresent | src/formattedJSON.js:86-96 | toggling a present name removes every token equal to it ignoring case, and keeps the other tokens in order |
| Classes.ToggleFlips | src/formattedJSON.js:86-97 | after a toggle the name is a token exactly when it was not one before |
| Classes.ToggleTwice | src/formattedJSON.js:86-97 | toggling twice restores the class attribute when no token equals the name ignoring case |
| Classes.ToggleTwiceDropsCaseVariant | src/formattedJSON.js:88-91 | otherwise two toggles lose a token that equals the name only ignoring case |
| Escapes.DoubleBackslashes | src/formattedJSON.js:26 | the first rewrite replaces every backslash with two, so the text grows by the number of backslashes |
| Escapes.DoubleBackslashesSpec | src/formattedJSON.js:26 | reading each doubled backslash back as one restores the text the first rewrite started from |
| Escapes.ReescapeQuotes | src/formattedJSON.js:27 | the second rewrite replaces each backslash-quote pair, left to right, with two backslashes and a quote |
| Escapes.FixEscapes | src/formattedJSON.js:25-28 | both rewrites in order; text without a backslash passes through unchanged |
| Escapes.NoBackslashUnchanged | src/formattedJSON.js:25-28 | text without a backslash passes through each rewrite unchanged |
| Escapes.EscapedChar | src/formattedJSON.js:25 | `JSON.parse` reads `\"`, `\\` and `\/` as the character itself, and `\u` is not a two-character escape |
| Escapes.ReadString | src/formattedJSON.js:25 | `JSON.parse` reads a string literal up to its closing quote, so what is left after it is shorter than the text it started from |
| Escapes.SourceFixUpOfTrailingBackslash | src/formattedJSON.js:25-28 | the valid text `"\\"`, a string holding one backslash, becomes `"\\\\\"`: the closing quote now follows a backslash |
| Escapes.SourceFixUpLeavesStringOpen | src/formattedJSON.js:25-31 | the string of `"\\"` reads as one backslash, but after the fix-up it never closes, so the parse fails and `init` gives up on valid JSON |
| Escapes.EscapedQuoteShownAsWritten | src/formattedJSON.js:25-28 | an escaped quote becomes `\\\"`, which reads back as backslash and quote, the text the page showed; both fix-ups agree here |
| Escapes.IntendedKeepsClosingQuote | src/formattedJSON.js:25-28 | the corrected fix-up rewrites a valid string's inside and its closing quote separately, and leaves that quote as it is |
| Escapes.IntendedReadsRawText | src/formattedJSON.js:25-28 | after the corrected fix-up, the inside of a valid string reads back as its text exactly as written in the JSON, escapes included |
| Escapes.IntendedShowsString | src/formattedJSON.js:25-28 | on valid JSON text, the corrected fix-up makes each string read back as its raw text and stop at the string's own closing quote |
| Escapes.IntendedFixUpOfTrailingBackslash | src/formattedJSON.js:25-28 | the corrected fix-up turns `"\\"` into `"\\\\"`, which reads back as the two characters the page showed |
| Events.Owners | src/formattedJSON.js:143-151 | each element that gets a click handler is the parent of a triangle |
| Events.OwnersPerTriangle | src/formattedJSON.js:143-151 | one parent is collected per `.disclosure` element below the root |
| Events.OwnersComplete | src/formattedJSON.js:143-151 | every element of the tree that holds a triangle is collected |
| Events.OneHandlerPerTriangle | src/formattedJSON.js:142-152 | on a rendered tree, one handler per triangle, and every element holding a triangle gets one |
| Events.Page.constructor | src/formattedJSON.js:142-152 | one handler is bound per triangle, to the triangle's parent, in document order |
| Events.Page.Click | src/formattedJSON.js:145-147 | a click toggles `closed` on its own triangle's parent and changes no other element |
| Events.ClicksReachCollapsible | src/formattedJSON.js:142-152 | in the current variant a click only ever toggles a collapsible node |
| Events.LegacyHasNoTriangles | formattedJSON.js:77-141 | a tree from the earlier variant has no triangle, so nothing in it can be clicked |
| Loader.ParseBody | src/formattedJSON.js:20-32 | a body that does not parse as it is never reaches the second parse; without the unicode round-trip, a body without backslashes is parsed as it is |
| Loader.Body.constructor | src/formattedJSON.js:21 | a loaded page's body text is the raw response |
| Loader.Body.InitLegacy | formattedJSON.js:7-20 | if parsing fails, the body is untouched; otherwise it holds exactly the rendered value |
| Loader.Body.InitCurrent | src/formattedJSON.js:14-38 | if any parse fails, the body is untouched; otherwise it holds the raw text, split into lines by `<br>`s, in a first holder and the rendered value in a second |
| Loader.Body.PreparePage | src/formattedJSON.js:158-168 | the body becomes a holder with the old text, split into lines by `<br>`s, then an empty holder; reading the first holder back gives the old text with its line breaks normalized |
| Shown.CurrentShows | src/formattedJSON.js:174-279 | the current tree shows each value's literal text, strings unescaped between quote decorators, with a `,` after every value, keys in emitted order |
| Shown.LegacyShows | formattedJSON.js:77-141 | the earlier tree shows the same text, keys in enumeration order |
| Shown.SameTextUnsorted | src/formattedJSON.js:199-205 | without `sort_keys`, both variants show the same text; they differ only in structure and classes |

## Findings

| source | as written | input that shows it | evidently intended | confidence | as-written member | corrected member |
|---|---|---|---|---|---|---|
| src/formattedJSON.js:25-31 | the second rewrite re-escapes every backslash-quote pair left after the first one, including the closing quote of a string whose text ends in a backslash, so valid JSON fails to parse and the page is left unformatted | `"\\"` (also `["C:\\"]`) | a quote is re-escaped only when an odd run of backslashes comes before it, so every string still closes and shows its text as written | not executed | Escapes.SourceFixUpLeavesStringOpen | Escapes.IntendedShowsString |

## Left out

- Framing check: the abort when the page is framed is not modelled.
- Settings messages: the settings handshake with `proxy.html` is not modelled; the settings come in as a `Policy` value.
- `addStyle` and `addToolbar`: not modelled, because they only inject CSS and markup taken from outside the script. This also covers the toolbar's click handler that toggles `before` on the body.
- Element attributes: the ids `before` and `after` and the `<ol>` attribute `start="0"` are not part of the node type. The two holders appear as unnamed `<div>`s.
- `_html`: its HTML parsing through `innerHTML` is not modelled. Every markup string the renderers pass it is one of a fixed set of fragments, and each is written as the node it produces. This includes the string container, whose class attribute is one of three class lists.
- `_append`: modelled only through the renderers' results, as children concatenation.
- `JSON.parse` and `JSON.stringify`: passed in as functions, because they are the browser's own.
- Duplicate keys: `JSON.parse` keeps only the last member with a repeated key, but `Json.Json` can hold repeated keys. For such a value the model reads the first member and lists the key once per member. Every-key-once properties are stated under `UniqueKeys`.
- Member order: the order in which `for ... in` enumerates an object, with integer-like keys first, is taken as given by the parser. `Json.Json` stores members in that order.
- Current.Policy: `longStringLength` is the already-converted integer. A `parseInt` result of NaN, which makes every comparison false, is not modelled.
- Numbers: shown as their literal text. JavaScript's number-to-string conversion is not modelled.
- String length: it is counted in characters. JavaScript counts UTF-16 code units, which differs for characters outside the Basic Multilingual Plane.
- Order.LexLeq: compares characters by code point. `Array.prototype.sort` compares UTF-16 code units, which orders some characters outside the Basic Multilingual Plane differently.
- Classes.LowerChar: lowers ASCII letters only. `toLowerCase` also lowers other scripts.
- Event wiring: the registration of event listeners and the CSS that hides `closed` content are not modelled. A click is a call of `Page.Click`.
