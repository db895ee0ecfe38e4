# color-picky: colour parsing and the point-colour search

This project models the core of the color-picky browser extension's
content script (`content.js`), in Dafny, and proves properties of it:

- `parseColor` turns a CSS colour string into a red/green/blue triple, or
  `null`. It tries three forms in order: the functional `rgb(`/`rgba(` form,
  a `#` with 3 or 6 hexadecimal digits, and then anything else after the
  browser has canonicalised it, matched by the functional pattern again. It
  is pure string processing with one host call, and is modelled as functions
  (`ColorParser.ParseColor`). The host canonicaliser is a parameter
  `canon: string -> string` with no defined behaviour.
- `getColorAtPoint` finds the colour under the mouse with a three-phase,
  first-match-wins search over the element tree. Phase 1 reads the hit
  element's own computed colours. Phase 2 walks from the element itself up
  the `parentElement` chain and tries the paints of SVG shapes. Phase 3
  walks from the parent upward and tries each computed background. It is
  imperative code: a `for` loop and two `while` loops with early returns. It
  is modelled as methods with loops (`PointResolver.GetColorAtPoint` and one
  method per phase). Each method is proved against a specification: the list
  of every candidate colour string in search order (`Candidates`) and the
  first candidate that passes its skip rule and parses (`FirstColor`). A ghost
  out-parameter records, in order, the candidates put to the skip rule (and to
  the parser when they pass it). It is proved equal to `Examine`, the prefix
  of the list up to and including the winner. The trace is not a record of
  reads: at an SVG element the source reads both attributes (content.js:121-122)
  and both computed paints (content.js:138-139) before it tries either of them.

Modules, one per file:

| file | module | contents |
|---|---|---|
| options.dfy | `Options` | `Option` and `OrElse` |
| seq_facts.dfy | `SeqFacts` | small sequence lemmas used at explicit proof steps |
| css_text.dfy | `CssText` | character classes of `\d`, `\s` and `[0-9a-f]` (with `i`); digit and space runs; `Number()` and `parseInt(_, 16)` values |
| color_parser.dfy | `ColorParser` | the functional pattern as a parse tree with its spelling, the hexadecimal form, `ParseColor` |
| dom_tree.dfy | `DomTree` | elements with a tag, attributes, computed style, parent and a depth measure; the `parentElement` chain |
| point_resolver.dfy | `PointResolver` | candidates, skip rules, the first-match search, the phase methods and `GetColorAtPoint` |

The functional pattern `/^rgba?\((\d+),\s*(\d+),\s*(\d+)/i` is deterministic.
Each `\d+` and `\s*` is followed by a character it cannot consume, or by
nothing. So greedy longest-run scanning (`Split`) gives exactly the regular
expression's match. `SplitSound` and `SplitSpelling` prove this in both
directions against the grammar (`WellFormed` / `Spelling`). `\s` is
ECMAScript's white-space and line-terminator set.

Three behaviours of the code are easy to misread:

- Phases 1 and 3 skip only the empty string, `transparent` and the exact
  text `rgba(0, 0, 0, 0)` (content.js:103, 162). Any other zero-alpha
  spelling, such as `rgba(255, 0, 0, 0)` or `rgba(0,0,0,0)`, is parsed, and
  its alpha is dropped.
- In phase 2, an SVG element whose four paints all fail does not end the
  phase. The walk goes on to the next ancestor (content.js:153).
- Phase 3 starts at the parent of the hit element, not at the element
  itself (content.js:157).

## Model

| member | source | states |
|---|---|---|
| CssText.DigitRun | content.js:46 | `\d+` reads the longest run of decimal digits at the front: all of it digits, the next character not a digit |
| CssText.SpaceRun | content.js:46 | `\s*` reads the longest run of white space at the front, and the next character is not white space |
| CssText.DecimalTextValue | content.js:48 | `Number` of the decimal spelling of `n` is `n` (decimal text and value are inverse) |
| CssText.HexPairValue | content.js:57-59 | `parseInt` of two hexadecimal digits in base 16 is below 256 |
| ColorParser.OpeningLength | content.js:46 | the length read for `rgba?\(` is 0 or spans a case-insensitive `rgb(` or `rgba(` |
| ColorParser.DigitCapture | content.js:46 | a capture `(\d+)` is a non-empty digit run, followed by a non-digit or the end, and the pieces spell the input |
| ColorParser.Field | content.js:46 | `(\d+),\s*` reads digits, a comma and the maximal white space after it, and the pieces spell the input |
| ColorParser.SplitSound | content.js:46 | whatever the functional pattern matches is a well-formed spelling of the whole input |
| ColorParser.SplitSpelling | content.js:46 | every well-formed spelling is matched and split back into exactly its parts |
| ColorParser.MatchRgbExactly | content.js:46-50 | the functional pattern gives `c` if and only if the string is a well-formed spelling whose three numbers are `c` |
| ColorParser.MatchRgbSound | content.js:46-50 | a match's numbers come from a well-formed spelling of the input |
| ColorParser.MatchRgbComplete | content.js:46-50 | every well-formed spelling is matched with its three numbers |
| ColorParser.ParseSpelledRgb | content.js:46-50 | a string of the functional form parses to its three numbers, whatever the host does |
| ColorParser.ParseRgbFunctionText | content.js:46-50 | reading back `rgb(r, g, b)` gives `r`, `g`, `b` (round trip) |
| ColorParser.ParseRgbaDropsAlpha | content.js:46-50 | `rgba(r, g, b, alpha)` parses to `r`, `g`, `b` for every alpha text, `0` included |
| ColorParser.MatchHex | content.js:54-60 | the hexadecimal pattern matches exactly `#` plus 3 or 6 hex digits; every channel is below 256 |
| ColorParser.ParseHexForm | content.js:54-63 | a hexadecimal string is parsed by the hex branch, never by the host, and succeeds with channels in [0, 255] |
| ColorParser.ShortHexIsDoubled | content.js:57-59 | `#rgb` parses to the same colour as `#rrggbb` |
| ColorParser.ParseHexText | content.js:54-63 | reading back the `#rrggbb` spelling of a byte-sized colour gives that colour (round trip) |
| ColorParser.ParseHexIgnoresCase | content.js:54-60 | under the `i` flag, a hexadecimal string parses to the same colour as its lower-case spelling, so `#ABCDEF` gives what `#abcdef` gives |
| ColorParser.HexTextOfParse | content.js:54-60 | printing the colour parsed from `#rrggbb` gives the string back in lower case (the other half of the round trip) |
| ColorParser.WhiteInHex | content.js:54-63 | `#fff` and `#ffffff` both give white (255, 255, 255) |
| ColorParser.ParseThroughHost | content.js:66-79 | a string of neither form gives `c` if and only if the host's canonical form of it is a functional spelling of `c`; otherwise `null` |
| ColorParser.HostOnlyForOtherForms | content.js:46-63 | for functional and hexadecimal strings the result does not depend on the host |
| ColorParser.HexOrigin | content.js:54-63 | a hexadecimal string gives the colour whose lower-case `#rrggbb` spelling is the input's, with `#rgb` read as `#rrggbb` |
| ColorParser.ParseColorOrigin | content.js:42-80 | every result comes from one of the three branches: a functional spelling of the input, the input's own hex digits (the colour prints back as the input's six-digit spelling), or a functional spelling of the host's canonical form |
| DomTree.Ancestry | content.js:113-114 | the chain starts at the element itself, and every member is an element of the document |
| DomTree.AncestryLink | content.js:153 | each member of the chain is followed by its `parentElement`, and the last has none |
| PointResolver.FirstMatch | content.js:100-110 | first match wins: nothing is found if and only if every candidate is rejected; otherwise everything examined before the winner was rejected and nothing after it was examined |
| PointResolver.OwnStyleColor | content.js:92-110 | the `for` loop returns the first own colour that passes and parses, and examines exactly the properties up to it |
| PointResolver.SvgElementColor | content.js:120-151 | at an SVG element, fill attribute, stroke attribute, computed fill and computed stroke are tried in that order, and the first that passes wins |
| PointResolver.SvgColor | content.js:113-154 | the walk from the element itself upward returns the first SVG paint of the chain that passes, and skips non-SVG elements |
| PointResolver.ParentBackgroundColor | content.js:157-170 | the walk from the parent upward returns the first ancestor background that passes, and examines each ancestor once, in order |
| PointResolver.GetColorAtPoint | content.js:82-174 | no element gives `null` with nothing examined; otherwise the result is the first colour of the three phases in order, and the candidates examined are those up to it |
| PointResolver.SvgPhaseAt | content.js:113-154 | the SVG paints of the chain are those below the `i`-th element, then its own, then those above it |
| PointResolver.SvgPhaseOnlySvgElements | content.js:115-117 | phase 2 only examines elements of the chain whose tag is one of the six SVG names |
| PointResolver.BackgroundPhaseAt | content.js:157-170 | phase 3 has one candidate per ancestor, the `i`-th being that ancestor's computed background |
| PointResolver.AncestryRises | content.js:153 | every element above the hit element in its chain is strictly closer to the root, so the walks end |
| PointResolver.WinnerAt | content.js:100-110 | when the candidate at `k` is the first not rejected, the search returns its colour and has examined exactly the first `k + 1` candidates |
| PointResolver.OwnStyleWins | content.js:100-110 | when the `k`-th own property is the first to pass, its colour is returned, and no later property, SVG paint or background is examined |
| PointResolver.SvgPaintWins | content.js:113-154 | when phase 1 fails and the `k`-th paint of the `i`-th chain element is the first paint to pass, that paint is returned and no background is examined |
| PointResolver.ParentBackgroundWins | content.js:157-170 | when phases 1 and 2 fail, the background of the first ancestor (from the parent up) that passes is returned |
| PointResolver.BackgroundsStartAboveHit | content.js:157 | phase 3 never examines the hit element's own background |
| PointResolver.NothingFound | content.js:172-173 | `null` comes back if and only if there is no element or every candidate of all three phases is rejected; then every candidate was examined |
| PointResolver.NothingFoundMeansNoAncestorBackground | content.js:157-173 | a `null` result means every ancestor's background, up to the root, was rejected |
| PointResolver.TransparencyIsLiteral | content.js:103 | phases 1 and 3 skip `""`, `transparent` and the exact text `rgba(0, 0, 0, 0)`, but hand `rgba(255, 0, 0, 0)` and `rgba(0,0,0,0)` to the parser |
| PointResolver.SvgSkipRule | content.js:124-147 | phase 2 skips `none` and empty values but hands `transparent` to the parser |

## Left out

- `rgbToOklch` (content.js:4-40) is not modelled. It is IEEE floating-point arithmetic (powers, cube roots, `atan2`) with `toFixed` formatting.
- The body of the named-colour fallback (content.js:66-70) is not modelled. It creates a `div`, sets its `color`, and reads the computed colour back. This is the `canon` parameter. Nothing is assumed about the string it returns.
- ColorParser.ParseColor: the host call is assumed to return. `canon` is a total function, and the model has no exceptions. At content.js:68, `document.body.appendChild` throws a `TypeError` when the document has no `body`, for example a standalone SVG document. That exception escapes `parseColor` and `getColorAtPoint` (content.js:104, 126, 132, 143, 149, 163). The model covers documents that have a `body`, which ordinary HTML pages have once they have loaded.
- `document.elementFromPoint(x, y)` is not modelled. It is the `hit` parameter of `GetColorAtPoint`, where `None` stands for `null`. Coordinates and hit detection are the browser's.
- `pickColor`, `startPicking`, `stopPicking`, the message listener and the `isPicking` flag (content.js:176-273) are not modelled. They are host glue: event listeners, cursor styling, extension messaging, screenshot capture, canvas sampling, the clipboard and notifications.
- popup.js, background.js and generate_icons.js are not modelled. They handle extension messaging, tab capture and icon drawing.
- `console.log` calls are left out. They have no effect on results.
- ColorParser.Channels: numbers are unbounded `nat`s. The precision loss of `Number()` on digit strings longer than about 15 digits is not modelled.
- PointResolver.GetColorAtPoint: a `getAttribute` result of `null` and an empty attribute are both read as `""`. The source treats both as falsy and skips them alike.
- PointResolver.GetColorAtPoint: the computed style is a map from property name to string. A property it does not list reads as `""`. The browser's style cascade is not modelled.
- PointResolver.GetColorAtPoint: the element tree carries a `depth` per element that decreases from child to parent. This stands for the finiteness of the real tree, so that the upward walks end.
- PointResolver.OwnStyleColor, PointResolver.SvgColor, PointResolver.ParentBackgroundColor: these take the parse function as a parameter. `GetColorAtPoint` passes them `parseColor` with the host's canonicaliser fixed, so they are stated for any parse function.
