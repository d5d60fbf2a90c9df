# Cryptic clue annotation and answer mapping, in Dafny

This project models the logic of a cryptic-crossword trainer (`script.js`).
The trainer shows one clue at a time. It marks the clue's definition,
indicator and fodder words as spans with tooltips. For each wordplay part it
works out which squares of the answer that part accounts for. The player
types letters into the answer squares, deletes them, reveals one, and
submits a guess.

The model covers the trainer's core:

- **Answer normalisation** (`Text`). The answer loses its whitespace and is
  upper-cased. The result sets the number of squares and is what guesses are
  compared with.
- **Range claiming** (`Claims`). `claimRange` accepts a closed interval only
  if it is well formed and meets no earlier claim. `findAndClaim` searches the
  lower-cased clue for a token and claims its leftmost free occurrence,
  retrying from the next offset after a collision. Both are closures over the
  annotation builder's list of claims; here they take that list and return
  the extended one. The functions `ClaimOne` and `ClaimAll` specify them.
- **Claim order and rendering** (`Annotate`, `Render`, `Html`).
  - Definitions are claimed first: the two meanings of a double definition,
    or else every definition word. Indicator words come next, then fodder
    word `i` with `data-part="i"`.
  - The claims are sorted by start and the clue is walked left to right. Text
    between spans is escaped; each span becomes a `<span>` element with its
    class, tooltip and attributes, around its escaped text.
  - Two reference functions state what the markup means. `StripTags`
    removes tags, standing in for reading the element's text. `Unescape`
    undoes the four entities.
- **Indicator tooltips** (`Catalog`). There are eleven named categories,
  looked up without regard to case. Anything else gets `"Indicator"`.
- **Part mapping** (`PartMapper`). Each part maps to answer squares by one
  of three rules:
  - explicit indices, filtered to the answer;
  - an inclusive range whose ends may come in either order, clamped to the
    answer;
  - or, for yielded letters, the leftmost place where they spell the answer
    and use no square an earlier part claimed.
- **Letter entry** (`Entry`). A `Game` class holds the normalised answer, the
  squares, the active square and the part mappings. Its methods cover
  loading a clue, moving the active square, filling a square, handling a key,
  submitting and revealing a letter.

The source loops become methods with loop invariants. Each is proved equal
to a specification function, and the properties are proved about those
functions as lemmas.

## Model

| member | source | states |
|---|---|---|
| Text.UpperCase | script.js:115 | `toUpperCase` over ASCII keeps the length and leaves no lower-case letter |
| Text.LowerCase | script.js:187 | `toLowerCase` over ASCII keeps the length and leaves no upper-case letter |
| Text.RemoveWhitespaceRuns | script.js:115 | removing the runs of whitespace leaves no whitespace and never lengthens the text |
| Text.NormalizeAnswer | script.js:115 | the normalised answer holds no whitespace and no lower-case letter and is never longer than the answer |
| Text.RunsAreDeletedCharwise | script.js:115 | replacing each run of whitespace by nothing equals deleting every whitespace character on its own |
| Text.NormalizeAnswerConcat | script.js:115 | normalisation distributes over concatenation, so it works character by character in order |
| Text.NormalizeAnswerChar | script.js:115 | a whitespace character normalises to nothing and any other character to its upper-case form |
| Text.NormalizedIsFixed | script.js:115 | text without whitespace or lower-case letters is left unchanged |
| Text.NormalizeAnswerIdempotent | script.js:115 | normalising twice is the same as normalising once |
| Text.LowerOfUpper | script.js:140 | lower-casing after upper-casing equals lower-casing, so case-insensitive lookups ignore an earlier upper-casing |
| Html.EscapeHTML | script.js:250-252 | the chain of four replaces leaves no `<`, `>` or `"`: no later replace brings back a character an earlier one removed |
| Html.EscapeHTMLChar | script.js:250-252 | the chain of four replaces escapes one character exactly as its own entity (or leaves it) |
| Html.EscapeHTMLConcat | script.js:250-252 | escaping distributes over concatenation |
| Html.EscapeHTMLIsPerChar | script.js:250-252 | the chain of replaces equals the per-character substitution, so no entity is escaped twice |
| Html.EscapeHTMLSafe | script.js:250-252 | escaped text has no `<`, `>` or `"`, and every `&` in it starts one of `&amp;`, `&lt;`, `&gt;`, `&quot;` |
| Html.UnescapeStep | script.js:251 | reading back an escaped character followed by anything yields that character first |
| Html.UnescapeEscapeHTML | script.js:250-252 | undoing the entities of escaped text gives the text back (round trip) |
| Html.StripTagsText | script.js:239 | tag-free text passes through tag removal unchanged |
| Html.StripTagsTag | script.js:243 | a whole tag from `<` to `>` contributes nothing to the text |
| Catalog.Name | script.js:141-151 | every category name is already lower case, so the lower-cased switch can match it |
| Catalog.ParseClueType | script.js:140-153 | a recognised category is one whose lower-cased string is that category's name |
| Catalog.ParseName | script.js:140-152 | a string selects a category if and only if it lower-cases to that category's name |
| Catalog.Tooltip | script.js:141-151 | every category has a non-empty tooltip, and none of them is the default `"Indicator"` |
| Catalog.IndicatorTooltipByType | script.js:139-154 | the tooltip is never empty, and it is `"Indicator"` exactly when the category is not one of the eleven |
| Catalog.IndicatorTooltipIgnoresCase | script.js:140 | upper-casing the category does not change its tooltip |
| Claims.DisjointAppend | script.js:192-196 | appending a range keeps the claims pairwise disjoint if and only if it meets none of them |
| Claims.ClaimRange | script.js:190-197 | accepts exactly a well-formed interval meeting no claim; it then appends one range, else leaves the list unchanged; well-formedness and disjointness are preserved |
| Claims.IndexOf | script.js:202-205 | `indexOf` from an offset returns an occurrence at or after it with none earlier, or -1 when there is none; an empty needle is found at the offset |
| Claims.FirstPlaceable | script.js:202-206 | the smallest offset where the token occurs and meets no claim, or -1 if none exists |
| Claims.FindAndClaim | script.js:199-207 | the search-and-retry loop claims what the reference claim function claims |
| Claims.ClaimOneLeftmost | script.js:199-207 | an empty token changes nothing; otherwise the list is unchanged if and only if no free occurrence exists, or one range is appended at the leftmost free occurrence with the request's labels |
| Claims.ClaimOneValid | script.js:190-207 | one claim keeps the list well formed, pairwise disjoint, inside the clue and free of `>` in labels |
| Claims.ClaimAllValid | script.js:209-234 | a whole sequence of claims keeps the same invariant |
| Claims.ClaimAllKeepsEarlier | script.js:209-234 | later claims only append: claims made for a prefix of the requests stay a prefix of the result, with at most one range per request |
| Claims.ClaimAllSnoc | script.js:209-234 | claiming one more request is one more claim step on the earlier result |
| Claims.ClaimAllCovers | script.js:199-234 | every claimed range lies over an occurrence of some request's token and carries that request's class, tooltip and attributes |
| Render.InsertByStart | script.js:236 | insertion keeps every range and adds exactly one |
| Render.InsertSorted | script.js:236 | inserting into a list sorted by start keeps it sorted |
| Render.SortByStart | script.js:236 | the sorted list is a permutation of the claims, ordered by start |
| Render.SortKeepsMembers | script.js:236 | sorting neither adds nor loses a range |
| Render.SortChained | script.js:236 | sorting disjoint well-formed claims makes each end before the next begins |
| Render.Slice | script.js:239-246 | `slice` agrees with the subsequence for in-range bounds, runs to the end for a bound past it, and is empty for crossed bounds |
| Render.AttrList | script.js:241 | the attribute list is empty exactly when there are no extra attributes, and holds no `>` when no key does |
| Render.TipAttr | script.js:242 | the `data-tip` attribute is present exactly for a non-empty tooltip and holds no `>` |
| Render.TagBody | script.js:241-243 | with a class and keys free of `>`, the opening tag holds no `>` before its end |
| Render.AppendGap | script.js:240-246 | appends the escaped text between the walk position and the next span, and nothing when there is none |
| Render.AppendSpan | script.js:241-243 | appends one span element: opening tag with class, tooltip and attributes, the escaped covered text, the closing tag |
| Render.RenderRanges | script.js:237-247 | the render loop produces the markup of the sorted ranges, and with no ranges the escaped clue |
| Render.SpanText | script.js:243 | a span contributes exactly the escaped text it covers |
| Render.GapText | script.js:239 | a gap contributes exactly the escaped text between two spans |
| Render.MarkupText | script.js:237-247 | from any walk position, the text of the markup is the escaped rest of the clue |
| Render.MarkupReconstructs | script.js:236-247 | for valid claims, removing tags gives the escaped clue and undoing entities then gives the clue exactly |
| Annotate.Digit | script.js:232 | a digit character has the digit's value |
| Annotate.DecimalString | script.js:232 | `String(i)` is non-empty, all digits, and starts with `0` only for zero |
| Annotate.DecimalRoundTrip | script.js:280 | `Number` reads the `data-part` value written by `String(i)` back as `i` |
| Annotate.DefinitionRequests | script.js:209-217 | two claims for a double definition with two meanings, else one per definition word; all safe to serialise |
| Annotate.IndicatorRequests | script.js:219-225 | one claim per indicator word, in order, each with a non-empty tooltip; all safe to serialise |
| Annotate.FodderHint | script.js:231 | the tooltip of a fodder span is never empty |
| Annotate.FodderRequests | script.js:227-234 | one claim per fodder word, in order, claim `k` with `data-part` set to `k` and a non-empty tooltip; all safe to serialise |
| Annotate.ClaimDefinitions | script.js:209-217 | the definition section claims exactly what claiming the definition requests in order claims |
| Annotate.ClaimIndicators | script.js:219-225 | the indicator loop extends the earlier claims exactly as claiming the indicator requests in order does |
| Annotate.ClaimFodder | script.js:227-234 | the fodder loop extends the earlier claims exactly as claiming the fodder requests in order does |
| Annotate.AnnotationRanges | script.js:209-234 | the claims for a clue are well formed, pairwise disjoint, inside the clue text and safe to serialise |
| Annotate.RequestsSafe | script.js:210-234 | every class name and attribute key the builder uses is free of `>` |
| Annotate.BuildAnnotatedClueHTML | script.js:185-248 | the builder returns the markup of the sorted claims; its tag-free text is the escaped clue and unescapes to the clue; with no claims it is the escaped clue |
| Annotate.DefinitionsFirst | script.js:209-234 | the definitions' claims and then the indicators' claims survive unchanged as prefixes of the final claims; there is at most one claim per request |
| Annotate.IndicatorInsideDefinition | script.js:199-225 | an indicator word every occurrence of which meets a definition span adds no claim, whatever the earlier indicators claimed |
| Annotate.FodderSpanPart | script.js:228-234 | a fodder span covers an occurrence of fodder word `i`, carries `data-part` set to `i` and has part `i`'s hint (or the generic one) as its tooltip |
| Annotate.DefinitionBeatsIndicator | script.js:209-225 | example: in the clue "Stop", with "stop" both a definition and an indicator word, the only claim is the definition |
| PartMapper.InBounds | script.js:311-312 | the filter keeps exactly the indices inside the answer, never adds any, and keeps all of them when all are inside |
| PartMapper.InBoundsConcat | script.js:312 | the filter keeps the order of the indices: filtering a concatenation concatenates the filtered pieces |
| PartMapper.Interval | script.js:316 | the interval lists each integer from its low end to its high end once, in increasing order |
| PartMapper.FirstFit | script.js:318-333 | the position found is the leftmost where the letters fit, or -1 when they fit nowhere |
| PartMapper.PartMapping | script.js:309-334 | every square a part maps to lies inside the answer, and a part mapped by its yielded letters uses no claimed square |
| PartMapper.ComputePartMappings | script.js:304-339 | the loop over parts, with its running claimed set, computes the reference mappings |
| PartMapper.AddAll | script.js:335 | adding each index grows the claimed set by exactly the mapping's elements |
| PartMapper.MapPart | script.js:309-334 | the branch chosen per part computes that part's reference mapping |
| PartMapper.CountUp | script.js:316 | the range loop produces every integer from start to end |
| PartMapper.PlaceYield | script.js:318-333 | the nested search loops with early exit produce the interval at the leftmost fit, or nothing |
| PartMapper.RangeExact | script.js:313-317 | a range maps exactly to the integers between its clamped, ordered ends, in increasing order |
| PartMapper.RangeReversedBounds | script.js:313-317 | the range [2, 0] over an answer of length 5 maps to 0, 1, 2 |
| PartMapper.YieldLeftmost | script.js:318-333 | yielded letters map to nothing if and only if they fit nowhere; otherwise to consecutive squares at the leftmost fit, none claimed earlier, spelling the letters |
| PartMapper.ClaimedByUnion | script.js:335 | the claimed set is the union of all mappings so far |
| PartMapper.MappingsShape | script.js:304-339 | there is one mapping per part, each computed against the squares claimed by the parts before it, with every index inside the answer |
| PartMapper.YieldAvoidsEarlierParts | script.js:318-335 | a yielded-letters part never uses a square of an earlier part |
| PartMapper.FirstYieldOfABC | script.js:318-333 | "abc" in "ABCABC" maps to 0, 1, 2 |
| PartMapper.SecondPlaceOfABC | script.js:318-333 | with 0, 1, 2 claimed, "ABC" next fits at 3 |
| PartMapper.RepeatedYieldsTakeNextPlace | script.js:318-335 | two parts yielding "abc" in "ABCABC" map to 0, 1, 2 and 3, 4, 5 |
| PartMapper.AbsentYieldMapsToNothing | script.js:332 | "NGIS" against "LIBRA" maps to nothing |
| PartMapper.ExplicitIndicesMayOverlap | script.js:310-335 | example: parts with indices [0, 1] and [1] over "AB" map to [0, 1] and [1], overlapping |
| PartMapper.ExplicitIndicesIgnoreClaims | script.js:311-317 | a part with explicit indices or a two-element range maps the same whatever squares are claimed |
| Entry.Join | script.js:380-381 | the joined guess is empty exactly when every square is empty |
| Entry.IsLetterKey | script.js:363-366 | a key that passes the letter test upper-cases to exactly one capital letter |
| Entry.EmptySquares | script.js:426 | the empty squares are exactly the squares holding nothing, in increasing order |
| Entry.Game.constructor | script.js:115-119 | loading a clue sets the normalised answer, one empty square per letter, the first square active and the part mappings |
| Entry.Game.UpdateActiveSquare | script.js:341-349 | the active square moves to the target clamped to the squares; with no squares nothing changes |
| Entry.Game.FillSquare | script.js:371-377 | only the named square changes, and only if it exists |
| Entry.Game.OnSubmit | script.js:379-387 | the verdict is correct exactly when the joined letters are non-empty and equal the answer |
| Entry.Game.HandleKey | script.js:351-369 | Enter submits; Backspace empties the active square and steps back, stopping at 0; a letter fills the active square in upper case and steps forward unless on the last square; other keys or no squares change nothing |
| Entry.Game.RevealLetter | script.js:424-432 | with no empty square nothing changes; otherwise the chosen empty square gets its answer letter and the square after it (or the last) becomes active |
| Entry.Game.ClickSquareAsWritten | script.js:261-272 | as written, a click on any square activates the last square, so with two or more squares a click on the first misses it |
| Entry.Game.ClickSquare | script.js:270 | as intended, a click on square `idx` makes exactly that square active and changes nothing else |
| Entry.JoinLength | script.js:380 | the joined guess is no longer than the squares, and as long exactly when every square is filled |
| Entry.JoinFilled | script.js:380 | with every square filled, letter `i` of the guess is square `i`'s letter |
| Entry.SubmitIsCorrectIff | script.js:379-387 | a guess is correct if and only if the answer is non-empty and every square holds the answer's letter at that position |

Two consequences of the code:

- The tooltip catalog has eleven categories plus the default `"Indicator"`.
- In the clue "Star sign reversed (5)" with definition "Star sign" and
  fodder word "sign", the only occurrence of "sign" (offset 5) lies inside
  the definition span 0..8, which is claimed first. So `findAndClaim` finds
  no free occurrence and, as `Claims.ClaimOneLeftmost` states, "sign" gets
  no fodder span.

## Left out

- The page itself is not part of this model: reading and writing elements,
  CSS classes, focus, event listeners, timers, the menu and button
  disabling, the hint flags and the plain-clue mode (`renderClueLine`,
  `onChangeClue`, `onRevealDefinition`, `onRevealStructure`). None of these
  has behaviour beyond showing the state.
- `renderAnswerSquares` builds one square element per character of each
  whitespace-separated word of the upper-cased answer and wires each
  square's click to `updateActiveSquare`. The elements are not modelled.
  The words hold every character that is not whitespace, so their count is
  the number of letters of the normalised answer. The click handler is modelled as
  `Entry.Game.ClickSquareAsWritten` (see Findings).
- `onFodderEnter`/`onFodderTouch`, `applyMappedSquares` and
  `clearMappedSquares` only colour squares. The model covers their one
  computation, reading `data-part` back (`Annotate.DecimalRoundTrip`).
- Fetching the clue list, starting the game, advancing to the next clue,
  and the fireworks animation (I/O, floating point, animation frames).
- Entry.Game.HandleKey: the early return while the game panel is hidden is a
  page state and is not modelled.
- Entry.Game.RevealLetter: the random choice is the parameter `pick`, used as
  `pick % (number of empty squares)`.
- Entry.Game.FillSquare: requires a string of at most one character. Every
  caller passes an empty string or a single letter.
- The number of squares on the page is taken to be the number of letters of
  the normalised answer. Loading a clue creates exactly that many.
- Whitespace (`\s`) and case mapping are modelled over ASCII. The Unicode
  whitespace class and Unicode case mapping are not modelled.
- A string is a sequence of Unicode characters, and one character is taken
  to be one UTF-16 code unit. JavaScript's `.length` and `[i]` count code
  units, so answers with characters outside the Basic Multilingual Plane are
  not modelled. For them, the square count, the squares, the positions where
  yielded letters are placed and the revealed letter would differ.
- Absent optional clue fields are modelled as empty strings or sequences.
  Every read in the modelled code treats absence and emptiness alike. The
  non-integer filter on explicit indices is not modelled, because indices
  are integers here.
- `Array.prototype.sort` is modelled as an insertion sort by start. Claims
  are disjoint, so their starts are distinct and any correct sort gives the
  same order.
- The `yields` field of a part is named `yielded`, because `yields` is a
  Dafny keyword.
- No member models the missing-clue branch of `loadClue`, which ends the game.

## Findings

| source | as written | input that shows it | evidently intended | confidence | as-written member | corrected member |
|---|---|---|---|---|---|---|
| script.js:261-272 | every square's click handler calls `updateActiveSquare(globalIndex)` on the one function-scoped counter, which equals the number of squares once the loop ends | answer "AB"; click the first square: square 1 becomes active, not square 0 | the clicked square becomes active (a per-square copy of the index) | high; not executed | Entry.Game.ClickSquareAsWritten | Entry.Game.ClickSquare |
