# Slang analyzer: highlighting, submit state and summarize endpoint

A Dafny model of the logic in a slang-analysis web app. The app sends text to a
generative-AI service and shows the slang terms it finds, highlighted in place.
Three pieces are modelled.

- **`renderAnalyzedText`** (`src/components/slang-analyzer.tsx`). It cuts the
  submitted text into plain fragments and slang terms. Its steps:
  - builds a term→item `Map`, where the last item with a term wins;
  - sorts the terms longest first, with a stable sort;
  - escapes the regular-expression metacharacters in each term;
  - builds the pattern `(t1|t2|...)`;
  - splits the text on it, keeping the captured terms;
  - drops the empty pieces;
  - shows each piece that is a key of the map as a slang term and every other
    piece as plain text.

  The model follows each of these steps:
  - `RegexEscape` covers escaping and the pattern text, and also how an engine
    reads the pattern back: as an alternation of literals.
  - `TermOrder` is the stable length sort.
  - `RegexSplit` is the `RegExp.prototype[@@split]` loop of section 22.2.6.14 of
    ECMA-262, with its `p`/`q` indices, the empty-match rule and the
    empty-string case.
  - `AnalyzedText` is the rendering itself.
  - `Highlighting` states, without regular expressions, what a correct
    highlighting is: a slang segment is the longest term starting where it
    starts and shows the last item with that term; a plain segment is a maximal
    stretch where no term starts.
  - `RenderCorrectness` proves that the rendered segments are that highlighting,
    and since `Highlighting.HighlightsIsUnique` shows there is only one, they are
    the only correct answer.
- **`onSubmit`** and the component state (`slang-analyzer.tsx`). This is the
  class `SlangAnalyzerState.SlangAnalyzer`.
  - It has one field per `useState` hook.
  - The submit is split at its `await` into `BeginAnalysis` and `Settle`.
  - It has two view functions for what the page draws from that state.
- **`POST /api/summarize`** (`src/app/api/summarize/route.ts`). This is the
  `SummarizeRoute` module. It is a function from the outcome of parsing the body
  and the outcome of the summarization flow to the status and JSON payload.

The highlighter uses no span positions: it finds the terms in the text with a
regular expression built from the term strings.

## Model

| member | source | states |
|---|---|---|
| RegexEscape.EscapeRoundTrip | src/components/slang-analyzer.tsx:79 | escaping a term yields a well-formed literal pattern (a backslash before each of `- / \ ^ $ * + ? . ( ) \| [ ] { }`, other characters unchanged), and unescaping it gives the term back |
| RegexEscape.UnescapeRoundTrip | src/components/slang-analyzer.tsx:79 | every well-formed literal pattern is the escape of its unescaping, so escaping is a bijection onto those patterns |
| RegexEscape.EscapeAppend | src/components/slang-analyzer.tsx:79 | the global replace escapes each character on its own: escaping a concatenation is the concatenation of the escapes |
| RegexEscape.EscapedTermMatchesLiterally | src/components/slang-analyzer.tsx:79-80 | the escaped term, read as a pattern, matches at an index exactly when the term itself occurs there, and consumes exactly its length |
| RegexEscape.OccursAtCons | src/components/slang-analyzer.tsx:80 | a non-empty term occurs at an index exactly when its first character is there and the rest occurs right after it |
| RegexEscape.TopLevelAlternatives | src/components/slang-analyzer.tsx:80 | reading an alternation always yields at least one alternative |
| RegexEscape.EscapeAll | src/components/slang-analyzer.tsx:79 | `sortedTerms.map(escape)` has one escaped term per term |
| RegexEscape.LiteralPrefixAlternatives | src/components/slang-analyzer.tsx:79-80 | an escaped term contains no top-level `\|`, so it stays inside the alternative it starts |
| RegexEscape.JoinThenSplit | src/components/slang-analyzer.tsx:80 | joining escaped terms with `\|` and reading the result as an alternation gives back exactly those patterns, in order |
| RegexEscape.PatternAlternativesAreTerms | src/components/slang-analyzer.tsx:79-80 | the pattern `(${escapedTerms.join('\|')})` built from the sorted terms is the alternation of exactly those terms as literals, tried in sorted order |
| TermOrder.InsertByLength | src/components/slang-analyzer.tsx:71-73 | inserting a term into a longest-first list keeps it longest first, with one more element |
| TermOrder.InsertIsPermutation | src/components/slang-analyzer.tsx:71-73 | insertion adds exactly the new term to the multiset of terms |
| TermOrder.SortByLengthDesc | src/components/slang-analyzer.tsx:71-73 | the sort by `b.length - a.length` yields non-increasing lengths and keeps the number of terms |
| TermOrder.SortIsPermutation | src/components/slang-analyzer.tsx:71-73 | the sorted list is a permutation of the analysis terms |
| TermOrder.InsertKeepsEqualLengthOrder | src/components/slang-analyzer.tsx:71-73 | insertion puts a term behind no term of its own length, so equal-length terms keep their relative order |
| TermOrder.SortIsStable | src/components/slang-analyzer.tsx:71-73 | the sort is stable: the terms of each length appear in the same order as in the analysis |
| TermOrder.SortedTermsAreTheTerms | src/components/slang-analyzer.tsx:71-77 | the sorted list is as long as the analysis and holds exactly its terms, so the emptiness check on lines 75-77 cannot fire after line 65 |
| RegexSplit.FirstMatch | src/components/slang-analyzer.tsx:80-81 | the alternative the engine takes at an index is an alternative that occurs there, and there is none exactly when no alternative occurs there |
| RegexSplit.FirstMatchIsLongest | src/components/slang-analyzer.tsx:71-81 | with longest-first alternatives, the alternative taken at an index is at least as long as every alternative occurring there |
| RegexSplit.SplitFromMatch | src/components/slang-analyzer.tsx:81 | a non-empty match at `q` emits the piece before it and the captured term, then resumes after the match |
| RegexSplit.ConcatAppend | src/components/slang-analyzer.tsx:81 | gluing pieces together distributes over appending lists of pieces |
| RegexSplit.NonEmptyPartsKeepsText | src/components/slang-analyzer.tsx:81 | `.filter(Boolean)` leaves no empty piece and does not change the concatenated text |
| RegexSplit.NonEmptyPartsAppend | src/components/slang-analyzer.tsx:81 | filtering distributes over appending lists of pieces |
| RegexSplit.SplitFromConcat | src/components/slang-analyzer.tsx:81 | every state of the split loop emits pieces that spell the rest of the text from where the current piece began |
| RegexSplit.SplitRoundTrip | src/components/slang-analyzer.tsx:80-81 | for any alternatives, even an empty one, the split pieces, with or without the empty ones, concatenate to the input |
| AnalyzedText.LastWithTermIsLatest | src/components/slang-analyzer.tsx:69 | the last item with a term is found exactly when some item has the term, and no later item has it |
| AnalyzedText.SlangMapTakesLatest | src/components/slang-analyzer.tsx:69 | the keys of `new Map(analysis.map(...))` are exactly the terms, and each maps to the last item with that term |
| AnalyzedText.Classify | src/components/slang-analyzer.tsx:85-90 | classifying the parts gives one segment per part |
| AnalyzedText.ClassifyAppend | src/components/slang-analyzer.tsx:85-90 | classification distributes over appending lists of parts |
| AnalyzedText.ClassifyKeepsText | src/components/slang-analyzer.tsx:85-90 | when every key maps to an item with that key as its term, each segment spells its part and the segments together spell the concatenated parts |
| AnalyzedText.RenderRoundTrip | src/components/slang-analyzer.tsx:64-94 | for any analysis, the rendered view spells out exactly the input text, and no segment is empty |
| AnalyzedText.EmptyAnalysisRendersPlain | src/components/slang-analyzer.tsx:65-67 | an empty analysis renders the whole text as one plain paragraph |
| Highlighting.LongestTermAtIsLongest | src/components/slang-analyzer.tsx:71-80 | the longest term at an index is absent exactly when no term occurs there, and otherwise is a term that occurs there and is at least as long as every term that occurs there |
| Highlighting.PlainRunMeans | src/components/slang-analyzer.tsx:81 | a plain run is exactly a stretch in which no term starts at any index |
| Highlighting.HighlightsSpellsText | src/components/slang-analyzer.tsx:81-91 | a highlighting spells out the rest of the text |
| Highlighting.HighlightsEndsAtEnd | src/components/slang-analyzer.tsx:81-91 | a highlighting is empty exactly at the end of the text |
| Highlighting.FirstSegmentKind | src/components/slang-analyzer.tsx:81-91 | a highlighting starts with a slang segment exactly where a term starts |
| Highlighting.PlainEndsAtTermOrEnd | src/components/slang-analyzer.tsx:81 | a plain segment ends at the end of the text or where a term starts |
| Highlighting.FirstSegmentIsDetermined | src/components/slang-analyzer.tsx:81-91 | two highlightings from the same index begin with the same segment |
| Highlighting.HighlightsIsUnique | src/components/slang-analyzer.tsx:81-91 | there is at most one highlighting of a text from any index |
| RenderCorrectness.FirstSortedMatch | src/components/slang-analyzer.tsx:71-81 | the alternative the split takes at an index, given the sorted terms, is the longest analysis term occurring there |
| RenderCorrectness.LongestTermIsKey | src/components/slang-analyzer.tsx:69 | the longest term at an index is a key of the map, and the map gives the last item with that term |
| RenderCorrectness.PlainPieceIsNotKey | src/components/slang-analyzer.tsx:85-90 | a piece that starts where no term starts is not a key, so it is shown as plain text |
| RenderCorrectness.PrependSlang | src/components/slang-analyzer.tsx:81-90 | a matched longest term, shown with its map entry, extends a highlighting to the left |
| RenderCorrectness.PrependPlain | src/components/slang-analyzer.tsx:81-90 | a term-free stretch followed by a slang segment or the end extends a highlighting to the left as one plain segment |
| RenderCorrectness.LoopStep | src/components/slang-analyzer.tsx:81 | from any split state short of the end, the loop reaches a later state whose pieces, filtered and classified, extend to a highlighting of the whole stretch |
| RenderCorrectness.SplitFromHighlights | src/components/slang-analyzer.tsx:81-91 | from every split state, the filtered and classified pieces form the highlighting of the text from where the current piece began |
| RenderCorrectness.RenderHighlights | src/components/slang-analyzer.tsx:64-94 | with a non-empty analysis of non-empty terms, the rendered segments are the (unique) highlighting of the text: each term is the longest match at its position, shown with the last item with that term, and each plain part is maximal and holds no term start |
| SlangAnalyzerState.SlangAnalyzer.constructor | src/components/slang-analyzer.tsx:98-102 | starts with no result, no error, not loading, empty text and detection enabled |
| SlangAnalyzerState.SlangAnalyzer.SetDetectionEnabled | src/components/slang-analyzer.tsx:138-142 | sets the detection switch and changes nothing else |
| SlangAnalyzerState.SlangAnalyzer.BeginAnalysis | src/components/slang-analyzer.tsx:116-119 | before the request goes out: loading, no error, no result, text recorded |
| SlangAnalyzerState.SlangAnalyzer.Settle | src/components/slang-analyzer.tsx:121-128 | a resolved list, or `[]` for nothing, becomes the result; a rejection becomes the error message, or "An unknown error occurred." for a non-`Error`; loading ends in every case |
| SlangAnalyzerState.SlangAnalyzer.OnSubmit | src/components/slang-analyzer.tsx:109-129 | with detection off: result cleared, text recorded, error and loading unchanged; with it on: not loading afterwards, and on success no error and the results card renders the text with the list, on failure no result, no card and the error message; the error alert is unchanged with detection off, absent after a success, and after a failure shows the message exactly when it is non-empty ("An unknown error occurred." for a thrown non-`Error`); never both a result and an error |
| SlangAnalyzerState.SlangAnalyzer.ErrorAlert | src/components/slang-analyzer.tsx:182-187 | the alert is drawn exactly when the error is a non-empty message, and shows that message |
| SlangAnalyzerState.SlangAnalyzer.ResultsCard | src/components/slang-analyzer.tsx:189-196 | the results card is drawn exactly when there is a result (an empty list included) and nothing is loading |
| SlangAnalyzerState.LoadingHidesResults | src/components/slang-analyzer.tsx:189 | while loading, no results card is drawn |
| SlangAnalyzerState.ResultsCardShowsInput | src/components/slang-analyzer.tsx:189-196 | the results card spells exactly the submitted text; with an empty list it is one plain paragraph; with non-empty terms it is the highlighting of that text |
| SummarizeRoute.TrimStartIsLongestSuffix | src/app/api/summarize/route.ts:9 | removing leading white space keeps a suffix, removes only white space and stops at a non-space character |
| SummarizeRoute.TrimEndIsLongestPrefix | src/app/api/summarize/route.ts:9 | removing trailing white space keeps a prefix, removes only white space and stops at a non-space character |
| SummarizeRoute.TrimIsEmptyIffBlank | src/app/api/summarize/route.ts:9 | `text.trim() === ''` exactly when every character is ECMAScript white space or a line terminator |
| SummarizeRoute.ValidationAcceptsUsableText | src/app/api/summarize/route.ts:9-13 | the validation accepts exactly an object whose `text` is a string that is not all white space, and passes that string on untrimmed |
| SummarizeRoute.UnusableTextIsRejected | src/app/api/summarize/route.ts:9-11 | a missing body, a non-string `text` or a blank `text` gives 400 with the fixed "non-empty text" message, whatever the flow would do, so the flow is not called |
| SummarizeRoute.UsableTextIsSummarized | src/app/api/summarize/route.ts:13-16 | valid input calls the flow with the untrimmed `text`, and the flow's result is returned with status 200 |
| SummarizeRoute.ParseSyntaxErrorIsInvalidJson | src/app/api/summarize/route.ts:5-6 | a `SyntaxError` thrown while reading the body gives 400 "Invalid JSON in request body.", whatever the flow would do |
| SummarizeRoute.FlowSyntaxErrorIsInvalidJson | src/app/api/summarize/route.ts:15-23 | a `SyntaxError` thrown by the flow on a valid body also gives 400 "Invalid JSON in request body." |
| SummarizeRoute.ParseErrorIsServerError | src/app/api/summarize/route.ts:25-32 | any other value thrown while reading the body gives 500 with "Failed to get slang summary." and the error's message as details, or "An unknown error occurred." when the value is not an `Error` |
| SummarizeRoute.FlowErrorIsServerError | src/app/api/summarize/route.ts:25-32 | any other value thrown by the flow on a valid body gives the same 500, with the error's message or the fixed text as details |
| SummarizeRoute.StatusClassification | src/app/api/summarize/route.ts:4-34 | the status is always 200, 400 or 500; it is 200 exactly when the body parsed, had usable text and the flow returned; it is 500 exactly when a non-`SyntaxError` reached the `catch` |

## Left out

- JSX, the popover (`SlangTerm`), the glossary list and the styling are left
  out. A view is a paragraph or a sequence of plain and slang segments.
- The `react-hook-form`/zod validation (`min(1)`) is left out. `OnSubmit`
  accepts any text, including the empty one.
- React's scheduling of state updates is left out: each setter is an immediate
  field assignment. A second submit that starts while the first is still in
  flight, and so interleaves its updates, is also left out.
- `console.error` logging and the `analyzeSlang` server action are left out.
  That action only rewraps errors; its outcome is an input to `Settle`.
- The summarization and slang-identification flows, and `req.json()`, are left
  out. They are outcomes given to `Post`. `req.json()` is modelled as
  producing a `Json` value or throwing.
- `analysis` being `null` or `undefined` is left out (line 65's `!analysis`).
  The callers only pass a list, and a list is always truthy.
- The second emptiness check, lines 75-77, is left out.
  `TermOrder.SortedTermsAreTheTerms` shows it can never fire.
- Strings are sequences of code points, not of UTF-16 code units.
  - For split and escape this matters only for surrogate pairs. The pattern has
    no `u` flag, so the engine works on code units; a term can only match whole
    code points of the text unless it holds a lone surrogate.
  - TermOrder measures a term in code points, while `b.length` counts UTF-16
    code units, so terms with characters outside the Basic Multilingual Plane
    can be ordered differently (`"\u{1F600}"` and `"ab"` are both of length 2
    in JavaScript and keep their order, while the model puts `"ab"` first).
    The rendered output is the same either way: two terms that start at the
    same index are equal or one is a prefix of the other, and both measures
    order such terms alike.
- The general regular-expression engine is left out. Only the patterns line 80
  can build are modelled: alternations of literal characters and identity
  escapes. The optional `limit` argument of `split` is also left out, because
  the code does not pass it.
- RenderCorrectness.RenderHighlights: requires every term to be non-empty.
  - With an empty term the pattern matches the empty string, and the pieces no
    longer follow the longest-match description.
  - `AnalyzedText.RenderRoundTrip` still holds for such an analysis.
- `Json` numbers are exact reals, not doubles: `JSON.parse` turns `1e400` into
  `Infinity` and `1e-400` into `0`, which is falsy although the model's
  `1e-400` is truthy. The response does not depend on it: no number has a
  `text` member, so every number body, truthy or not, gets the same 400.
- The prototype chain is left out: `body.text` is the object's own `text`
  member.
