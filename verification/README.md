# A verified model of the ecmarkup reader client

`assets/ecmarkup.js` is the script a rendered ECMAScript-style specification
ships to the browser. This project models its computational core in Dafny:

- **Search** (module `Biblio`, with `FuzzyMatch`, `Ranking` and `Sorting`):
  - `loadBiblio` builds the search index: the clause filter, the id map and
    the reference-to-clause map.
  - `getKey` picks the text an entry is searched by.
  - `fuzzysearch` does greedy subsequence matching. It counts chunks and
    retries once in lower case.
  - `relevance` scores a match.
  - `search` answers a clause-number query by prefix. Any other query is
    fuzzy-matched, sorted stably by relevance and capped at 50 results.
- **Clause numbers and links** (`ClauseNumbers`, `Links`):
  - `sortByClauseNumber` compares dotted clause numbers segment by segment.
    Numeric segments compare by value and come before named ones.
  - `makeLinkToId` builds the link to an id, on a multi-page build or a
    single page.
- **The active clause** (`ActiveClause`):
  - `getChildClauses` yields the clauses under an element and looks through
    `emu-import`.
  - `getVisibleClauses` does a pre-order scan of the partially visible
    clauses. Among siblings it stops after the first visible run.
  - `findActiveClause` returns the first clause fully visible above the fold.
    Failing that, it returns the deepest clause crossing the midpoint.
    Failing that, it returns the path it was given.
- **Reference highlighting** (`Highlight`): `chooseHighlightIndex` picks the
  least-used of the seven highlight classes, earliest on ties.
- **Step counters** (`Counters`):
  - The lower-alpha text algorithm of CSS Counter Styles (alphabetic, bijective
    base 26).
  - The lower-roman algorithm (additive).
  - Decimal counters.
  - The memoizing counter made by `makeCounter`, as a class whose `cache` the
    methods update in place.
- **Exponents** (`Exponent`): the parenthesis test of
  `makeExponentPlainTextSafe`. It splits the text on parentheses and folds a
  depth counter over the parts, with NaN as failure. This decides whether an
  exponent such as `(a+1)*(b+1)` needs to be wrapped.

How JavaScript values are represented:

- Strings are `seq<char>`.
- `toLowerCase`/`toUpperCase` are the ASCII case maps.
- `undefined` string fields are the empty string. For the fields `getKey`
  reads, and for `title`/`titleHTML`, truthiness is the only thing the code
  tests, and both values are falsy. An entry's `id` is also used as a map
  key (`map[entry.id] = entry`, ecmarkup.js:118), where JavaScript turns
  `undefined` into the key `"undefined"`. The model's `""` stands for that
  key. This is a one-to-one renaming unless some entry has the literal id
  `""` or `"undefined"`.
- `NaN` in the exponent fold is `None`.
- Exceptions the code would throw are `Err` outcomes:
  - `getKey` on an unknown type;
  - reading `number` on a clause without one;
  - reading `clauses` when no biblio was loaded.

The stateful pieces are imperative Dafny, proved against functions that
specify them:

- the `Search` object's index fields;
- the counter cache;
- the loops of `fuzzysearch`, `getVisibleClauses`, `findActiveClause`,
  `chooseHighlightIndex`, `lowerAlphaTextForIndex`, `lowerRomanTextForIndex`
  and `sortByClauseNumber`.

The lemmas then state what those functions mean.

Where the code's behaviour differs from what its own comments or evident
intent suggest, the model follows the code:

- A query found as one contiguous run in a label does not always score one
  chunk. The scan is greedy and matches the leftmost occurrence of each
  character. For `ab` in `a-ab` it takes the first `a` and then skips to
  the `b`, so it reports two chunks and no prefix (ecmarkup.js:763-785).
  The lemma `ContiguousRunCanCountTwoChunks` shows this.
- When no clause qualifies, `findActiveClause` does not return the previously
  active path. It returns its own `path` argument (ecmarkup.js:485), and
  `updateActiveClause` never passes one (ecmarkup.js:408), so the result is
  the empty path.
- The comment above `relevance` gives 127 as the length term's ceiling
  (ecmarkup.js:172). The code uses 255 (ecmarkup.js:188), and so does the
  model.
- An unknown entry type without a key does not degrade gracefully: `getKey`
  throws (ecmarkup.js:336), and the whole search fails. The model returns an
  error there.

## Model

| member | source | states |
|---|---|---|
| FuzzyMatch.FuzzySearch | assets/ecmarkup.js:743-786 | returns exactly the outcome of the matching specification `Attempt`, including the lower-case retry; that specification is characterized by the lemmas below |
| FuzzyMatch.ScanChunks | assets/ecmarkup.js:763-785 | the labelled scan fails exactly when the greedy leftmost embedding does not exist; otherwise it returns that embedding's chunk count and the final haystack position |
| FuzzyMatch.GreedyIsLeftmost | assets/ecmarkup.js:765-775 | if the query has any embedding in the haystack, the greedy scan finds one, and each of its positions is at or before the same position of every embedding |
| FuzzyMatch.GreedyFailsOnPrefix | assets/ecmarkup.js:778-782 | once a prefix of the query cannot be placed, the whole query cannot be placed |
| FuzzyMatch.GreedyPrefix | assets/ecmarkup.js:785 | the `prefix` flag (`j <= qlen`) is true exactly when the haystack starts with the query, and a prefix match counts one chunk |
| FuzzyMatch.FuzzyLengthRules | assets/ecmarkup.js:749-761 | a longer query never matches; an equal-length query matches only as the whole string, case-sensitively `{true,1,true}` or case-insensitively `{false,1,true}` |
| FuzzyMatch.FuzzyMatchMeaning | assets/ecmarkup.js:743-786 | a match has at least one chunk; `caseMatch` holds exactly when the query is a case-sensitive subsequence; `prefix` means starts-with at the level that matched and implies one chunk |
| FuzzyMatch.FuzzyNoMatch | assets/ecmarkup.js:777-782 | there is no match exactly when the lower-cased query is not a subsequence of the lower-cased haystack |
| FuzzyMatch.ContiguousRunCanCountTwoChunks | assets/ecmarkup.js:766-775 | `ab` in `a-ab` matches with two chunks and no prefix, although `ab` occurs there contiguously |
| FuzzyMatch.EqualLengthEmbedding | assets/ecmarkup.js:753-761 | an embedding into a string of equal length is the identity, so the strings are equal |
| Text.LowerKeepsEmbedding | assets/ecmarkup.js:782 | lower-casing both strings keeps every embedding, so the lower-case retry finds everything the first pass found |
| Ranking.Relevance | assets/ecmarkup.js:175-191 | for any match with at least one chunk the score lies in 0..4095; a prefix match scores at least 2048 and any other match at most 2047 |
| Ranking.RelevanceMonotoneInChunks | assets/ecmarkup.js:178-182 | with case and prefix flags equal, fewer chunks never score lower |
| Ranking.PrefixAlwaysWins | assets/ecmarkup.js:184-186 | every prefix match outranks every non-prefix match, whatever the chunk counts and key lengths |
| Ranking.ShorterKeyWins | assets/ecmarkup.js:188 | with the same match, a key shorter than 255 outranks any longer key |
| Biblio.GetKey | assets/ecmarkup.js:315-338 | an explicit key wins; it fails exactly for an unknown type without a key, naming that type |
| Biblio.TypeNamed | assets/ecmarkup.js:318-336 | a type name is read as `Other` exactly when it is none of the nine names `getKey` knows, and then keeps the name |
| Biblio.GetKeyByTypeName | assets/ecmarkup.js:315-338 | for an entry whose type comes from a type name, `getKey` throws exactly when there is no key and the name is unknown, and the error names that type |
| Biblio.ClausesOfMeaning | assets/ecmarkup.js:116 | the clause list holds exactly the entries of type clause |
| Biblio.ClausesOfInOrder | assets/ecmarkup.js:116 | the clause list is the entries of type clause, each once, at strictly increasing positions of `entries` |
| Biblio.IndexByIdLastWins | assets/ecmarkup.js:117-120 | `byId` has exactly the ids that occur, each mapped to the last entry carrying it |
| Biblio.AddRefsMeaning | assets/ecmarkup.js:125-127 | adding a clause's references maps each of them to that clause and leaves every other key as it was |
| Biblio.ParentClausesLastWins | assets/ecmarkup.js:121-129 | `refParentClause` has exactly the listed references, each mapped to the last clause that lists it |
| Biblio.Search.LoadBiblio | assets/ecmarkup.js:110-130 | without a biblio the entry list is empty and the clause filter, the id map and the parent-clause map are absent (`None`, so any read of them is an error); with one, the three fields hold the clause filter, the id map and the parent-clause map above |
| Biblio.NumberMatchesMeaning | assets/ecmarkup.js:209-212 | the number query fails exactly when some clause lacks a number; otherwise every hit is a clause whose number starts with the query, and every such clause is a hit |
| Biblio.NumberMatchesInOrder | assets/ecmarkup.js:209-212 | the clause-number hits are the clauses whose number starts with the query, each once and in clause order, each with its `getKey` key and no match quality |
| Biblio.NumericQueryMatchesStringPrefix | assets/ecmarkup.js:209-212 | clause-number matching is by string prefix: `30.1` finds 30.1, 30.1.2 and 30.10 but not 30.2 |
| Biblio.FuzzyHitsFails | assets/ecmarkup.js:215-220 | the fuzzy pass fails exactly when `getKey` throws for some entry |
| Biblio.FuzzyHitsSound | assets/ecmarkup.js:215-228 | every fuzzy hit is an entry with a non-empty key, that key, and the match `fuzzysearch` gives it |
| Biblio.FuzzyHitsComplete | assets/ecmarkup.js:215-228 | every entry whose non-empty key matches the query is among the hits |
| Biblio.FuzzyHitsInOrder | assets/ecmarkup.js:215-228 | before ranking, the fuzzy hits are the entries with a matching non-empty key, each once and in entry order, each with its key and its `fuzzysearch` result |
| Biblio.CapKeepsPrefix | assets/ecmarkup.js:236-238 | the cap keeps exactly the first min(n, 50) results |
| Biblio.CapKeepsBest | assets/ecmarkup.js:236-238 | capping a ranked list keeps it ranked, and no cut result scores higher than a kept one |
| Biblio.SearchResultsRanked | assets/ecmarkup.js:205-238 | exactly min(n, 50) results are kept, as a prefix. Clause-number results stay in clause order. Fuzzy results are sorted by descending relevance and are a permutation of all hits. Equal relevance keeps the order the hits were found in. No cut result scores higher than a kept one |
| Biblio.Search.Search | assets/ecmarkup.js:193-242 | an empty query hides the panel and shows nothing; a one-character query shows nothing; a longer query shows the search results, or leaves the display as it was when the lookup throws |
| Sorting.SortDescIsStableSort | assets/ecmarkup.js:234 | the sort orders by descending key, is a permutation, and keeps the input order among equal keys |
| Sorting.FirstMatchAfterSort | assets/ecmarkup.js:470-483 | the first sorted element satisfying a test comes from the input, and no element satisfying it has a larger key |
| ClauseNumbers.SortByClauseNumber | assets/ecmarkup.js:1085-1120 | returns -1, 0 or 1, exactly the segment-wise comparison `Compare` |
| ClauseNumbers.SplitJoin | assets/ecmarkup.js:1086-1087 | splitting on `.` and joining with `.` gives back the number |
| ClauseNumbers.SplitHasNoDots | assets/ecmarkup.js:1086-1087 | no segment contains a dot |
| ClauseNumbers.CompareAntisymmetric | assets/ecmarkup.js:1089-1119 | swapping the arguments negates the result |
| ClauseNumbers.CompareZeroIff | assets/ecmarkup.js:1089-1119 | the result is 0 exactly when both numbers have equally many segments and all corresponding segments are indistinguishable |
| ClauseNumbers.FirstDifferenceDecides | assets/ecmarkup.js:1089-1113 | after a run of indistinguishable segments, the first differing pair decides |
| ClauseNumbers.ProperPrefixFirst | assets/ecmarkup.js:1090-1092 | a clause sorts before its subclauses |
| ClauseNumbers.NumbersBeforeNames | assets/ecmarkup.js:1106-1107 | at the first difference, a numeric segment sorts before a named one |
| ClauseNumbers.DigitsValue | assets/ecmarkup.js:1095-1096 | digit strings convert to their value and a letter is not a number |
| ClauseNumbers.NumericSegmentsExample | assets/ecmarkup.js:1110-1113 | `9.2` sorts before `9.10` |
| ClauseNumbers.SubclauseExample | assets/ecmarkup.js:1115-1119 | `9.10` sorts before `9.10.3` |
| ClauseNumbers.AnnexExample | assets/ecmarkup.js:1106-1107 | `9.10` sorts before `A.1` |
| Text.LexLessAsymmetric | assets/ecmarkup.js:1100-1104 | JavaScript's string `<` never holds in both directions |
| Text.LexLessTotal | assets/ecmarkup.js:1100-1104 | of two different strings, one is `<` the other |
| Links.MakeLinkToId | assets/ecmarkup.js:1122-1129 | a bare `#id` exactly when no section is known, `./#id` exactly for the index section, and always ending in `#id` |
| Links.LinkRoundTrip | assets/ecmarkup.js:1122-1129 | cutting a link at its first `#` gives back the page of the id's section and the id itself |
| Highlight.ChooseHighlightIndex | assets/ecmarkup.js:684-696 | null exactly for no counts; otherwise the index of a minimum count, and no earlier count is as small |
| Highlight.ChooseForClause | assets/ecmarkup.js:683-696 | with the seven highlight classes, always an index below 7 of the earliest least-used class |
| Counters.LowerAlphaTextForIndex | assets/ecmarkup.js:1346-1353 | the loop computes the alphabetic counter text `AlphaText` |
| Counters.AlphaText | assets/ecmarkup.js:1339-1353 | the text is non-empty and made only of `a` to `z` |
| Counters.AlphaAppend | assets/ecmarkup.js:1348-1350 | one more letter at the end is one more base-26 digit, with no zero digit |
| Counters.AlphaRoundTrip | assets/ecmarkup.js:1346-1353 | reading the text back in bijective base 26 gives the index |
| Counters.AlphaOnto | assets/ecmarkup.js:1346-1353 | every non-empty lower-case word is the text of some index |
| Counters.AlphaInjective | assets/ecmarkup.js:1346-1353 | different indexes get different texts |
| Counters.AlphaExamples | assets/ecmarkup.js:1346-1353 | 0 is `a`, 25 is `z`, 26 is `aa`, 701 is `zz` |
| Counters.LowerRomanTextForIndex | assets/ecmarkup.js:1374-1385 | the loop computes the roman counter text `RomanText` |
| Counters.WeightsDecrease | assets/ecmarkup.js:1355-1369 | the symbol table's weights strictly decrease |
| Counters.TokensTotal | assets/ecmarkup.js:1376-1384 | the symbols chosen add up to the value |
| Counters.RomanMeaning | assets/ecmarkup.js:1355-1385 | the text spells symbols of non-increasing weight whose weights sum to index + 1 |
| Counters.EmitRepeats | assets/ecmarkup.js:1380-1382 | taking `reps` copies of a symbol up front is what the additive algorithm does |
| Counters.RomanExamples | assets/ecmarkup.js:1374-1385 | 0 is `i`, 3 is `iv`, 8 is `ix`, 13 is `xiv` |
| Counters.DecimalRoundTrip | assets/ecmarkup.js:1399 | the decimal text reads back as the number |
| Counters.PureTextReadsBack | assets/ecmarkup.js:1397-1403 | decimal markers read back as the 1-based step number, lower-alpha markers as the index |
| Counters.Precomputed | assets/ecmarkup.js:1389 | the precomputed cache holds the text of each index below the count |
| Counters.Counter.constructor | assets/ecmarkup.js:1388-1395 | a new counter's cache is the precomputed prefix and is consistent |
| Counters.Counter.GetTextForIndex | assets/ecmarkup.js:1390-1393 | a cached index leaves the cache unchanged; an index past the end extends it with holes and the new text; the answer is the cache entry and, when present, the right text; the cache stays consistent |
| Counters.JumpLeavesHole | assets/ecmarkup.js:1390-1393 | after asking for index 35 of a 30-entry cache, index 32 reads as a hole (`undefined`) |
| Exponent.SplitAlternates | assets/ecmarkup.js:1499 | the split parts alternate between parenthesis-free text and single parentheses, in order |
| Exponent.SplitEnds | assets/ecmarkup.js:1499 | the first part is empty exactly when the text opens with a parenthesis, the last exactly when it closes with one |
| Exponent.ReduceTracksParens | assets/ecmarkup.js:1500-1509 | over such parts the fold tracks a depth counter over the parentheses alone |
| Exponent.GroupedMeaning | assets/ecmarkup.js:1497-1509 | the fold ends at 0 exactly when the text is empty, or starts and ends with a parenthesis and its parentheses form one group whose depth first returns to 0 at the end |
| Exponent.WrapIsGrouped | assets/ecmarkup.js:1488-1509 | text with balanced parentheses, wrapped in one more pair, is left unwrapped |
| Exponent.GroupThenMoreIsNotGrouped | assets/ecmarkup.js:1488-1509 | a group followed by more text is wrapped |
| Exponent.SideBySideExample | assets/ecmarkup.js:1496 | `(a+1)*(b+1)` is wrapped |
| Exponent.WrappedExample | assets/ecmarkup.js:1496 | `((a+1)*(b+1))` is left unwrapped |
| ActiveClause.ChildClauses | assets/ecmarkup.js:515-530 | yields only clause, intro and annex elements, each smaller than the root |
| ActiveClause.ClausesInAppend | assets/ecmarkup.js:516-529 | the yield over a list of children is the yield over its parts, concatenated |
| ActiveClause.ImportIsTransparent | assets/ecmarkup.js:519-521 | an `emu-import` contributes exactly its own children's clauses, in place |
| ActiveClause.ClausesInKeeps | assets/ecmarkup.js:524-527 | every clause, intro or annex child is yielded |
| ActiveClause.GetVisibleClauses | assets/ecmarkup.js:488-513 | the loop computes the pre-order visible scan `Visible` |
| ActiveClause.EntriesAreVisibleClauses | assets/ecmarkup.js:488-513 | every entry is a partially visible clause whose path extends the given path, ends at it, and descends through child clauses |
| ActiveClause.VisibleSiblingRun | assets/ecmarkup.js:495-509 | the entries directly under the root are exactly the first run of consecutive visible child clauses |
| ActiveClause.FindActiveClause | assets/ecmarkup.js:452-486 | returns the path of the first fully-visible-above-the-fold entry; if there is none, the path of the deepest midpoint-crossing entry, earliest among equals; if there is none either, the given path |
| ActiveClause.NoneCrossing | assets/ecmarkup.js:470-485 | if no entry of the depth-sorted list crosses the midpoint, none of the visible entries does |

## Left out

- The DOM is not part of this model:
  - elements, events, focus and keyboard shortcuts (`doShortcut`);
  - the menu, table of contents and pins (`revealInToc`);
  - tooltips and the reference pane;
  - `displayResults` rendering, local storage and debounce timers.
  The model keeps the values these operations compute: rectangles, margins, class counts and results.
- `addStepNumberText` and the list walking around the counters are not part of this model. Only the counters it calls are.
- `example_polyfill.js` and `assets/expand.js` are not part of this model.
- Text.Lower: ASCII case mapping only. JavaScript's full Unicode `toLowerCase`/`toUpperCase` is not modelled.
- Strings are sequences of characters. The UTF-16 code units that JavaScript's `length` and indexing count are not modelled. Surrogate pairs would differ.
- ClauseNumbers.SegmentNumber: JavaScript's `Number()` on a segment is modelled as "all decimal digits, the empty string being 0". Whitespace, signs, exponents, hex literals and `Infinity` are not modelled. No clause number contains these.
- ActiveClause.FindActiveClause: bounding rectangles and margins are integers, not floating point. `parseInt` of a margin is a given integer, so a `NaN` margin is not modelled.
- ActiveClause.FindActiveClause: a clause without an `h1` header is not modelled. There `getComputedStyle(null)` would throw.
- ActiveClause.FindActiveClause: nodes are values, not references. The in-place sort of `visibleClauses` is modelled as a stable sort on a sequence. JavaScript's `sort` is stable, so the order is the same.
- Exponent.GroupedMeaning: covers only the fold part of `skipParens`. Left out:
  - the `text.trim()` before the split;
  - the single-integer or identifier regex, since `\p{ID_Start}` is Unicode data;
  - the child-node checks;
  - the HTML insertion.
- Biblio.GetKey: `item.title || item.titleHTML` and the other fields are strings. An `undefined` field is the empty string. A non-string truthy value is not modelled.
- Biblio.Search.Search: the `active` flag and the shown results are ghost state. They stand for the panel's class and `displayResults`.
- Biblio.Search.LoadBiblio: a biblio without `refsByClause` is not modelled. The code would throw there.
- Biblio.Search.LoadBiblio: `Object.keys` order is taken to be the order of the `refsByClause` sequence.
- FuzzyMatch.FuzzySearch: the labelled `for`/`while` scan is the method `ScanChunks`. `FuzzySearch` keeps the length shortcuts and the one lower-case retry.
