# StudyNotes search ranking and slug generation, in Dafny

This project models two parts of StudyNotes.

- **The autocomplete ranking core** (search.js):
  - `regexForQuery`: the prefix matcher that selects Courses and Notes for a query.
  - `weight`: the relevance score. It is a model bonus (Course +10), plus an exact-match bonus (1000), plus a word bonus (100 per query word found as a whole word of the name).
  - `highlight`: wraps every match of the query's words in `<strong>` tags.
  - The steps `autocomplete` runs once the lookups have answered:
    - trim the query;
    - score each fetched document;
    - sort by weight, descending and stable;
    - keep the first 8;
    - project each entry to `{desc, name, position, type, url, weight}`, with its name highlighted.
- **The `slug` pre-save hook** (model/plugin.js). It gives a document without an `_id` an id made from its name:
  - the slugified name loses trailing words until it fits the configured maximum length;
  - then `slug`, `slug-1`, `slug-2`, … are looked up in turn, and the first one not in use is assigned.

The regular expressions are not run by a regex engine. Each is written out as the set of strings, or spans, it accepts:

- `\s` is the full ECMAScript white-space and line-terminator set, for every pattern (see `Matcher.Test` under "Left out").
- `.` excludes line terminators.
- `[^a-z]` under the `i` flag means "not an ASCII letter".

The global replace in `highlight` is modelled step by step, the way JavaScript performs it:

- the leftmost match wins;
- the first alternative wins at a position;
- `[^a-z]*` is greedy and gives back characters until the token fits;
- after an empty match the scan moves on one position.

The declarative span predicate is then proved sound and complete for this step-by-step model.

Modules:

- `Wrappers`: `Option`.
- `Text`: character classes, ASCII case folding, `split(' ')`/join, `trim`, decimal numerals.
- `Matcher`: `regexForQuery`, and the name filter `find({ name: pattern })` that the pattern is used for.
- `Entities`: fetched documents.
- `Scorer`: `weight`.
- `Highlighter`: `highlight`.
- `Aggregator`: the ranking pipeline.
- `Slug`: the pre-save hook.

Three behaviours of the code to keep in mind:

- **Query tokens.** The query is split on single spaces (`split(' ')`), not on general white space. Two consecutive spaces therefore give an empty token.
- **Lookup failures.** The final callback of `autocomplete` ignores its `err` argument. It ranks whatever was pushed, instead of failing the call.
- **Merge order.** The two lookups push in whatever order their callbacks run. The order is not fixed to Courses first. The model takes the fetched documents in push order as an input.

## Model

| member | source | states |
|---|---|---|
| Matcher.RegexForQuery | search.js:90-99 | the pattern has one token per piece of the query between single spaces; no token holds a space; joining the tokens with spaces gives the query back |
| Matcher.Test | search.js:92-98 | definition: a name passes the filter when the first token occurs, ignoring ASCII case, after a run of non-letters that starts at index 0 or after white space, and each later token follows in order after some text without a line break, a white-space character and a run of non-letters; nothing is required after the last token |
| Text.SplitJoin | search.js:91 | splitting on ' ' undoes joining space-free tokens with ' ', so the tokens of a query are recovered exactly |
| Text.Split | search.js:91 | `split(' ')` yields at least one piece; no piece contains the separator; joining the pieces gives the string back |
| Matcher.PatternPrefixMatches | search.js:94-96 | a name accepted by the pattern for tokens t0..tn is accepted by the pattern for any non-empty prefix t0..tk |
| Matcher.DropTrailingWords | search.js:90-99 | if a name matches the query `q1 q2`, it matches `q1` |
| Matcher.MatchIgnoresCase | search.js:98 | the `i` flag: matching is unchanged when either the name or the query is lower-cased |
| Matcher.HistMatchesHistory | search.js:84 | `Hist` matches `AP History` and `History` |
| Matcher.UpperQueryMatchesLowerName | search.js:98 | `AP` matches `ap history` |
| Matcher.EngLitMatchesEnglishLiterature | search.js:85 | `Eng Lit` matches `English Literature` |
| Matcher.ReversedWordsDoNotMatch | search.js:94-96 | tokens must appear in query order: `Lit Eng` does not match `English Literature` |
| Matcher.DotIsLiteral | search.js:92-95 | a token is literal text: `C.` does not match `CS` |
| Matcher.PlusIsLiteral | search.js:92-95 | regex metacharacters in a token match themselves: `C++` matches `Intro to C++` |
| Text.Trim | search.js:15 | the trimmed query is a slice of the query with only white space cut from either end, and it neither starts nor ends with white space |
| Scorer.ModelBonus | search.js:113-120 | a Course adds 10; a Note and any other model add 0 (the switch has no default) |
| Scorer.WholeWord | search.js:129-130 | definition: the word occurs, ignoring ASCII case, at some index that is 0 or follows white space, and it ends at the end of the name or before white space |
| Scorer.WordMatches | search.js:128-133 | the number of query words with a whole-word match is at most the number of words; it equals that number exactly when every word matches, and is 0 exactly when none does |
| Scorer.WordMatchesCountsHits | search.js:128-133 | the word bonus count equals the size of the set of query positions whose word is a whole word of the name |
| Scorer.Weight | search.js:108-136 | the weight lies between the model bonus and 10 + 1000 + 100 times the number of query words |
| Scorer.WeightClosedForm | search.js:108-136 | weight = model bonus + (1000 when name and query agree up to case) + 100 per query position whose word is a whole word of the name |
| Scorer.ExactNameHasEveryWord | search.js:122-133 | a name equal to the query up to case contains every query word as a whole word |
| Scorer.ExactMatchWeight | search.js:122-133 | an exact match scores exactly its model bonus + 1000 + 100 times the number of query words |
| Scorer.ExactMatchOutranks | search.js:122-125 | an exact match outweighs every non-exact match for the same query, whatever their models |
| Scorer.CalcCourseWeight | search.js:113-133 | for query `Calc`, the Courses `Calculus` and `Calculus BC` weigh 10: only the course bonus |
| Scorer.CalcNoteWeight | search.js:113-133 | for query `Calc`, the Note `Calc Notes` weighs 100: one word bonus |
| Highlighter.RunEnd | search.js:155 | the greedy `[^a-z]*` run from a position ends at the end of the string or at a letter, and holds only non-letters |
| Highlighter.Backtrack | search.js:155 | backtracking gives back characters of the run until the token fits: it finds the latest occurrence of the token within the run, or reports that none exists |
| Highlighter.AltMatchAt | search.js:155 | one alternative `(^|\s)[^a-z]*token` matches at a position exactly when an anchored span exists there; the span found is the one with the longest non-letter run |
| Highlighter.MatchAt | search.js:151-156 | the match of the alternation at one position ends inside the name, at or after the position; the alternative chosen is the first that matches (`FirstAlternative`) |
| Highlighter.FirstAlternative | search.js:151-156 | at one position the alternation takes the first token, in query order, whose alternative matches; it finds none only when no alternative matches |
| Highlighter.MatchAtIsSpan | search.js:151-158 | the match found at a position is a span of some alternative, and none is found only when no alternative has a span there |
| Highlighter.Scan | search.js:158 | the segments produced by the global replace, read without markup, spell out the name from the current segment start |
| Highlighter.HighlightKeepsText | search.js:147-161 | removing the `<strong>` markers from the output gives back the input name |
| Highlighter.HighlightHtml | search.js:147-161 | definition: the returned string is the scan's segments in order, each matched span wrapped in `<strong>` and `</strong>` and the text between copied unchanged |
| Highlighter.HighlightTiles | search.js:147-161 | highlighted spans are in order and do not overlap; each starts at index 0 or at white space, skips non-letters and ends with a query token (case-insensitive); no match starts at a position the scan passed over |
| Highlighter.RenderAllPlain | search.js:158 | the HTML equals the plain text exactly when no segment is emphasised |
| Highlighter.HighlightUnchangedIffNoMatch | search.js:158-160 | the output equals the input exactly when no alternative matches anywhere in the name |
| Highlighter.HistMatchesInAPHistory | search.js:155-158 | in `AP History` the query `Hist` has no match at 0–1 or 7–10; the match at 2 takes ` Hist` and ends at 7, so these are all the positions the global scan visits |
| Highlighter.HighlightExample | search.js:147-161 | `highlight('AP History', 'Hist')` is `AP<strong> Hist</strong>ory` |
| Aggregator.ScoreAll | search.js:25-47 | every fetched document is paired with its own weight for the query, in push order |
| Aggregator.Insert | search.js:55-57 | inserting into a non-increasing list keeps it non-increasing, adds exactly the one entry, and places it ahead of the entries of equal weight already in the list, which came later in the input; this is what makes the sort stable |
| Aggregator.SortByWeight | search.js:55-57 | the sorted list is a permutation of the input; its weights never increase; entries of equal weight keep their input order |
| Aggregator.StableSortIsUnique | search.js:55-57 | two non-increasing lists with the same entries, in the same order, in every weight class are equal, so the stable descending sort has one answer |
| Aggregator.TopResults | search.js:59-60 | keeps min(n, 8) entries in non-increasing order, taken from the input; within a weight it keeps the earliest ones; a copy of an entry is dropped only when 8 are kept and it weighs no more than the last kept |
| Aggregator.Project | search.js:63-72 | entry i of the result presents kept entry i at position i + 1: its description, model, url and weight, and its highlighted name |
| Aggregator.Autocomplete | search.js:15-72 | the result has min(n, 8) entries at positions 1, 2, …, with non-increasing weights. Each entry presents a different fetched document, copying its description, model, url and weight and highlighting its name. Within a weight, the documents kept are the earliest fetched, in fetch order. A fetched document is dropped only when 8 are kept and it weighs no more than the last one |
| Aggregator.LightEntryCannotDisplaceHeavy | search.js:55-60 | with eight entries of weight 100 and one of weight 0, a list that keeps the weight-0 entry instead of the eighth heavy one is not a presentation of the ranking |
| Aggregator.TopOfStableOrder | search.js:55-60 | any short list in stable descending order of the input is exactly what the sort and truncation return |
| Aggregator.RankingKeepsFetchOrder | search.js:55-60 | two entries of weight 10 followed by one of weight 100 come out as the heavy one, then the two in input order |
| Aggregator.CalcRanking | search.js:54-60 | query `Calc` over `Calculus`, `Calculus BC` (Courses) and `Calc Notes` (Note) ranks `Calc Notes` (100), then `Calculus` (10), then `Calculus BC` (10) |
| Slug.DropLastWord | model/plugin.js:76 | `replace(/-([^-]*)$/, '')` removes the last hyphen and everything after it; without a hyphen the slug is unchanged |
| Slug.LastWordPatternMatchesOnce | model/plugin.js:76 | the pattern can match only at the last hyphen: a position holds a hyphen with no hyphen after it exactly when it is that hyphen |
| Slug.FitSlug | model/plugin.js:74-77 | the loop's result is the longest prefix ending at a word boundary that fits the maximum. It is a prefix of the slugified name, its length is at most the maximum, and it ends at a hyphen or at the end. The loop never ends exactly when no word boundary fits |
| Slug.FitSlugIsLoopResult | model/plugin.js:74-77 | when the fit exists, the loop reaches it after finitely many turns; when it does not, the length stays over the limit after every number of turns |
| Slug.LoopState | model/plugin.js:75-77 | definition: the slug after n turns of the `while` loop; a turn drops the last word, and the loop stops once the length is at most the maximum |
| Slug.HyphenlessLoopIsStuck | model/plugin.js:75-76 | a hyphenless slug longer than the maximum is never changed by the loop body, so the loop runs forever |
| Slug.FitSlugExamples | model/plugin.js:74-77 | with maximum 10, `intro-to-calculus` becomes `intro-to`, and `supercalifragilistic` never fits |
| Text.DecimalString | model/plugin.js:89 | `'-' + num` appends a non-empty run of digits with no leading zero (except for 0) |
| Text.DecimalRoundTrip | model/plugin.js:89 | the digits appended read back as the number |
| Slug.PotentialSlug | model/plugin.js:81-90 | try 0 is the slug itself; try n > 0 is longer than the slug and starts with the slug and a hyphen |
| Slug.PotentialSlugSuffix | model/plugin.js:89 | after that hyphen, try n carries only digits, and they read back as n |
| Slug.PotentialSlugInjective | model/plugin.js:87-90 | different try numbers give different candidate ids, so no id is looked up twice |
| Slug.TwelfthVariant | model/plugin.js:88-90 | try 12 of `calculus` looks up `calculus-12` |
| Slug.SearchFrom | model/plugin.js:79-104 | tries `slug`, `slug-1`, `slug-2`, … in order. Every id before the last was found in use. The search stops at the first id with count 0, which is assigned, or at the first lookup error. It makes at most (number of ids in use) + 1 lookups |
| Slug.SlugHook | model/plugin.js:67-106 | a document whose `_id` is set is saved unchanged, with no lookup. Otherwise the hook never finishes exactly when truncation cannot fit. Every lookup before the last found its id in use. A failed lookup ends the search: the save aborts with that lookup's error and no `_id` assigned. A successful save assigns the last looked-up id, which had count 0. Either way there are at most (ids in use) + 1 lookups |
| Slug.HookTriesInOrder | model/plugin.js:83-104 | the hook looks up the truncated slug and its numbered variants in order. Every id before the last had a positive count, so it is in use. On success the last id, which is free, becomes the `_id`; on abort the last lookup failed with exactly the error passed to `next` |
| Slug.FirstLookupErrorAborts | model/plugin.js:93-95 | when the first lookup fails, the save aborts with that error after that one lookup, and the document keeps no `_id` |
| Slug.EmptyCollectionTakesSlug | model/plugin.js:79-100 | with no id in use, the truncated slug itself is assigned after one lookup |
| Slug.FirstFreeVariantAssigned | model/plugin.js:88-100 | when the slug and its first m numbered variants are in use and variant m is free, variant m is assigned after m + 1 lookups |

## Left out

- **Lookups.** The database lookups and their limit (10), `sort('-hits')` and `async.parallel` are left out; the fetched documents are an input of `Aggregator.Autocomplete`, in the order they were pushed.
- Aggregator.Autocomplete: the lookup error passed to the final callback is ignored by the code. Because the lookups are an input, the model has no error path there at all.
- **Regex escaping.** `util.escapeRegExp` is not part of this model. Every token is taken to stand for itself literally, which is what the escaping is for.
- Text.Lower: folds ASCII letters only. JavaScript's `toLowerCase` and the regex `i` flag also fold non-ASCII letters, and that Unicode case mapping is left out.
- Matcher.Test: the pattern is never run by JavaScript. It is the `name` filter of two database queries (search.js:20 and search.js:37), so the database's regex engine evaluates it, and there `\s` is ASCII white space only and `.` excludes only line feed. The model gives the pattern the ECMAScript classes that `highlight` uses. A name such as `AP` + no-break space + `History` therefore matches `Hist` in the model, although the database filter rejects it.
- Matcher.MatchIgnoresCase: holds for the ASCII folding above, not for full Unicode case folding.
- **String units.** Strings are sequences of code points. JavaScript's UTF-16 code units (relevant to `length` and to surrogate pairs) are not modelled.
- **HTML safety.** Whether `highlight`'s output is safe HTML is not modelled. The name is inserted verbatim, as the code does.
- **Result type.** The `type` field of a result is the document's model; how Mongoose names it (`constructor.modelName`) is not modelled.
- **Slug inputs.** `_s.slugify` is a parameter of the hook, and the maximum slug length from config.js is a parameter of `Slug.FitSlug`.
- Slug.SearchFrom: the count lookup is a fixed function of the id (one snapshot of the collection). A concurrent save that takes the chosen id between the lookup and the save is not modelled.
- **Asynchrony.** The hook's `next` callback and the `async.whilst` plumbing become the hook's return value.
- **Number formatting.** `num` is appended as a decimal numeral. JavaScript's exponent form for numbers of 10^21 and above is not modelled.
- **Other code.** The other plugins of model/plugin.js, the model definitions and the client script are not part of this model.
