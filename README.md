# String analyzer service — a Dafny model

The service stores strings and, for each, a record of computed properties:
length, a case-insensitive palindrome flag, the number of distinct
characters, the number of whitespace-separated words, a SHA-256 digest and a
character frequency map. Records are kept in memory, keyed by the string
itself, in insertion order. Five HTTP handlers create, read, list, filter and
delete records; one of them understands a handful of English phrases
("palindromic", "single word", "longer than N", "containing the letter c",
"first vowel") and turns them into the same filters the listing accepts.

The model has eight modules:

- `Wrappers` — the `Option` type for absent fields and parameters.
- `Sequences` — subsequences, concatenation, and joining pieces with separators.
- `Text` — the ECMAScript whitespace class, ASCII lower-casing, reversal and
  substring search.
- `Analyzer` — `analyzeString`. The four pure properties are functions. The
  frequency map is built by a method with a loop, as in the source.
- `Query` — the stored record, the sparse filter set, `Array.prototype.filter`
  (`Keep`) and its reference, `Select`. `Select` gives the records that pass
  every present filter, in order.
- `Parser` — `parseNaturalLanguageQuery`. It is a method that sets the fields
  of the filter set one rule after another. It is proved against `Interprets`,
  which states each rule independently: substring occurrence, or the leftmost
  match of a literal followed by a character of a class.
- `Store` — the `analyzedStrings` map as a class. It has a `map` from value to
  record and a `seq` holding the insertion order. Each request handler is a
  method with its status codes.
- `Routes` — first-match dispatch of the GET routes in their registration
  order. It backs the finding below.

SHA-256 is passed in as a function `digest: string -> string`. The store
fixes it at construction. The model uses only that it is a function of the
string. The creation timestamp is a parameter of `Insert`.

## Model

| member | source | states |
|---|---|---|
| `Text.IsWhitespace` | analyzer.js:11 | among ASCII characters exactly space and tab through carriage return are whitespace, and no digit or letter is |
| `Text.LowerStr` | analyzer.js:7 | lower-casing keeps the length |
| `Text.LowerStrAt` | analyzer.js:7 | lower-casing maps each character separately, position by position |
| `Text.Reverse` | analyzer.js:8 | reversal keeps the length |
| `Text.ReverseIsPermutation` | analyzer.js:8 | reversal only reorders: every character keeps its number of occurrences |
| `Text.ReverseMirrors` | analyzer.js:8 | position k of the reversal holds the character at position length-1-k |
| `Text.Includes` | index.js:17-22 | `includes` is true exactly when some position starts an occurrence of the substring |
| `Analyzer.IsPalindrome` | analyzer.js:7-9 | the flag is true iff every character equals its mirror character up to ASCII case |
| `Analyzer.PalindromeIgnoresCase` | analyzer.js:7-9 | two strings with the same lower-case form get the same flag |
| `Analyzer.MixedCasePalindromes` | analyzer.js:7-9 | "Racecar" and "ab ba" are palindromes and "ab" is not |
| `Analyzer.LeadingWhitespace` | analyzer.js:11 | the count covers only whitespace and stops at a non-whitespace character or the end |
| `Analyzer.TrailingWhitespaceStart` | analyzer.js:11 | everything from the returned position on is whitespace, and the character before it is not |
| `Analyzer.Trim` | analyzer.js:11 | the trimmed string neither starts nor ends with whitespace, and is empty only for an all-whitespace input |
| `Analyzer.TrimIsSlice` | analyzer.js:11 | the trimmed string is a contiguous slice of the input with only whitespace cut at either end |
| `Analyzer.SplitOnWhitespace` | analyzer.js:11 | the split gives at least one token; no token holds whitespace; only the first and last may be empty, the first exactly when the text is empty or starts with whitespace; the tokens joined are the non-whitespace characters in order |
| `Analyzer.SplitCutsAtWhitespaceRuns` | analyzer.js:11 | the split cuts exactly at the whitespace runs: the text is the tokens joined by non-empty whitespace separators, so a trailing run leaves an empty last token |
| `Analyzer.NonEmptyTokens` | analyzer.js:11 | `filter(Boolean)` keeps every non-empty token as often as it occurred, drops the empty ones, and keeps their order |
| `Analyzer.TokensAreWords` | analyzer.js:11 | after splitting and dropping empty tokens, the token count equals the number of maximal non-whitespace runs |
| `Analyzer.NoWordsIffBlank` | analyzer.js:11-12 | there are no word runs exactly when every character is whitespace |
| `Analyzer.WordCount` | analyzer.js:11-12 | the word count is the number of maximal non-whitespace runs, at most the length, and 0 exactly for empty or all-whitespace strings |
| `Analyzer.UniqueCharacters` | analyzer.js:14 | the number of distinct characters of the original (not lower-cased) string is at most the length and is 0 only for "" |
| `Analyzer.CharacterFrequency` | analyzer.js:16-19 | after the loop the keys are exactly the characters of the string, and each count is that character's number of occurrences |
| `Analyzer.FrequencySumIsLength` | analyzer.js:5-19 | the counts of a frequency map sum to the length of the string |
| `Analyzer.AnalyzeString` | analyzer.js:3-29 | every field of the result describes the input: length, palindrome flag, unique count, word count, digest, frequency map |
| `Analyzer.PropertiesAreConsistent` | analyzer.js:5-19 | unique characters and word count are at most the length, the map has one key per unique character, its counts sum to the length and are all at least 1 |
| `Analyzer.AnalysisIsDeterministic` | analyzer.js:3-29 | two analyses of the same string (same digest) are equal |
| `Analyzer.EmptyStringAnalysis` | analyzer.js:7-14 | "" is a palindrome with no words and no distinct characters |
| `Query.Keep` | index.js:73 | `filter` keeps exactly the elements satisfying the predicate, with their multiplicities, as a subsequence of the input |
| `Query.Select` | index.js:67-95 | the selection holds exactly the records matching every present filter, as a subsequence of the input |
| `Query.KeepNarrowsSelect` | index.js:71-95 | filtering a selection by one more predicate is the selection by the extended filter set |
| `Query.SelectWithoutFilters` | index.js:68 | with no filter every record is returned, in order |
| `Query.SelectWithNaN` | index.js:76-89 | a NaN bound or count matches no record |
| `Query.SelectWithEmptyRange` | index.js:76-84 | a minimum above the maximum matches no record |
| `Parser.FindMatch` | index.js:23 | `match` finds the leftmost position where the literal is followed by a character of the class, or reports that there is none |
| `Parser.FirstMatchExists` | index.js:23 | a match exists iff a leftmost match exists |
| `Parser.FirstMatchIsUnique` | index.js:23 | the leftmost match is unique |
| `Parser.DigitsAt` | index.js:23 | the captured group consists of digits only |
| `Parser.DigitRunEnd` | index.js:23 | `\d+` is greedy: the captured run is all digits and is followed by a non-digit or the end |
| `Parser.DecimalValue` | index.js:25 | `parseInt(_, 10)` on a digit string: the empty numeral is 0 and the last digit is the units digit of the value |
| `Parser.DecimalValueIsZero` | index.js:25 | a numeral reads as 0 exactly when all its digits are zeros |
| `Parser.DecimalRoundTrip` | index.js:25 | reading a decimal numeral back with `parseInt` gives its number |
| `Parser.LeadingZeroIgnored` | index.js:25 | leading zeros do not change the value |
| `Parser.LengthRuleFromMatch` | index.js:23-26 | the leftmost match determines `min_length`: absent without a match, otherwise the captured number plus one |
| `Parser.LetterRuleFromMatch` | index.js:27-30 | the leftmost match determines the letter: absent without a match, otherwise the letter after the literal |
| `Parser.ParseNaturalLanguageQuery` | index.js:13-35 | the result follows the five rules on the lower-cased query, with "first vowel" taking precedence over "containing the letter" and `max_length` never set |
| `Parser.InterpretationIsUnique` | index.js:13-35 | the rules determine the filter set: two filter sets that follow them for the same query are equal |
| `Parser.EmptyFiltersIffNoRuleFires` | index.js:13-35 | the filter set is empty exactly when no rule fires |
| `Parser.LongerThanFiresOnlyLengthRule` | index.js:15-33 | on "longer than N" the length rule matches at position 0 and no other rule fires |
| `Parser.LongerThanQueryMeansMinLength` | index.js:23-26 | "longer than N" is read as the single filter `min_length = N + 1` |
| `Store.Falsy` | index.js:39 | arrays and objects are truthy, a string is falsy only when empty, a number only when zero |
| `Store.ValuesOf` | index.js:68 | one record per key, position i holding the record of the i-th key |
| `Store.Remove` | index.js:140 | removing a key keeps every other key and their order, one fewer element when the key was present once |
| `Store.ValuesAppend` | index.js:55 | a new key set last adds its record last in `values()` |
| `Store.ConsistentAfterAdd` | index.js:45-55 | adding the analysed record of a new non-empty key keeps the store invariant |
| `Store.ConsistentAfterRemove` | index.js:140 | deleting a key keeps the store invariant |
| `Store.StringStore.constructor` | index.js:11 | the store starts empty and consistent |
| `Store.StringStore.Values` | index.js:68 | `values()` lists the stored records in the insertion order of their keys, one per stored key |
| `Store.StringStore.Add` | index.js:48-55 | the analysed record of the new key is stored under it and its key is appended to the order |
| `Store.StringStore.Insert` | index.js:37-57 | 400 for a falsy value, 422 for a non-string, 409 for a stored string, all without change; otherwise 201 with the analysed record, stored under the value and appended last |
| `Store.StringStore.Get` | index.js:59-65 | 200 with the stored record for a present key, 404 with nothing for an absent one |
| `Store.StringStore.Delete` | index.js:135-142 | 404 and no change for an absent key; otherwise 204, that key removed and every other entry and its order kept |
| `Store.StringStore.List` | index.js:67-101 | `filters_applied` holds exactly the supplied parameters, the data is the in-order subsequence of the stored records matching all of them, and `count` is its length |
| `Store.StringStore.FilterByNaturalLanguage` | index.js:103-133 | 400 when the query is missing, empty or no rule fires; otherwise 200 with the parsed filters and exactly the matching records in order |
| `Store.AppliedFilters` | index.js:71-95 | `filters_applied` has a field exactly for each supplied parameter: `is_palindrome` as the test `== "true"`, the numbers as parsed, `contains_character` as given |
| `Store.ApplyListParams` | index.js:68-100 | the listing's chain of `filter` calls gives exactly the records matching every supplied parameter, in order |
| `Store.ApplyParsedFilters` | index.js:112-124 | the natural-language handler's chain of `filter` calls gives exactly the records matching the parsed filters other than `max_length`, in order |
| `Store.InsertTwice` | index.js:37-57 | a second insertion of the same string gives 409 and the store grows by exactly one record |
| `Store.InsertThenGet` | index.js:37-65 | a string just inserted is read back as the record the insertion returned |
| `Store.DeleteTwice` | index.js:135-142 | a second deletion of the same key gives 404 |
| `Store.ReinsertMovesLast` | index.js:55-140 | a string deleted and inserted again moves to the end of the listing order |
| `Routes.FirstRoute` | index.js:59-103 | dispatch picks the first registered route whose pattern matches the path |
| `Routes.Dispatch` | index.js:59-103 | no handler runs exactly when no route matches; otherwise the handler of the first matching route runs |
| `Routes.NaturalLanguagePathIsShadowed` | index.js:59-103 | as registered, `/strings/filter-by-natural-language` goes to the single-string handler |
| `Routes.NaturalLanguageHandlerIsUnreachable` | index.js:59-103 | as registered, no path reaches the natural-language handler |
| `Routes.EveryHandlerIsReachable` | index.js:59-103 | with the fixed path registered first, each GET handler is reachable |
| `Routes.ReorderingChangesOnlyThatPath` | index.js:59-103 | the reordering changes the dispatch of that one path and of no other |

## Left out

- Express plumbing is not modelled: `cors`, `express.json`, `dotenv`, `app.listen` and logging. Routing appears only in `Routes`, as first-match over path segments. URL decoding, trailing slashes and case-insensitive matching are not modelled.
- SHA-256 is the `digest` parameter. The model relies only on its being a function, so it does not prove that distinct values get distinct ids.
- `created_at` comes from the clock. It is a parameter of `Insert`.
- `Text.Lower`: `toLowerCase` is modelled for ASCII letters only. Other letters are left unchanged.
- Strings are sequences with one element per character. The source mixes UTF-16 code units (`length`, `split('')`) with code points (`for…of`, `new Set`). For characters outside the Basic Multilingual Plane the two differ, and the model does not capture that difference.
- `Analyzer.CharacterFrequency` returns a `map`, so key order is left out. A JavaScript object lists integer-like keys such as `"1"` first in numeric order and the other keys in first-seen order.
- `Store.StringStore.List` takes numeric parameters already parsed. `parseInt` turns a non-empty raw string into a `NumParam`, a number or NaN. Its leniency (`"5abc"` is 5) is not modelled. Repeated parameters, which Express passes as arrays, are not modelled either.
- `Store.StringStore.FilterByNaturalLanguage` takes `query` as a string. A repeated `query` parameter arrives as an array, passes the `!query` test, and `toLowerCase` (index.js:15) then throws, so the server answers 500; that path is not modelled.
- `Parser.ParseNaturalLanguageQuery`: `min_length` is an unbounded integer. JavaScript numbers lose precision above 2^53, and a very long digit run parses to Infinity; neither is modelled.
- `Store.StringStore.Insert` assumes the JSON body is an object. The body's `value` field is an `Option<Json>`.
- Error message texts and JSON serialisation of responses are not modelled. Only status codes and payload values are.

Behaviour kept as the code has it:

- The word-count guard for a single empty token (analyzer.js:12) can no longer fire once `filter(Boolean)` has run. The model keeps it as written, and `WordCount` proves the result is the run count anyway.
- The `lengthMatch[1]` and `containsMatch[1]` truthiness checks (index.js:24, 28) always hold after a match, because the captured group is non-empty.
- Any non-empty `is_palindrome` parameter other than `"true"` filters for non-palindromes.
- An empty `query` is rejected with 400 like a missing one.

## Findings

| source | as written | input that shows it | evidently intended | confidence | as-written member | corrected member |
|---|---|---|---|---|---|---|
| index.js:59-103 | `GET /strings/:string_value` is registered before `GET /strings/filter-by-natural-language`, and Express runs the first matching route | `GET /strings/filter-by-natural-language?query=palindromic` gives 404 (or the record of the string `filter-by-natural-language`, if one is stored) | the natural-language handler serves that path | high; not executed | `Routes.NaturalLanguagePathIsShadowed` | `Routes.EveryHandlerIsReachable` |

`Routes.NaturalLanguageHandlerIsUnreachable` generalises the as-written half: no path reaches the handler. `Routes.ReorderingChangesOnlyThatPath` shows the corrected order sends every other path where it went before. `Store.StringStore.FilterByNaturalLanguage` models the handler that the corrected order reaches.
