# String analysis service: a Dafny model

`app.js` is a small Express service that stores text strings, computes a
fixed set of properties for each of them and lists the stored strings
through structured or natural-language filters. This project models its
core and proves what the code promises about it:

- **Analyzer** (`analyzer.dfy`): `analyzeString` computes `length`,
  `is_palindrome` (the text lowercased and reduced to `[a-z0-9]`, read
  backwards), `unique_characters`, `word_count` (`trim`, `split(/\s+/)`,
  drop empty pieces), `sha256_hash` and `character_frequency_map` (the
  counting loop, as a `method` with its loop invariant). The word count is
  proved equal to an independent definition, the number of maximal runs of
  non-whitespace characters. The frequency map is proved to hold one key per
  distinct character, and its counts are proved to sum to the length.
- **Store** (`string_store.dfy`): the `strings` dictionary is a class whose
  fields are a `map` from value to record plus the keys in insertion order,
  because `Object.values` lists records in that order. Its invariant says
  every record is the one `POST /strings` built for its key. `Insert`
  (POST /strings), `Get` (GET /strings/:text) and `Delete`
  (DELETE /strings/:text) each state the whole new state and every error
  case, in the order the handler checks them.
- **Structured filter** (`query_filter.dfy`): GET /strings applies each
  present parameter as one more order-preserving `filter`, and stops at the
  first malformed parameter. The method is proved to return exactly the
  records that meet every requested criterion, in storage order, together
  with the echo of the parameters given.
- **Natural-language interpreter** (`natural_language.dfy`): the
  lowercased query is read by four phrase rules (`palindrome`,
  `single word`, `longer than N`, and a containment phrase followed by
  the first letter standing before whitespace or the end). The resulting
  filters are applied like the structured ones. Each rule is characterised
  by a lemma, and the example queries are worked out.
- **JavaScript text primitives** (`js_text.dfy`): the `\s` class, ASCII
  `toLowerCase`, `trim`, `includes`, a leftmost search (what `match`
  reports), and `parseInt` without a radix. `parseInt` is proved to read
  back `String(n)`, with trailing non-digits ignored.

The SHA-256 digest is a function parameter of the store. The creation
timestamp is a parameter of `Insert`. HTTP requests become method arguments:
the JSON body value becomes `BodyValue`, and query parameters become a map
from name to string.

`POST /strings` with `"value": ""` is rejected with "Need text", because
`!text` holds of the empty string (app.js:36); the model does the same.

## Model

| member | source | states |
|---|---|---|
| JsText.LowerChar | app.js:142 | `toLowerCase` on one character never yields a capital, maps letters to letters, moves `A`-`Z` up by 32 and leaves every other character unchanged |
| JsText.Lower | app.js:10 | lowercasing keeps the length and lowercases every character in place |
| JsText.LowerIdempotent | app.js:10 | lowercasing twice is lowercasing once |
| JsText.TrimStart | app.js:11 | the input is the result preceded by whitespace only, and the result does not start with whitespace |
| JsText.TrimEnd | app.js:11 | the input is the result followed by whitespace only, and the result does not end with whitespace |
| JsText.FindFirst | app.js:161 | a regular-expression match without `g` reports the leftmost position: the result satisfies the test, no earlier position does, and `None` means no position does |
| JsText.NotIncludes | app.js:146 | `includes` fails when the text lacks one of the pattern's characters |
| JsText.Magnitude | app.js:82 | the magnitude is missing (NaN) exactly when no digit follows the prefix, hexadecimal after `0x` |
| JsText.ParseInt | app.js:82 | `parseInt` is NaN exactly when no digits follow the whitespace and sign, and a leading `-` negates the value |
| JsText.Digits | app.js:156 | `String(n)` is a non-empty run of digits without a leading zero |
| JsText.DigitsValue | app.js:156 | the digits of `String(n)` have value `n` |
| JsText.ParseDigitRun | app.js:156 | `parseInt` of a run of decimal digits is the run's decimal value |
| JsText.ParseIntDecimal | app.js:82 | `parseInt(String(n) + rest)` is `n` for every integer `n`, ignoring trailing non-digits unless they make `0x` |
| Analyzer.KeepLowerAlnum | app.js:10 | the cleaned text holds exactly the input's `[a-z0-9]` characters and nothing else, and is no longer than the input |
| Analyzer.KeepAppend | app.js:10 | cleaning distributes over concatenation, so the kept characters stay in their order |
| Analyzer.Reverse | app.js:22 | the reversal has the same length and character `i` is the input's character `length-1-i` |
| Analyzer.PalindromeIsMirror | app.js:22 | `is_palindrome` holds iff the cleaned text reads the same from both ends |
| Analyzer.PalindromeUnderReversal | app.js:22 | reversing the text does not change `is_palindrome` |
| Analyzer.PalindromeIgnoresCase | app.js:10 | lowercasing the text first does not change `is_palindrome` |
| Analyzer.NoAlnumIsPalindrome | app.js:10 | a text with no letter or digit, the empty text among them, is a palindrome |
| Analyzer.WordEnd | app.js:11 | the leading word ends at the end of the text or at a whitespace character |
| Analyzer.NonEmpty | app.js:11 | `filter(w => w)` keeps exactly the non-empty pieces |
| Analyzer.SplitStep | app.js:11 | `split(/\s+/)` cuts off a whitespace-free first piece and a non-empty whitespace run, then splits the rest |
| Analyzer.SplitPiecesSpaceFree | app.js:11 | no piece of `split(/\s+/)` contains whitespace |
| Analyzer.WordsAreSpaceFree | app.js:11 | every word is non-empty and free of whitespace |
| Analyzer.RunsOfTrim | app.js:11 | trimming does not change the number of maximal non-whitespace runs |
| Analyzer.RunsOfSplit | app.js:11 | the non-empty pieces of the split are as many as the maximal non-whitespace runs |
| Analyzer.WordCountIsRuns | app.js:24 | `word_count` equals the number of maximal runs of non-whitespace characters |
| Analyzer.WordCountZeroIffBlank | app.js:24 | `word_count` is 0 exactly for an empty or whitespace-only text |
| Analyzer.FrequencyMapSnoc | app.js:16 | one more character raises its count by one, starting from 0 |
| Analyzer.CharacterFrequency | app.js:15-16 | the counting loop yields, for each character of the text, the number of its occurrences, and has no other keys |
| Analyzer.TotalCountRemove | app.js:16 | the sum of counts does not depend on which key is taken first |
| Analyzer.FrequencyCountsSumToLength | app.js:15-16 | the counts of `character_frequency_map` add up to the number of characters |
| Analyzer.FrequencyMapKeys | app.js:13 | the map's keys are the distinct characters, so there are `unique_characters` of them, each with a positive count |
| Analyzer.AnalyzeString | app.js:9-28 | the properties are those of the text; `unique_characters` is the map's size, the counts sum to `length`, and `word_count` is 0 iff the text is blank |
| Analyzer.EmptyTextAnalysis | app.js:9-28 | the empty text has length 0, is a palindrome, has no words and no characters |
| StringStore.Without | app.js:208 | removing a key keeps exactly the other keys, and distinct keys stay distinct |
| StringStore.WithoutAppend | app.js:208 | removing a key from a concatenation removes it from each part, so the other keys keep their order |
| StringStore.WithoutAt | app.js:208 | removing the key at position `i` of distinct keys leaves the keys before it followed by the keys after it |
| StringStore.InOrder | app.js:72 | the records are listed key by key in the given order |
| StringStore.InOrderValues | app.js:72 | listing every key once lists every stored record, and nothing else |
| StringStore.AllBuiltAdd | app.js:52 | storing a freshly built record keeps every record the one built for its key |
| StringStore.AllBuiltRemove | app.js:208 | deleting a key keeps every remaining record the one built for its key |
| StringStore.Store.constructor | app.js:6 | the store starts empty and valid |
| StringStore.Store.Records | app.js:72 | `Object.values(strings)` lists each stored record once, oldest first |
| StringStore.Store.Get | app.js:63-67 | a record is found iff its exact text is stored; it is the stored record itself, and it carries that text, its digest and its analysis |
| StringStore.Store.Insert | app.js:31-60 | falsy value is "Need text", other non-strings "Must be string", a stored text "Already exists"; each rejection changes nothing; success adds exactly the analysed record last and it can be read back |
| StringStore.Store.Put | app.js:52 | the new key and its record are added last and the store stays valid |
| StringStore.Store.Delete | app.js:201-210 | a stored text is removed with nothing else changed, an absent one is reported not found, and afterwards it cannot be read |
| QueryFilter.Keep | app.js:86 | `filter` keeps exactly the elements that pass, never adds any, and keeps all when all pass |
| QueryFilter.KeepAppend | app.js:86 | filtering distributes over concatenation, so the storage order is kept |
| QueryFilter.KeepKeep | app.js:75-111 | two filters in a row are the one filter by both tests |
| QueryFilter.SelectExactly | app.js:75-111 | exactly the records that meet every requested criterion are listed |
| QueryFilter.SelectNoCriteria | app.js:72 | with no criteria every record is listed, in order |
| QueryFilter.SelectThenKeep | app.js:75-111 | narrowing a selection by one more test is the selection by the combined criteria |
| QueryFilter.NarrowByPalindrome | app.js:75-79 | the `is_palindrome` filter adds its criterion to those already applied |
| QueryFilter.NarrowByMinLength | app.js:81-87 | the `min_length` filter adds its criterion to those already applied |
| QueryFilter.NarrowByMaxLength | app.js:89-95 | the `max_length` filter adds its criterion to those already applied |
| QueryFilter.NarrowByWordCount | app.js:97-103 | the `word_count` filter adds its criterion to those already applied |
| QueryFilter.NarrowByCharacter | app.js:105-111 | the `contains_character` filter adds its criterion to those already applied |
| QueryFilter.ErrorIsFirstMalformed | app.js:81-109 | the request fails iff some parameter is malformed, and the error names the first one in checking order |
| QueryFilter.CriteriaFromParameters | app.js:75-111 | on success a criterion is in force iff its parameter was given, numbers with the value `parseInt` reads, `is_palindrome` as "equals `true`", and `contains_character` as the one-character parameter itself |
| QueryFilter.Given | app.js:114-119 | the echo holds exactly the given parameters among those named, each with its raw value |
| QueryFilter.GivenAdd | app.js:115 | echoing one more parameter adds it only when it was given |
| QueryFilter.ApplyFilters | app.js:72-111 | the sequence of filters and checks yields the first error, or exactly the selection by the parsed criteria |
| QueryFilter.FiltersApplied | app.js:114-119 | `filters_applied` is the raw value of each filter parameter given |
| QueryFilter.FilterStrings | app.js:70-130 | GET /strings fails iff a parameter is malformed, with that error; otherwise it lists the selection in storage order, its count and the echo |
| QueryFilter.NoFiltersListsAll | app.js:72-124 | without filter parameters every record is listed and nothing is echoed |
| NaturalLanguage.LongerThanDigits | app.js:154 | the captured group is a non-empty run of digits |
| NaturalLanguage.OneMoreThan | app.js:156 | `parseInt` of the captured digits plus one is the digits' value plus one |
| NaturalLanguage.ParseQuery | app.js:142-165 | the rules applied one after another build the filters `Interpret` describes |
| NaturalLanguage.ApplyParsed | app.js:168-184 | applying the parsed filters in the handler's order lists exactly the selection by them |
| NaturalLanguage.FilterByNaturalLanguage | app.js:134-198 | a missing or empty query is refused; otherwise the lowercased query's filters are reported with the original text and the matching records in order |
| NaturalLanguage.NeverMaxLength | app.js:143-165 | no rule ever sets `max_length` |
| NaturalLanguage.MinLengthWhenLongerThan | app.js:154-157 | `min_length` is set iff `longer than ` followed by a digit occurs |
| NaturalLanguage.MinLengthIsStrictlyLonger | app.js:154-157 | `min_length` is one more than the whole digit run after the leftmost `longer than ` |
| NaturalLanguage.CharacterWhenPhraseAndLetter | app.js:159-165 | `contains_character` is set iff a containment phrase matches and some letter stands before whitespace or the end |
| NaturalLanguage.CharacterIsFirstStandaloneLetter | app.js:161-164 | `contains_character` is the first letter followed by whitespace or the end, wherever it is |
| NaturalLanguage.NoRuleListsAll | app.js:143-184 | when no rule fires the filters are empty and every record is listed |
| NaturalLanguage.ExamplesAreLowercase | app.js:142 | the example queries are their own lowercase |
| NaturalLanguage.PalindromesQueryLongerThanAt | app.js:154 | in "palindromes longer than 5" the phrase is first matched at position 12 |
| NaturalLanguage.PalindromesQueryFilters | app.js:146-165 | "palindromes longer than 5" fires the palindrome and length rules only, with `min_length` 6 |
| NaturalLanguage.PalindromesLongerThanFive | app.js:146-165 | "palindromes longer than 5" is read as palindromes of length at least 6 |
| NaturalLanguage.LetterQueryFirstStandalone | app.js:161 | in "strings that contain the letter a" the first letter before a space is at position 6 |
| NaturalLanguage.ContainTheLetterPicksFirstStandalone | app.js:159-164 | "strings that contain the letter a" asks for the letter `s`, not `a` |
| NaturalLanguage.GibberishFilters | app.js:146-165 | "gibberish xyz" fires no rule |
| NaturalLanguage.GibberishListsAll | app.js:168-184 | "gibberish xyz" lists every stored record |

## Left out

- HTTP and Express: routing, status codes and JSON rendering are left out; each handler is a method whose result stands for the response.
- The `catch` blocks (500 "Server error", 500 "Internal server error", 400 "Unable to parse natural language query") are left out. Of the modelled inputs none throws; the natural-language handler throws at `query.toLowerCase()` (app.js:142) when `query` arrives as an array.
- Query parameters given more than once arrive as arrays in Express; the model takes every parameter as one string.
- Route order: `/strings/:text` is declared before `/strings/filter-by-natural-language` and catches its requests. The model treats the two as separate operations.
- Analyzer.AnalyzeString: `sha256_hash` is the digest function the store is given, not SHA-256 itself, and `created_at` is the `now` argument of `Insert`.
- Analyzer.AnalyzeString: `length` counts Unicode code points, whereas JavaScript's `length` counts UTF-16 units; the two differ for characters outside the Basic Multilingual Plane.
- QueryFilter.ParseCriteria: `contains_character` must be one code point; JavaScript's `length !== 1` also rejects a single character outside the Basic Multilingual Plane.
- JsText.Lower: `toLowerCase` is modelled on ASCII letters only; other scripts' case mappings are not modelled.
- JsText.IsSpace: `\s` and `trim` use the white-space characters of Unicode 15; later Unicode versions are not tracked.
- JsText.ParseInt: the value is an exact integer; JavaScript's `parseInt` rounds to a double and yields `Infinity` for numerals over about 309 digits.
- StringStore.Store.Records: `Object.values` lists integer-like keys ("7", "42") first in numeric order; the model lists all keys in insertion order.
- StringStore.Store.Insert: keys inherited by every JavaScript object (`constructor`, `toString`, ...) look present to `strings[text]`; the model's store starts truly empty.
- QueryFilter.FiltersApplied: the echo is a map, so the key order of the JSON object is not modelled; the same holds for `parsed_filters` and `character_frequency_map`.
- The server start-up (`app.listen`) and logging are left out.
