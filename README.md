# String analyser: properties and filter compilers

A Dafny model of the logic of a small string-catalogue service. A submitted
string is reduced to a properties record (length, palindrome flag, number of
distinct characters, word count, SHA-256 hash, character frequency map), and
stored records are later selected either through structured query
parameters or through a small natural-language query. The model covers:

- `Analyser` (`analyser.dfy`): `analyzeString` and its helpers. Each
  property has its own definition over the characters of the string, and
  lemmas show it means what the service promises. `getCharFrequency`, a
  `reduce` that updates its accumulator in place, is a method with a loop
  over a map, proved equal to a pure count function.
- `JsString` (`js_string.dfy`): the JavaScript built-ins those functions call:
  - `\s` and `trim`, using the ECMAScript whitespace set;
  - `toLowerCase`;
  - `split(/\s+/)`;
  - `includes`;
  - the leftmost search that `match` performs;
  - `parseInt`, including whitespace, sign, `0x` prefix and trailing garbage;
  - the string form of an array.
- `Filters` (`filters.dfy`): what the query object handed to the store
  means. It is read as a predicate on stored records:
  - equality on the palindrome flag and on the word count;
  - an inclusive range on the length;
  - ASCII-case-insensitive containment on the value.
- `Controller` (`controller.dfy`): the two filter compilers, lifted out of
  their handlers.
  - `CompileStructured` (`getAllStrings`) first checks the whitelist. It
    then validates and stores each parameter in the handler's own order,
    returning early on the first error. It is proved equal to
    `StructuredResult`, whose meaning is proved in `StructuredResultMeaning`.
  - `CompileNaturalLanguage` (`filterByNaturalLanguage`) applies the
    triggers to the lower-cased query one by one. It builds `parsed_filters`
    and the query object side by side, then runs the conflict check.
- `AnalyserExamples` and `ControllerExamples`: worked examples, proved on
  the model.

Where one might expect otherwise, the model follows the handler code:
- An empty `contains_character` is accepted; it matches every value.
- A `query` that is not a single string, for example a repeated key, is
  rejected like a missing one.
- `word_count=3abc` is accepted as 3, because the check is `parseInt`, not
  "is an integer".
- The letter captured by `containing the letter "x"` is always lower case,
  because the pattern runs on the lower-cased query.

## Model

| member | source | states |
|---|---|---|
| Analyser.Reverse | src/modules/string-analyser/string-analyser.service.ts:11 | the reversal has the length of its input |
| Analyser.ReverseAt | src/modules/string-analyser/string-analyser.service.ts:11 | position i of the reversal holds the character i places from the end |
| Analyser.PalindromeIffMirrored | src/modules/string-analyser/string-analyser.service.ts:9-13 | a string is a palindrome exactly when its normalised form reads the same from both ends, position by position |
| Analyser.NormalizedAppend | src/modules/string-analyser/string-analyser.service.ts:10 | normalising (lower-case, keep a-z0-9) distributes over concatenation |
| Analyser.PalindromeIgnoresCase | src/modules/string-analyser/string-analyser.service.ts:10 | two strings that agree up to ASCII case have the same palindrome flag |
| Analyser.PalindromeIgnoresSeparator | src/modules/string-analyser/string-analyser.service.ts:10 | inserting a character that is not a letter or digit does not change the palindrome flag |
| Analyser.PalindromeWithoutSeparatorAt | src/modules/string-analyser/string-analyser.service.ts:10-12 | removing a non-alphanumeric character at any position does not change the palindrome flag |
| Analyser.PalindromeWithoutAlnum | src/modules/string-analyser/string-analyser.service.ts:9-13 | a string with no ASCII letter or digit (the empty string included) is a palindrome |
| Analyser.MirroredLowerAlnumIsPalindrome | src/modules/string-analyser/string-analyser.service.ts:9-13 | a mirrored string of lower-case letters and digits is a palindrome |
| Analyser.SplitFromCount | src/modules/string-analyser/string-analyser.service.ts:23 | splitting a trimmed string on whitespace runs gives one piece per word start |
| Analyser.CountWordsIsRuns | src/modules/string-analyser/string-analyser.service.ts:18-24 | the word count equals the number of maximal runs of non-whitespace characters |
| Analyser.CountWordsZeroIff | src/modules/string-analyser/string-analyser.service.ts:19-22 | the word count is 0 exactly when the string is empty or all whitespace |
| Analyser.CountWordsCollapsesWhitespace | src/modules/string-analyser/string-analyser.service.ts:23 | any non-empty whitespace run counts like a single space |
| Analyser.CountWordsIgnoresPadding | src/modules/string-analyser/string-analyser.service.ts:19 | leading and trailing whitespace do not change the word count |
| Analyser.CountWordsAtMostLength | src/modules/string-analyser/string-analyser.service.ts:18-24 | there are never more words than characters |
| Analyser.CountUniqueAtMostLength | src/modules/string-analyser/string-analyser.service.ts:29-31 | the number of distinct characters is at most the length |
| Analyser.CountUniqueZeroIff | src/modules/string-analyser/string-analyser.service.ts:29-31 | there are no distinct characters exactly when the string is empty |
| Analyser.Bump | src/modules/string-analyser/string-analyser.service.ts:38 | one reduce step adds the character as a key, increments its count (from 0 when new) and leaves the other keys alone |
| Analyser.FrequencyOfSnoc | src/modules/string-analyser/string-analyser.service.ts:37-40 | the frequency map of s + [c] is one reduce step applied to the frequency map of s |
| Analyser.FrequencyKeysAndCounts | src/modules/string-analyser/string-analyser.service.ts:36-41 | the keys of the frequency map are exactly the characters of the string, each counted at least once |
| Analyser.FrequencySumIsLength | src/modules/string-analyser/string-analyser.service.ts:36-41 | the counts of the frequency map add up to the length |
| Analyser.CountUniqueIsFrequencyKeys | src/modules/string-analyser/string-analyser.service.ts:29-41 | the distinct-character count equals the number of keys of the frequency map |
| Analyser.GetCharFrequency | src/modules/string-analyser/string-analyser.service.ts:36-41 | the loop over the string returns the frequency map: keys are the occurring characters, each value is that character's occurrence count |
| Analyser.PropertiesConsistent | src/modules/string-analyser/string-analyser.service.ts:53-62 | in every record, unique_characters equals the number of map keys and is at most length; word_count is at most length; the counts sum to length; length is 0 exactly when unique_characters is |
| Analyser.AnalyzeString | src/modules/string-analyser/string-analyser.service.ts:53-62 | the record is the function of the value alone (hash included), so equal inputs give equal records; its counts are consistent with its length |
| AnalyserExamples.PalindromeExample | src/modules/string-analyser/string-analyser.service.ts:9-13 | "A man a plan a canal Panama" is a palindrome |
| AnalyserExamples.NotPalindromeExample | src/modules/string-analyser/string-analyser.service.ts:9-13 | "hello" is not a palindrome |
| AnalyserExamples.WordCountExample | src/modules/string-analyser/string-analyser.service.ts:18-24 | "  one   two  three " has 3 words |
| AnalyserExamples.UniqueIsCaseSensitive | src/modules/string-analyser/string-analyser.service.ts:29-31 | "aA" has 2 distinct characters |
| AnalyserExamples.EmptyStringProperties | src/modules/string-analyser/string-analyser.service.ts:53-62 | the empty string has length 0, is a palindrome, has no distinct characters, no words and an empty frequency map |
| JsString.TrimStart | src/modules/string-analyser/string-analyser.service.ts:19 | trimming the start drops exactly the leading whitespace |
| JsString.TrimEnd | src/modules/string-analyser/string-analyser.service.ts:19 | trimming the end drops exactly the trailing whitespace |
| JsString.TrimEmptyIff | src/modules/string-analyser/string-analyser.service.ts:19-20 | the trimmed string is empty exactly when every character is whitespace |
| JsString.FirstMatchIsLeftmost | src/modules/string-analyser/string-analyser.controller.ts:179 | a search result is a position where the pattern matches and where no earlier position matches; no result means no position matches |
| JsString.IncludesIff | src/modules/string-analyser/string-analyser.controller.ts:169 | includes holds exactly when the needle occurs at some position |
| JsString.DigitPrefix | src/modules/string-analyser/string-analyser.controller.ts:179 | the captured digits are the longest run of digits at the start of the text |
| JsString.ParseIntOfDigits | src/modules/string-analyser/string-analyser.controller.ts:181 | parseInt of a run of decimal digits is the number they spell |
| JsString.ParseIntOfDecimal | src/modules/string-analyser/string-analyser.controller.ts:96 | parseInt reads back any integer written in decimal, whatever text follows unless that text starts with a digit, or with x/X after the numeral "0" |
| JsString.ParseIntOfNonNumeric | src/modules/string-analyser/string-analyser.controller.ts:96-97 | text starting with neither whitespace, a sign nor a digit parses to NaN |
| JsString.ParseIntSkipsWhitespace | src/modules/string-analyser/string-analyser.controller.ts:96 | parseInt skips leading whitespace |
| Filters.NoFilterMatchesAll | src/modules/string-analyser/string-analyser.controller.ts:82 | the empty query object selects every record |
| Filters.ContainsIgnoresCase | src/modules/string-analyser/string-analyser.controller.ts:137 | with the `i` option, lower-casing the value or the fragment first changes nothing |
| Filters.EmptyFragmentMatchesAll | src/modules/string-analyser/string-analyser.controller.ts:137 | an empty containment fragment matches every value |
| Controller.UnknownKeys | src/modules/string-analyser/string-analyser.controller.ts:65-68 | the reported keys are exactly the received keys outside the whitelist, and there are no more of them than keys received |
| Controller.UnknownKeysAppend | src/modules/string-analyser/string-analyser.controller.ts:66-68 | unknown keys are reported in `Object.keys` order: the order received, except that array-index keys come first, in ascending order |
| Controller.Lookup | src/modules/string-analyser/string-analyser.controller.ts:75-81 | a parameter is absent exactly when no key has its name, and a present value is one received for it |
| Controller.FirstFailure | src/modules/string-analyser/string-analyser.controller.ts:85-138 | the reported parameter is invalid and every parameter validated before it is valid; there is none exactly when every parameter is valid |
| Controller.CompiledMeaningAt | src/modules/string-analyser/string-analyser.controller.ts:82-138 | each field of the compiled query object holds of a record exactly when the parameters behind it do |
| Controller.CompiledSelectsExactly | src/modules/string-analyser/string-analyser.controller.ts:82-138 | with valid values, the compiled query object selects exactly the records meeting every parameter |
| Controller.CompiledFieldsPresent | src/modules/string-analyser/string-analyser.controller.ts:85-138 | with valid values, a field is left out of the query object exactly when its parameters are absent; the length range is present when either bound is |
| Controller.StructuredResultMeaning | src/modules/string-analyser/string-analyser.controller.ts:58-138 | unknown keys fail before any value is looked at, listing all of them; with known keys only, the result is a success exactly when every value is valid; a success selects exactly the records that meet every parameter, and an absent parameter leaves its field out |
| Controller.ReadBoolean | src/modules/string-analyser/string-analyser.controller.ts:85-93 | is_palindrome fails exactly when it is present and neither "true" nor "false" |
| Controller.ReadInteger | src/modules/string-analyser/string-analyser.controller.ts:95-124 | word_count, min_length and max_length fail exactly when present and parseInt gives NaN, naming the parameter; otherwise they give the parsed integer |
| Controller.ReadText | src/modules/string-analyser/string-analyser.controller.ts:129-138 | contains_character fails exactly when present and not a single string |
| Controller.CompileStructured | src/modules/string-analyser/string-analyser.controller.ts:56-138 | the handler's sequence of early returns and field updates produces exactly the specified result |
| Controller.LongerThanAtOf | src/modules/string-analyser/string-analyser.controller.ts:179 | "longer than N characters" matches, capturing exactly the digits N |
| Controller.LongerThanAtSpells | src/modules/string-analyser/string-analyser.controller.ts:179 | a match spells out the phrase around the digits it captures |
| Controller.LengthAsked | src/modules/string-analyser/string-analyser.controller.ts:179-180 | a captured length is a non-empty run of decimal digits |
| Controller.LengthAskedMeaning | src/modules/string-analyser/string-analyser.controller.ts:179-180 | the digits come from the leftmost occurrence of the phrase, and nothing is captured exactly when the phrase occurs nowhere |
| Controller.MinLengthIsSuccessor | src/modules/string-analyser/string-analyser.controller.ts:181-182 | the lower bound is the captured number plus one, and there is none without a match |
| Controller.LetterAsked | src/modules/string-analyser/string-analyser.controller.ts:186-190 | a captured letter is a lower-case ASCII letter |
| Controller.LetterAskedMeaning | src/modules/string-analyser/string-analyser.controller.ts:186-190 | nothing is captured exactly when the quoted-letter phrase occurs nowhere; otherwise the letter is the one quoted in the leftmost occurrence of the phrase |
| Controller.ContainmentIsOneLetter | src/modules/string-analyser/string-analyser.controller.ts:186-198 | at most one containment constraint, always one lower-case letter; none exactly when no quoted letter, no "first vowel" and no "letter z" |
| Controller.NeverConflicting | src/modules/string-analyser/string-analyser.controller.ts:200-209 | without an upper bound the conflict check cannot fire |
| Controller.CompileNaturalLanguage | src/modules/string-analyser/string-analyser.controller.ts:152-209 | fails exactly when the query is missing, empty or not a string; otherwise each trigger on the lower-cased query sets its own field, the conflict check never fires, and the query object agrees with parsed_filters key for key; text that pulls no trigger succeeds with empty parsed_filters and the empty query object |
| ControllerExamples.UnknownKeysExample | src/modules/string-analyser/string-analyser.controller.ts:65-74 | foo and bar are both reported, in order, even though is_palindrome is also invalid |
| ControllerExamples.InvalidBooleanExample | src/modules/string-analyser/string-analyser.controller.ts:85-93 | is_palindrome=maybe fails with the boolean error |
| ControllerExamples.ValidationOrderExample | src/modules/string-analyser/string-analyser.controller.ts:95-138 | an invalid word_count is reported before an invalid contains_character received earlier |
| ControllerExamples.EmptyQueryExample | src/modules/string-analyser/string-analyser.controller.ts:82-138 | no parameters compile to the empty query object |
| ControllerExamples.LengthBoundsCompile | src/modules/string-analyser/string-analyser.controller.ts:105-127 | digit bounds for min_length and max_length compile to one length range |
| ControllerExamples.LengthRangeExample | src/modules/string-analyser/string-analyser.controller.ts:105-127 | min_length=5 and max_length=10 select exactly the records of length 5 to 10 |
| ControllerExamples.InvertedRangeExample | src/modules/string-analyser/string-analyser.controller.ts:105-127 | min_length=10 and max_length=5 are accepted and select nothing |
| ControllerExamples.TrailingTextExample | src/modules/string-analyser/string-analyser.controller.ts:95-103 | word_count=3abc asks for three words |
| ControllerExamples.ExampleLength | src/modules/string-analyser/string-analyser.controller.ts:179-184 | "palindromic strings longer than 4 characters" asks for length 5 or more |
| ControllerExamples.ExampleNoLetter | src/modules/string-analyser/string-analyser.controller.ts:186-198 | that query derives no containment constraint |
| ControllerExamples.NaturalLanguageExample | src/modules/string-analyser/string-analyser.controller.ts:164-184 | that query gives is_palindrome true and min_length 5, both in parsed_filters and in the query object |
| ControllerExamples.MissingQueryExample | src/modules/string-analyser/string-analyser.controller.ts:158-162 | an empty query, or a repeated one, is rejected as missing |

## Left out

- Persistence and HTTP are not modelled. This covers every store call and status code, `console.log`, and the create, get-by-value and delete handlers. The routes, server start-up, the Mongoose schema and its `toJSON` transform are not part of this model either. The store's scan is represented only by the meaning of the query object (`Filters.Matches`); result order is not modelled.
- SHA-256 is a parameter (`sha256: string -> string`) of `Analyser.AnalyzeString`, because the digest comes from the `crypto` library. Only its determinism is used.
- `toLowerCase` is modelled on ASCII letters only. Other letters are left unchanged.
- Filters.ContainsIgnoringCase: reads the store's `$options: "i"` as ASCII case-insensitivity, because it folds case through the ASCII `toLowerCase`. The store also folds non-ASCII letters (É and é, k and the Kelvin sign U+212A), and the model does not. So what `Controller.StructuredResultMeaning`, `Controller.CompiledSelectsExactly` and `Controller.CompileNaturalLanguage` say about selected records is exact only for ASCII values and fragments.
- A `char` stands for one UTF-16 code unit outside the surrogate range; strings holding surrogates, paired or lone, are outside the model. Under that assumption, `new Set(str)` over code points and `split("")` over code units agree.
- `contains_character` and the captured letter are passed to the store as regular expressions. The model reads them as literal substrings, so it assumes they hold no regular-expression metacharacters.
- `parseInt` returns an unbounded integer. The precision loss of very large numbers (beyond 2^53) is not modelled.
- Mongoose's casting of the strings "true" and "false" to booleans is taken as given. The filter field holds the boolean.
- `created_at` and `id` (the hash again) of a stored record play no part in filtering and are left out.
- The `i` flag of the letter pattern is not modelled separately. The pattern only ever runs on the lower-cased query, which holds no upper-case ASCII letter.
