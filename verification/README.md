# PasswordPolice core in Dafny

A model of the core of PasswordPolice, a PHP library that checks passwords
against a policy. It covers two families of components.

- **Word formatters** turn one word into the spellings a dictionary check
  should also try:
  - the leetspeak decoder (`LeetDecoder`) reads each leet token as any letter
    it may stand for;
  - the mixed-case formatter (`MixedCase`) yields every combination of case
    forms;
  - the identity formatter (`Unformatter`) passes words through unchanged.
- **Rules** decide whether a password complies:
  - `Length`: bounds on the number of characters;
  - `UpperCase`: bounds on the number of characters that change under
    lower-casing;
  - `HaveIBeenPwned`: bounds on how often the password occurs in the breach
    corpus of the Have I Been Pwned? range service;
  - `SymbolRule`: the message table of the symbol rule;
  - `ChangeWithIntervalRule`: weighted constraints on the time since the
    last password change, kept in stable descending-weight order.

Modules:

| module | models |
|---|---|
| `Wrappers` | `Option`, `Result` and the `Outcome` of an `enforce` call |
| `Variants` | the "each letter in front of each suffix" enumeration shared by both branching formatters |
| `LeetDecoder` | the encode table, the decode table the constructor builds from it, the per-word prefix table, and the backtracking enumeration of decodings |
| `MixedCase` | the per-character branch list and the enumeration of case variants, with case mapping as a parameter |
| `Ascii` | ASCII case mapping, the instance of that parameter used by concrete lemmas |
| `Unformatter` | the identity formatter |
| `WeightOrder` | the stable descending-weight sort of the interval rule's constraints |
| `Messages` | violation messages as a kind plus the numbers they quote, and what each kind admits |
| `RangeRule` | the `(min, max)` configuration shared by the count rules: constructor validation, the range test, and the five-way message table |
| `Length`, `UpperCase`, `HaveIBeenPwned`, `SymbolRule`, `ChangeWithIntervalRule` | one module per rule |

The leet decoder's output is characterised by *readings*, which are defined
independently of the enumeration. A reading of a word splits the word into
pieces. Each piece is either a table token replaced by one of its letters, or
a single character kept as it is. The main decoder theorem,
`DecodingsAreReadings`, says the enumeration yields exactly the readings.

Two places where the rules differ from each other or from the `Rule`
interface. The model follows each class's own code.

- **Interval rule message table.** The count rules' message tables have a
  "none allowed" branch for a maximum of zero (src/Rule/Length.php:83-87).
  The interval rule's `getMessage` has no such branch, so a `(0, 0)` window
  reads "at most 0"; see `ChangeWithIntervalRule.ZeroWindowMessage`.
- **Count rules are not weighted.** The `Rule` interface's `test` takes a
  weight threshold that defaults to 1 (src/Rule.php:22). `Length::test`,
  `UpperCase::test` and `HaveIBeenPwned::test` take only the password and
  hold a single `(min, max)` pair. Only `ChangeWithIntervalRule.Test` has a
  threshold.

## Model

| member | source | states |
|---|---|---|
| Variants.ExpandAt | src/WordFormatter/MixedCase.php:43-47 | the enumeration order of the nested loops: output `j * n + i` is letter `i` in front of suffix `j`, so the letter varies fastest |
| Variants.ExpandMember | src/WordFormatter/LeetDecoder.php:92-96 | a string is produced iff its first character is one of the letters and its remainder is one of the suffixes |
| LeetDecoder.Push | src/WordFormatter/LeetDecoder.php:47 | appending to a PHP array key adds the key at the end the first time it is seen and keeps the key order otherwise |
| LeetDecoder.PushLookup | src/WordFormatter/LeetDecoder.php:47 | the letter is appended to that token's list, and every other token's list is unchanged |
| LeetDecoder.PushMaps | src/WordFormatter/LeetDecoder.php:47 | after the append, the token maps to the letter, and nothing else gains or loses a mapping |
| LeetDecoder.BuildLookup | src/WordFormatter/LeetDecoder.php:45-49 | after the nested loops, each token's letter list is the letters of the visited pairs for that token, in visiting order |
| LeetDecoder.InvertIsInverse | src/WordFormatter/LeetDecoder.php:43-50 | the constructed table has distinct keys, exactly the tokens of the encode table, and each key lists the letters whose token list contains it, in encode-table order |
| LeetDecoder.InvertMaps | src/WordFormatter/LeetDecoder.php:43-50 | token `k` lists letter `c` iff `k` is among the encode-table tokens of `c` |
| LeetDecoder.Construct | src/WordFormatter/LeetDecoder.php:43-50 | the constructor's two loops build a well-formed inverse of any encode table with non-empty tokens, with letters in table order |
| LeetDecoder.New | src/WordFormatter/LeetDecoder.php:14-50 | the decoder built from the fixed encode table is its inverse, and its keys are exactly the table's tokens |
| LeetDecoder.DecodeTableSamples | src/WordFormatter/LeetDecoder.php:15-32 | in any inverse of the fixed table, "1" reads as I or L, "∂" as A or D, and the two-character "vv" as W |
| LeetDecoder.Matching | src/WordFormatter/LeetDecoder.php:58-63 | the entries kept are prefixes of the word, and well-formedness is preserved |
| LeetDecoder.MatchingMaps | src/WordFormatter/LeetDecoder.php:58-63 | the filtered table maps `k` to `c` iff the full table does and `k` is a prefix of the word |
| LeetDecoder.PrefixTable | src/WordFormatter/LeetDecoder.php:56-67 | every key of the per-word table is a prefix of the word, and no key is empty, so the recursion always consumes input |
| LeetDecoder.PrefixTableMaps | src/WordFormatter/LeetDecoder.php:56-67 | the per-word table maps the matching tokens as the decode table does, and also maps the first character to itself |
| LeetDecoder.FormatEntriesMember | src/WordFormatter/LeetDecoder.php:91-97 | a string is produced by the entry loop iff some entry's letter starts it and the rest decodes the word after that entry's token |
| LeetDecoder.DecodingsAreReadings | src/WordFormatter/LeetDecoder.php:84-98 | soundness and completeness: `formatWord` yields a string iff it is a reading of the word |
| LeetDecoder.EmptyWord | src/WordFormatter/LeetDecoder.php:86-89 | the empty word yields exactly the empty string |
| LeetDecoder.WordIsADecoding | src/WordFormatter/LeetDecoder.php:64 | every word is among its own decodings, because each first character is always offered as itself |
| LeetDecoder.ReadingLength | src/WordFormatter/LeetDecoder.php:92-94 | each step consumes at least one character and yields exactly one, so a reading is never longer than the word |
| LeetDecoder.ReadingLengthSingleTokens | src/WordFormatter/LeetDecoder.php:92-94 | with one-character tokens only, every reading has the word's length |
| LeetDecoder.DecodingLength | src/WordFormatter/LeetDecoder.php:84-98 | no decoding is longer than the word |
| LeetDecoder.PlainWordDecodesToItself | src/WordFormatter/LeetDecoder.php:56-67 | a word in which no token starts at any position decodes to itself and nothing else |
| LeetDecoder.ApplyWithMember | src/WordFormatter/LeetDecoder.php:73-78 | a string is produced for a word list iff it decodes one of the words |
| LeetDecoder.ApplyWithAppend | src/WordFormatter/LeetDecoder.php:73-78 | each word's decodings appear in input order, as one block per word |
| LeetDecoder.ReadingAppend | src/WordFormatter/LeetDecoder.php:84-98 | readings compose: reading `a` as `x` and `b` as `y` reads `a + b` as `x + y` |
| LeetDecoder.ReadCharwise | src/WordFormatter/LeetDecoder.php:84-98 | replacing each character by a letter of its one-character token, or keeping it, gives a reading |
| LeetDecoder.LeetSpeakExample | tests/WordFormatter/LeetspeakTest.php:41-46 | with the constructed table, "LEET SPEAK" is among the decodings of "1337 5P34K" |
| LeetDecoder.PlainWordExample | tests/WordFormatter/LeetspeakTest.php:31-36 | with the constructed table, "fOoBaR" yields exactly itself |
| MixedCase.Branches | src/WordFormatter/MixedCase.php:33-41 | the character comes first; the list contains exactly the character and its lower and upper forms; its length counts the forms that differ |
| MixedCase.EmptyWord | src/WordFormatter/MixedCase.php:28-31 | the empty word yields exactly the empty string |
| MixedCase.VariantsCharacterised | src/WordFormatter/MixedCase.php:26-47 | a string is a variant iff it has the word's length and each character is a branch of the word's character at that position |
| MixedCase.VariantShape | src/WordFormatter/MixedCase.php:26-47 | each variant keeps the length and at each position holds the character or one of its case forms |
| MixedCase.CaselessSingleBranch | src/WordFormatter/MixedCase.php:34-41 | a character without case forms contributes one branch |
| MixedCase.VariantCount | src/WordFormatter/MixedCase.php:26-47 | the number of variants, duplicates included, is the product of the branch counts |
| MixedCase.FirstVariantIsWord | src/WordFormatter/MixedCase.php:26-47 | the first variant produced is the word itself |
| MixedCase.FirstCharFastest | src/WordFormatter/MixedCase.php:43-47 | the first character varies fastest: variant `j * b + i` is branch `i` in front of suffix variant `j` |
| MixedCase.AsciiLettersDoubling | src/WordFormatter/MixedCase.php:26-47 | with ASCII case mapping, `n` letters give `2^n` variants |
| MixedCase.TwoLetterExample | src/WordFormatter/MixedCase.php:26-47 | "ab" yields "ab", "Ab", "aB", "AB" in that order |
| MixedCase.ApplyAppend | src/WordFormatter/MixedCase.php:15-20 | the output for a concatenated word list is the concatenation of the outputs |
| MixedCase.ApplySingle | src/WordFormatter/MixedCase.php:15-20 | the output for one word is that word's variants |
| Unformatter.ApplyCurrent | src/WordFormatter/Unformatter.php:18-21 | the output has the input's length and holds the same word at each position |
| Unformatter.Idempotent | src/WordFormatter/Unformatter.php:18-21 | applying the identity formatter twice is applying it once |
| Unformatter.NeutralInChain | src/WordFormatter/Unformatter.php:18-21 | placed before or after the leet decoder or the mixed-case formatter, the identity formatter changes nothing |
| WeightOrder.InsertPermutes | src/Rule/ChangeWithIntervalRule.php:43-50 | inserting adds exactly the new element: the multiset grows by it and nothing else |
| WeightOrder.InsertSorted | src/Rule/ChangeWithIntervalRule.php:45-50 | inserting into a descending list keeps it descending |
| WeightOrder.InsertStable | src/Rule/ChangeWithIntervalRule.php:45-50 | inserting into a sorted list puts the new element after all others of its weight |
| WeightOrder.InsertSplit | src/Rule/ChangeWithIntervalRule.php:45-50 | the new element lands after every element at least as heavy and before every lighter one, and the others keep their places |
| WeightOrder.SortSortsAndPermutes | src/Rule/ChangeWithIntervalRule.php:45-50 | the sort yields a descending-weight permutation of its input |
| WeightOrder.SortIsStable | src/Rule/ChangeWithIntervalRule.php:45-50 | elements of equal weight keep their relative order |
| WeightOrder.SortedStableUnique | src/Rule/ChangeWithIntervalRule.php:45-50 | two descending lists that agree on the order within every weight are equal, so any stable sort gives this result |
| WeightOrder.SortKeepsSorted | src/Rule/ChangeWithIntervalRule.php:45-50 | sorting an already sorted list changes nothing |
| WeightOrder.AppendThenSortIsInsert | src/Rule/ChangeWithIntervalRule.php:43-50 | appending to a sorted list and re-sorting equals a single insertion |
| ChangeWithIntervalRule.AddConstraint | src/Rule/ChangeWithIntervalRule.php:41-53 | the constraints end descending by weight, hold exactly the old ones plus the new one, and keep insertion order within each weight |
| ChangeWithIntervalRule.New | src/Rule/ChangeWithIntervalRule.php:30-33 | a new rule holds exactly the one given constraint |
| ChangeWithIntervalRule.AddConstraintPlacement | src/Rule/ChangeWithIntervalRule.php:41-53 | on a sorted rule the new constraint goes after every constraint at least as heavy and before every lighter one |
| ChangeWithIntervalRule.GetDate | src/Rule/ChangeWithIntervalRule.php:121-131 | a date exists iff the password object has former passwords, and it is the first one's date |
| ChangeWithIntervalRule.FirstViolation | src/Rule/ChangeWithIntervalRule.php:105-114 | no result iff every considered constraint holds; otherwise the result is a considered, failing constraint with every earlier considered one holding |
| ChangeWithIntervalRule.GetViolation | src/Rule/ChangeWithIntervalRule.php:99-115 | no date means no violation; otherwise the scan runs on the time elapsed since that date |
| ChangeWithIntervalRule.Test | src/Rule/ChangeWithIntervalRule.php:62-68 | compliant iff there is no date or every constraint at or above the threshold holds for the elapsed time |
| ChangeWithIntervalRule.GetMessage | src/Rule/ChangeWithIntervalRule.php:138-176 | the message chosen for each configuration, in the source's order: no maximum gives "at least min", otherwise minimum zero gives "at most max", otherwise equal bounds give "exactly min", otherwise "between min and max"; never "none" |
| ChangeWithIntervalRule.Validate | src/Rule/ChangeWithIntervalRule.php:76-92 | an error iff the password fails with no threshold; the error names the password and carries the weight and message of the first violated constraint in list order, every earlier constraint holding |
| ChangeWithIntervalRule.NoDateAlwaysPasses | src/Rule/ChangeWithIntervalRule.php:121-131 | a plain string, or a password without history, complies and validates |
| ChangeWithIntervalRule.HighThresholdPasses | src/Rule/ChangeWithIntervalRule.php:105-108 | a threshold above every weight skips every constraint |
| ChangeWithIntervalRule.ThresholdMonotone | src/Rule/ChangeWithIntervalRule.php:105-108 | raising the threshold can only turn failure into compliance |
| ChangeWithIntervalRule.ViolationIsHeaviest | src/Rule/ChangeWithIntervalRule.php:76-92 | on a sorted rule the reported weight is the largest weight among the violated constraints |
| ChangeWithIntervalRule.MessageDescribesConstraint | src/Rule/ChangeWithIntervalRule.php:138-176 | for sensible bounds, the message admits exactly the elapsed times the constraint accepts |
| ChangeWithIntervalRule.ZeroWindowMessage | src/Rule/ChangeWithIntervalRule.php:147-163 | a `(0, 0)` window reads "at most 0", because the table has no maximum-zero branch |
| RangeRule.New | src/Rule/Length.php:24-48 | the constructor accepts exactly the valid configurations, and the getters return the arguments; otherwise the first failing check picks the error, in the source's order |
| RangeRule.Test | src/Rule/Length.php:50-61 | a count passes iff it is at least the minimum and, when a maximum is set, at most the maximum |
| RangeRule.CountMessage | src/Rule/Length.php:73-109 | the message chosen for each configuration, in the source's order: no maximum gives "at least min", otherwise maximum zero gives "none", otherwise minimum zero gives "at most max", otherwise equal bounds give "exactly min", otherwise "between min and max" |
| RangeRule.MessageDescribesTest | src/Rule/Length.php:50-109 | for every configuration the constructor accepts, the message admits exactly the counts the test accepts |
| RangeRule.ZeroZero | src/Rule/Length.php:83-87 | `(0, 0)` reads "none" and passes only a count of zero |
| Length.Test | src/Rule/Length.php:50-61 | a password passes iff its character count lies within the bounds |
| Length.Enforce | src/Rule/Length.php:66-71 | throws iff the test fails, with the rule's message |
| Length.MessageMatchesLength | src/Rule/Length.php:50-109 | the thrown message admits exactly the compliant lengths, and extending a too-long password never makes it pass |
| UpperCase.UpperCount | src/Rule/UpperCase.php:111-127 | the count is at most the length; it is zero iff no character changes under lower-casing, and full iff all do |
| UpperCase.Count | src/Rule/UpperCase.php:111-127 | the backward loop counts the characters that differ from their lower-case form |
| UpperCase.UpperCountAppend | src/Rule/UpperCase.php:111-127 | the count is additive over concatenation |
| UpperCase.AsciiCount | src/Rule/UpperCase.php:111-127 | with ASCII lower-casing, all-capital strings count their length and strings without capitals count zero |
| UpperCase.Test | src/Rule/UpperCase.php:50-61 | a password passes iff its upper-case count lies within the bounds |
| UpperCase.Enforce | src/Rule/UpperCase.php:66-71 | throws iff the test fails, with the rule's message |
| UpperCase.MessageMatchesCount | src/Rule/UpperCase.php:50-109 | the message admits exactly the compliant counts; a password without cased characters passes iff the minimum is zero |
| SymbolRule.GetMessage | src/Rule/SymbolRule.php:15-67 | the same five-way choice of message for each configuration, including the final "between" branch, with the rule's characters quoted in every branch |
| SymbolRule.MessageDescribesConstraint | src/Rule/SymbolRule.php:15-67 | for sensible bounds, the message admits exactly the symbol counts within them |
| SymbolRule.Samples | src/Rule/SymbolRule.php:15-67 | one sample per row of the table, with "$%" quoted |
| HaveIBeenPwned.Substr | src/Rule/HaveIBeenPwned.php:199-200 | PHP's `substr` clamps both ends, so the result is the characters from `start`, at most `length` of them, and empty past the end |
| HaveIBeenPwned.SubstrFrom | src/Rule/HaveIBeenPwned.php:214 | the characters from `start` to the end, empty past the end |
| HaveIBeenPwned.RequestUri | src/Rule/HaveIBeenPwned.php:198-203 | the request is the range endpoint followed by the upper-cased first characters of the digest, at most five of them |
| HaveIBeenPwned.DigestSplit | src/Rule/HaveIBeenPwned.php:198-200 | a 40-character digest splits into a 5-character prefix and a 35-character suffix that together are the upper-cased digest |
| HaveIBeenPwned.RequestDependsOnlyOnPrefix | src/Rule/HaveIBeenPwned.php:198-203 | digests that agree on their first five characters produce the same request |
| HaveIBeenPwned.JoinExplode | src/Rule/HaveIBeenPwned.php:211 | joining the pieces of `explode` with CRLF gives back the body |
| HaveIBeenPwned.ExplodeJoin | src/Rule/HaveIBeenPwned.php:211 | splitting CRLF-joined lines that contain no CRLF gives back the lines |
| HaveIBeenPwned.LeadingIntDecimal | src/Rule/HaveIBeenPwned.php:214 | the integer cast reads back a decimal count followed by any non-digit text |
| HaveIBeenPwned.CountInLines | src/Rule/HaveIBeenPwned.php:212-217 | with no line for the suffix the count is zero |
| HaveIBeenPwned.FirstMatchDecides | src/Rule/HaveIBeenPwned.php:212-216 | the first line whose first 35 characters are the suffix decides the count, and later lines are ignored |
| HaveIBeenPwned.GetCount | src/Rule/HaveIBeenPwned.php:196-221 | the count fails iff the exchange fails, and then carries that failure as a `TestException` |
| HaveIBeenPwned.Test | src/Rule/HaveIBeenPwned.php:125-138 | a failed lookup propagates; otherwise the password passes iff its breach count lies within the bounds |
| HaveIBeenPwned.Enforce | src/Rule/HaveIBeenPwned.php:143-148 | passes iff the test succeeds with true; a rule violation with the rule's message iff it succeeds with false; the `TestException` iff it cannot run |
| HaveIBeenPwned.DefaultRule | src/Rule/HaveIBeenPwned.php:44-58 | the default `(0, 0)` is accepted, reads "must not appear in any breaches", and passes exactly the passwords with count zero |
| HaveIBeenPwned.CountInRecordLines | src/Rule/HaveIBeenPwned.php:212-217 | on `SUFFIX:COUNT` lines the loop returns the count of the first record with the suffix, or zero |
| HaveIBeenPwned.CountFromService | src/Rule/HaveIBeenPwned.php:196-221 | end to end, when the service answers with a list of records, the count is that of the first record whose suffix is the digest's suffix, or zero |
| Ascii.UpperString | src/Rule/HaveIBeenPwned.php:198 | `strtoupper` maps each character to its ASCII upper-case form and keeps the length |

## Left out

- HTTP client and request-factory discovery (`getClient`, `getRequestFactory`, the setters) and their `LogicException`s are left out; the exchange is the `fetch` parameter of `HaveIBeenPwned.GetCount`.
- SHA-1 is the `sha1` parameter, a function from password to hex digest; the hash itself is not modelled.
- `mb_strtolower` and `mb_strtoupper` on one code point are parameters of `MixedCase` and `UpperCase`. Only ASCII instances are given, and a case mapping that changes the number of code points is not modelled.
- Translation and message rendering (`Translator`, `transChoice`, pluralisation, `CarbonInterval::forHumans`) are left out; a message is its kind plus the numbers it quotes.
- `DateInterval`, `DateTimeInterface` and the clock are integers in one unit, with the current time as a parameter; the `DateIntervalConstraint` class is not part of this model, and its test is taken to be `min <= elapsed <= max`.
- ChangeWithIntervalRule.Holds: the interval check compares integer durations, so calendar arithmetic (months of different lengths) is not modelled.
- Generator laziness and PHP array keys are left out: formatter outputs are finite sequences, and an integer-like array key (a digit token in the decode table) is treated as the same string.
- The formatter chaining trait (`FormatterChaining`, the `next` link) is not part of this model; `Unformatter.NeutralInChain` composes the formatters directly.
- The character-class rule that `SymbolRule` extends (its constructor, character counting and constraint list) is not part of this model; only `getMessage` is.
- The `RuleException` and `TestException` classes carry only the message kind or the failure cause; the rule reference and the exception chain are left out.
- HaveIBeenPwned.LeadingInt: models PHP's `(int)` cast only for text that starts with its digits; leading whitespace, signs, exponents and integer overflow are not modelled, because the service writes plain decimal counts.
- HaveIBeenPwned.Substr: is stated only for non-negative `start` and `length`, the only arguments the rule passes; negative offsets are not modelled.
- UpperCase.Count: ignores the byte/code-point splitting helper (`splitString`) and works on code points directly.
