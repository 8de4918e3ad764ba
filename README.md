# sfn-date's `date(format, timestamp)` in Dafny

This project models the formatter `date(format, timestamp)` of sfn-date
(`date.js`). The formatter picks a pattern and an instant from its two
arguments and renders the instant's components as strings. These are the
zero-padded day, hour, minute and second, the three-digit millisecond, the
month and weekday names from fixed tables, the AM/PM marker and the 12-hour
forms. It then rewrites the pattern through a fixed chain of twenty
`String.prototype.replace` calls, one per format token. Each call works on
what the one before it left.

The model has nine modules.

- `Text` covers characters and JavaScript's rendering of integers: decimal
  digits, the `'0' + n` padding and `substr(2)`.
- `WordRegex` covers the regular expressions the chain uses and what
  `replace` does with them:
  - `\b` over the ASCII word characters `[A-Za-z0-9_]`;
  - the leftmost match, with branches of an alternation tried in order;
  - case-insensitive comparison;
  - the `$` patterns of a replacement string;
  - replacing only the first match without `g`, or every match with it.
- `WholeWords` is an independent reading of the whole-word rules. It treats
  a pattern as words separated by non-word characters, and a `\blit\b`
  replace acts on that list of words.
- `ReplaceChain` is a chain of `replace` calls applied in order.
- `DateFormat` holds the instant's fields, the tables, the components, the
  twenty rules in source order, `Format` (the chain applied to a pattern) and
  `Date` (the argument handling around it).
- `DateProperties` proves what each token renders to, alone in a pattern.
- `IgnoreCaseRules` proves what the two case-insensitive rules, `gmt|utc`
  and `iso`, do.
- `Occurrences` proves what happens to a pattern of several words. Every
  rule but `Week` replaces only the first occurrence of its token, and
  `Week` replaces every one.
- `NumericPatterns` proves what the chain makes of a pattern of separators
  and words that are plain or numeric tokens (`Y`, `m`, `d`, `H`, `i`, `s`
  and the other digit-valued tokens), several different ones together. Each
  token's first occurrence becomes its digits and nothing else changes. The
  default pattern `Y-m-d H:i:s` gives the year, then the two-digit month,
  day, hour, minute and second, which is nineteen characters at fixed places
  for a four-digit year.

The host's `Date` object is not modelled. `Date` receives the current time
`now` and a function `host`. `host` maps an instant to its broken-down
fields (`Fields`, with their ranges in `Fields.Valid`) and to its
`toUTCString()` and `toISOString()` texts, which stay opaque strings.

Facts about the source that the proofs make explicit:

- The rule `/\bgmt|utc\b/i` is an alternation of `\bgmt` and `utc\b`. It
  therefore fires on `gmt` at the start of a word (`gmtx`) and on `utc` at
  the end of one (`xutc`). Its replacement is made before any other rule
  runs.
- `hours` is the string `'0h'` below 10 and the number from 10 on. The `h`
  token therefore renders hours 0 to 12 as two digits and hours 13 to 23
  less 12 without padding. The "leading zeros" in the doc comment hold only
  for hours 0 to 12 and 22 to 23.
- The marker is `AM` exactly when the hour is at most 12, so noon gives
  `AM`.
- `Y` is the year's decimal string with no padding, so a year below 1000
  gives fewer than four digits, although the year is documented as four
  digits.
- `y` is the year's decimal string without its first two characters. It is
  the two-digit year for four-digit years, empty below 100, one digit for
  three-digit years, at least three digits from the year 10000 on, and
  digits only even for a negative year. It is documented as two digits.
- A timestamp of `0` is falsy, so it leaves the current time.

## Model

| member | source | states |
|---|---|---|
| Text.Decimal | date.js:82 | JavaScript's decimal rendering of a natural: digits only, no leading zero, its value is the number, one digit exactly below 10, width by magnitude |
| Text.Canonical | date.js:82 | a digit string without a leading zero is the rendering of its value: digits, value and no leading zero fix the rendering |
| Text.IntToString | date.js:45 | rendering of an integer year: digits with the year's value and no leading zero when non-negative, `-` followed by the digits of its magnitude, again without a leading zero, when negative |
| Text.Pad2 | date.js:56-59 | `n >= 10 ? n : '0' + n`: for `n < 100` exactly two digits whose value is `n` |
| Text.Pad3 | date.js:60-71 | the millisecond padding with `"00"` or `"0"`: for `n < 1000` exactly three digits whose value is `n` |
| Text.DropTwo | date.js:46 | `substr(2)`: the string without its first two characters, empty when it has at most two |
| Text.LeadingZero | date.js:56-59 | a `'0'` in front keeps a digit string's value |
| Text.Upper | date.js:73-74 | the case folding of the `i` flag: each lower-case letter becomes its own upper-case letter (32 code points down), upper-case letters and every other character stay, word characters stay word characters |
| Text.UpperString | date.js:73-74 | case folding character by character |
| Text.LowerString | date.js:65 | lower-casing character by character |
| WordRegex.FirstAlt | date.js:73 | at one position the branches of an alternation are tried in order: the result is the first branch that matches there |
| WordRegex.MatchAtAny | date.js:73 | a regex matches at a position exactly when one of its branches does |
| WordRegex.MatchLen | date.js:73-92 | the match length at a position is positive exactly when the regex matches there, and stays inside the string |
| WordRegex.NoMatchTable | date.js:73-92 | no match anywhere exactly when the match table is all zeros |
| WordRegex.FirstIsEarliest | date.js:73-92 | the first match found is the earliest position with a match |
| WordRegex.Expand | date.js:73-92 | a replacement without `$` is inserted as it is |
| WordRegex.ExpandForms | date.js:73-92 | each of `$$`, `$&`, `` $` `` and `$'` alone gives `$`, the match, the text before and the text after |
| WordRegex.ExpandPlainPrefix | date.js:73-92 | text without `$` at the front of a replacement string is copied and the rest expands on its own |
| WordRegex.ExpandFormThen | date.js:73-92 | a `$` form at the front expands on its own, followed by the expansion of the rest |
| WordRegex.Replacement | date.js:73-92 | the text inserted for a match; without `$` it is the replacement itself |
| WordRegex.PlainPieces | date.js:73-92 | without `$`, every match gets the same replacement text |
| WordRegex.ReplaceFirst | date.js:73-88 | `replace` without `g`: the string is unchanged when nothing matches |
| WordRegex.ReplaceFirstLeftmost | date.js:73-88 | `replace` without `g` splices the replacement over exactly the leftmost match and keeps the rest |
| WordRegex.ReplaceAll | date.js:89 | `replace` with `g`: the string is unchanged when nothing matches |
| WordRegex.Replace | date.js:73-92 | the `g` flag chooses between the two kinds of replacement; no match leaves the string unchanged |
| WordRegex.ScanUnchanged | date.js:89 | the global scan copies the string when there is no match |
| WordRegex.BoundaryInWord | date.js:75-92 | inside a run of word characters, `\b` holds only at its two ends |
| WordRegex.NoMatchJoin | date.js:75-92 | across a non-word character, a regex of word literals matches nowhere exactly when it matches nowhere on either side |
| WordRegex.ReplaceFirstJoin | date.js:75-88 | `replace` without `g` across a non-word separator acts on the left part if it has a match, otherwise on the right part |
| WordRegex.ReplaceAllJoin | date.js:89 | `replace` with `g` across a non-word separator acts on both parts independently |
| WordRegex.ScanJoin | date.js:89 | the global scan splits at a non-word separator |
| WordRegex.SpliceFirstJoin | date.js:75-88 | the first-match splice splits at a non-word separator |
| WordRegex.MatchTableJoin | date.js:75-92 | a non-word separator cuts the match table in two |
| WordRegex.WordEqCaseSensitive | date.js:75-92 | without `i`, a word equals a literal exactly when the strings are equal |
| WordRegex.WholeWordMatchInWord | date.js:75-92 | in a single word, `\blit\b` matches only at position 0, and only when the whole word is the literal |
| WordRegex.WholeWordReplaceInWord | date.js:75-92 | on a single word, both kinds of replace give the replacement when the word is the literal and the word otherwise |
| WordRegex.NoMatchWithoutFirstChar | date.js:73-92 | a string without any branch's first character has no match |
| WholeWords.ReplaceFirstWord | date.js:75-88 | the reference list operation: the first word equal to the literal is swapped and every other word is kept; nothing changes without such a word |
| WholeWords.ReplaceEveryWord | date.js:89 | the reference list operation with `g`: every word equal to the literal is swapped, every other word is kept |
| WholeWords.ReplaceFirstWordAt | date.js:75-88 | when word `j` is the first occurrence, the result is the list with exactly word `j` replaced |
| WholeWords.NoMatchWords | date.js:75-92 | a whole-word regex matches nowhere in joined words when no word is its literal |
| WholeWords.ReplaceFirstWords | date.js:75-88 | `replace` without `g` on joined words equals `ReplaceFirstWord` on the words, separators kept |
| WholeWords.ReplaceAllWords | date.js:89 | `replace` with `g` on joined words equals `ReplaceEveryWord` on the words, separators kept |
| WholeWords.WordNoMatch | date.js:75-92 | on one word, no match exactly when the word is not the literal |
| ReplaceChain.Apply | date.js:73-92 | the chained calls: the input comes back unchanged when no remaining regex matches in it |
| ReplaceChain.ApplySkip | date.js:73-92 | calls whose regex matches nowhere can be stepped over |
| ReplaceChain.ApplyOnly | date.js:73-92 | when only call `k` finds a match, in the input or in what it leaves, the chain's result is that one call's result |
| DateFormat.MonthTables | date.js:49-54 | the month tables have twelve entries and the weekday tables seven; `n` is the month index plus one and `m` its two-digit form |
| DateFormat.LastTwoDigits | date.js:46 | for a four-digit year, dropping two characters leaves the last two digits, padded |
| DateFormat.ShortYear | date.js:46 | `y` is the year's digits without the first two: two fewer characters, the same digits from the third on; the two-digit year for four-digit years, empty below 100, the last digit alone for three-digit years, at least three digits from 10000 on, and digits only for every year |
| DateFormat.Hour12 | date.js:83 | `g`: at most 12, congruent to the hour modulo 12, and 0 exactly at hour 0 |
| DateFormat.Hour12Text | date.js:85 | `h`: digits whose value is `Hour12`, two characters for hours 0 to 12 and 22 to 23, one for 13 to 21 |
| DateFormat.Meridiem | date.js:65 | `AM` up to and including hour 12, `PM` after; the lower-case marker is its lower-casing |
| DateFormat.RulesShape | date.js:73-92 | the twenty rules: only `gmt`/`utc` and `iso` ignore case, only `Week` is global, all the others are `\blit\b` |
| DateFormat.Steps | date.js:73-92 | the chain in source order, rule `k` with its value |
| DateFormat.Format | date.js:73-94 | a pattern in which no rule matches comes back unchanged |
| DateFormat.Normalize | date.js:34-37 | a number in first place becomes the timestamp and the format becomes `null`; any other first argument leaves both arguments as they are; the format is never a number afterwards |
| DateFormat.PatternOf | date.js:39 | the `||` of line 39 written out: a truthy string is the pattern, anything falsy (including `""`) gives the default |
| DateFormat.InstantOf | date.js:40-42 | a truthy timestamp is the instant, and a falsy one (including `0`) leaves the current time |
| DateFormat.Date | date.js:33-95 | a numeric first argument is the timestamp with the default pattern, and `0` gives the current time; a falsy format gives the default pattern; a non-empty string format is the pattern |
| DateProperties.NoLettersNoMatch | date.js:73-92 | no rule matches in a string without letters |
| DateProperties.FormatWithoutLetters | date.js:73-94 | a pattern without letters comes back unchanged |
| DateProperties.GmtNotInLit | date.js:73 | `gmt`/`utc` matches in none of the token literals |
| DateProperties.LitsDistinct | date.js:74-92 | no two rules have the same literal (case-insensitively for `iso`) |
| DateProperties.FormatToken | date.js:73-94 | a token alone is replaced by its value, when the value has no `$` and no later rule fires on it |
| DateProperties.FormatDigits | date.js:73-94 | a token alone whose value is a digit string gives that value |
| DateProperties.YearValues | date.js:44-47 | the `Y` value has the year's digits without a leading zero for a non-negative year, fewer than four below 1000 and four for four-digit years; the `y` value is digits, the two-digit year for four-digit years, empty below 100, the last digit for three-digit years, at least three digits from 10000 on |
| DateProperties.MonthValues | date.js:52-53 | `m` is two digits and `n` unpadded digits, both with value month index + 1; `n` has one digit exactly for January to September |
| DateProperties.HourValues | date.js:82-85 | `G` is the hour unpadded, `g` and `h` have the value `Hour12`, `H` is two digits, `h` has one digit exactly for hours 13 to 21 |
| DateProperties.PaddedValues | date.js:56-71 | day, minute and second are two digits and the millisecond three digits, each with the field's value |
| DateProperties.FormatFullYear | date.js:75 | `Y` gives the year's digits without a leading zero (non-negative years), so fewer than four characters below the year 1000 |
| DateProperties.FormatFullYearWidth | date.js:75 | `Y` gives four characters for four-digit years |
| DateProperties.FormatShortYear | date.js:76 | `y` gives digits: the two-digit year for four-digit years, nothing below 100, the last digit alone for three-digit years, at least three digits from 10000 on |
| DateProperties.FormatMonthPadded | date.js:79 | `m` gives two digits whose value is the month number |
| DateProperties.FormatMonthNumber | date.js:80 | `n` gives exactly the decimal month number, unpadded: one digit exactly for January to September |
| DateProperties.FormatDay | date.js:81 | `d` gives two digits whose value is the day |
| DateProperties.FormatHour | date.js:82 | `G` gives exactly the decimal hour, unpadded: one digit exactly below 10 |
| DateProperties.FormatHour12 | date.js:83 | `g` gives exactly the decimal `Hour12` of the hour: at most 12, same hour modulo 12 |
| DateProperties.FormatHourPadded | date.js:84 | `H` gives two digits whose value is the hour |
| DateProperties.FormatHour12Text | date.js:85 | `h` gives exactly `Hour12Text` of the hour: the value `Hour12`, unpadded exactly for hours 13 to 21 |
| DateProperties.FormatMinute | date.js:86 | `i` gives two digits whose value is the minute |
| DateProperties.FormatMillisecond | date.js:87 | `ms` gives three digits whose value is the millisecond: neither `m` nor `s` fires inside `ms` |
| DateProperties.FormatSecond | date.js:88 | `s` gives two digits whose value is the second |
| DateProperties.MonthNamesShape | date.js:50 | every month name is a word of at least three characters not starting with `W` |
| DateProperties.MonthAbbrevsShape | date.js:51 | every short month name is such a word, possibly followed by `.` |
| DateProperties.WeekdayNamesShape | date.js:62 | every weekday name is a word of at least three characters |
| DateProperties.WeekdayAbbrevsShape | date.js:63 | every short weekday name is such a word, possibly followed by `.` |
| DateProperties.LaterLits | date.js:78-92 | after `Month` every literal is `Week` or has at most two characters, and from `W` on they have one |
| DateProperties.WordInert | date.js:75-92 | a word that is none of the later literals is left alone by the later rules |
| DateProperties.NameInert | date.js:77-90 | a table name that is put in is left alone by every later rule |
| DateProperties.FormatMonthName | date.js:77 | `Month` gives the month's full name |
| DateProperties.FormatMonthAbbrev | date.js:78 | `M` gives the month's short name |
| DateProperties.FormatWeekday | date.js:89 | `Week` gives the weekday's full name |
| DateProperties.FormatWeekdayAbbrev | date.js:90 | `W` gives the weekday's short name |
| DateProperties.FormatMeridiemUpper | date.js:91 | `A` gives `AM` exactly when the hour is at most 12 |
| DateProperties.FormatMeridiemLower | date.js:92 | `a` gives `am` exactly when the hour is at most 12 |
| IgnoreCaseRules.GmtReShape | date.js:73 | the rule is `\bgmt` or `utc\b`, case-insensitive and not global; its branches match where the three letters are spelled in any case |
| IgnoreCaseRules.GmtInWord | date.js:73 | in a word the rule matches exactly when the word starts with `gmt` or ends with `utc`, in any case |
| IgnoreCaseRules.ReplaceFirstAt | date.js:73 | the first match is spliced out and the replacement put in its place |
| IgnoreCaseRules.GmtAtStart | date.js:73 | a string starting with `gmt` in any case gets the UTC text in place of those three letters |
| IgnoreCaseRules.UtcLeftmost | date.js:73 | in a word ending with `utc` and not starting with `gmt`, the leftmost match is those last three letters |
| IgnoreCaseRules.UtcAtEnd | date.js:73 | such a word gets the UTC text in place of its last three letters |
| IgnoreCaseRules.FormatGmtAtStart | date.js:73-94 | for `gmtx`, the rest of the chain runs on the UTC text followed by `x` |
| IgnoreCaseRules.FormatUtcAtEnd | date.js:73-94 | for `xutc`, the rest of the chain runs on `x` followed by the UTC text |
| IgnoreCaseRules.FormatGmtInsideWord | date.js:73-94 | a word with `gmt` or `utc` only inside it is passed unchanged to the rest of the chain |
| IgnoreCaseRules.RestInert | date.js:73-94 | a string in which no remaining rule matches comes out of the rest of the chain unchanged |
| IgnoreCaseRules.GmtWordFirst | date.js:73 | `gmt` or `utc` alone, in any case, is replaced by the UTC text before any other rule |
| IgnoreCaseRules.FormatGmtWord | date.js:73-94 | `gmt` or `utc` alone, in any case, gives the UTC text |
| IgnoreCaseRules.IsoWordMatches | date.js:73-74 | `iso` in any case is a whole word for the `iso` rule and no match for `gmt`/`utc` |
| IgnoreCaseRules.FormatIsoWord | date.js:74-94 | `iso` alone, in any case, gives the ISO text |
| Occurrences.EarlierNoMatch | date.js:74-88 | in a pattern whose only token belongs to rule `k`, no earlier rule fires |
| Occurrences.LaterNoMatch | date.js:76-92 | once rule `k` has put its value in, no later rule fires |
| Occurrences.Swapped | date.js:75-92 | what rule `k` does to the words: every word is kept or becomes the value |
| Occurrences.SwappedJoin | date.js:75-92 | rule `k`'s `replace` on joined words is `Swapped` on the words, and the result is still words and separators |
| Occurrences.FormatOneToken | date.js:73-94 | in a pattern whose only token is rule `k`'s, the result is the words with the first occurrence swapped, or every occurrence for `Week`, and the separators kept |
| Occurrences.FormatFirstOccurrence | date.js:75-88 | without `g`: the first occurrence of the token becomes the value and every later occurrence stays |
| Occurrences.FormatFirstDigits | date.js:75-88 | the same for every token whose value is a digit string |
| Occurrences.FormatEveryWeek | date.js:89 | with `g`: every `Week` word becomes the weekday's name and every other word stays |
| NumericPatterns.RuleOf | date.js:75-92 | the rule whose literal a word is, or 0 when it is none of them |
| NumericPatterns.LitsUnique | date.js:74-92 | two rules have the same literal exactly when they are the same rule |
| NumericPatterns.RuleOfLit | date.js:75-92 | the literal of rule `k` leads back to rule `k` |
| NumericPatterns.WeekNotDigits | date.js:89 | the weekday name that `Week` puts in is not a digit string |
| NumericPatterns.RenderedWords | date.js:75-92 | words with digit values put in are still words, and each is the original word or none of the literals |
| NumericPatterns.RenderIdle | date.js:75-92 | when no word is rule `k`'s literal, rule `k` finds no whole word to replace and the words stay |
| NumericPatterns.RenderedAt | date.js:75-92 | when word `j` is the first occurrence of rule `k`'s literal, rule `k` puts its value in at word `j` and leaves every other word as it was |
| NumericPatterns.RenderedNext | date.js:75-92 | rule `k` changes exactly the first occurrence of its literal into its value |
| NumericPatterns.RenderFires | date.js:75-92 | rule `k`'s first-match word replace on the words gives the next stage: its value is digits and it is not `Week` |
| NumericPatterns.ChainStep | date.js:75-92 | one replace call of rule `k` on the joined words is one stage of the word-by-word rendering, separators kept |
| NumericPatterns.ChainFrom | date.js:75-92 | the calls from rule `k` on give the words with every numeric token's first occurrence swapped and the separators kept |
| NumericPatterns.FormatStart | date.js:73-74 | a pattern of plain and numeric-token words with no `gmt`/`utc` match and no `iso` word passes the first two calls unchanged |
| NumericPatterns.RenderedStart | date.js:73-74 | before the whole-word rules nothing is rendered |
| NumericPatterns.FormatNumeric | date.js:73-94 | a pattern of separators and words, each word plain or a numeric token: each token's first occurrence becomes its digits, every later copy and every other word stays, the separators stay |
| NumericPatterns.TokenWordsFirst | date.js:75-92 | the literals of distinct rules each lead back to their rule and each is the first of its kind |
| NumericPatterns.TokenWordsRendered | date.js:75-92 | distinct tokens after `iso` with digit values are tame words, and each is replaced by its own value |
| NumericPatterns.DefaultSplit | date.js:39 | `Y-m-d H:i:s` is the words `Y`, `m`, `d`, `H`, `i`, `s` joined by `-`, `-`, a space, `:` and `:` |
| NumericPatterns.DefaultTokens | date.js:39 | the default words are the literals of rules `Y`, `m`, `d`, `H`, `i`, `s` in source order |
| NumericPatterns.DefaultNoCaseRules | date.js:73-74 | the default pattern has no `gmt`/`utc` match and no `iso` word |
| NumericPatterns.DefaultDigits | date.js:75-88 | for a non-negative year every value the default pattern calls for is a digit string |
| NumericPatterns.DefaultRendered | date.js:75-88 | the default words become the year, month, day, hour, minute and second values |
| NumericPatterns.FormatDefault | date.js:39-94 | the default pattern gives the year as printed, then the two-digit month, day, hour, minute and second, joined by `-`, `-`, a space, `:` and `:` |
| NumericPatterns.FormatDefaultWidth | date.js:39-94 | for a four-digit year the default pattern gives nineteen characters, separators at fixed places, and six digit groups whose values are the year, month number, day, hour, minute and second |
| NumericPatterns.DateOfNumber | date.js:33-95 | `date(timestamp)` with a number gives the default layout of that instant, or of the current time for `0` |

## Left out

- The host `Date`: turning an instant into local-time fields, `setTime`, `new Date()` (date.js:40-65) and `toUTCString()`/`toISOString()` (date.js:73-74) are the parameters `now` and `host`.
- Invalid dates: an instant the host cannot represent (fields `NaN`, `toISOString` throwing) is outside `Fields.Valid`.
- DateFormat.Date: a string timestamp, which `setTime` converts to a number, is excluded by its precondition. Other argument types (objects, booleans) are not modelled either.
- Timestamps are integers. Fractional timestamps and the conversion of `NaN` are left out because they need floating point.
- The year `getFullYear` reports is any integer. Host limits on the year range are not modelled.
- `date.tick` (date.js:108-129): timers and callbacks, no formatting logic.
- The export wiring (date.js:131-138), the type declarations in `date.d.ts` and the demo `test.js` are not part of this model.
- DateProperties.FormatFullYear: stated for non-negative years only. For a negative year `Y` gives `-` and the digits, which `Text.IntToString` states.
- DateProperties.FormatToken: needs the value to contain no `$` and no later rule to fire on it. The digit and table values meet this, as the other `Format` lemmas show. For `toUTCString`/`toISOString` it is a precondition of IgnoreCaseRules.FormatGmtWord and IgnoreCaseRules.FormatIsoWord, because those texts are opaque.
- NumericPatterns.FormatDefault: stated for non-negative years. A negative year puts a `-` in front of the digits, which cuts the year's word in two and is no longer a digit string, so the word-by-word reading does not apply; the result is still given by DateFormat.Format.
- NumericPatterns.FormatNumeric: covers words that are plain or tokens with digit values. Patterns mixing those with name tokens (`Month`, `M`, `Week`, `W`, `A`, `a`) are given by DateFormat.Format but not restated word by word.
- Occurrences.FormatOneToken: covers patterns with one kind of token (any number of times) between plain words. When several different tokens interact, the result is given by DateFormat.Format and ReplaceChain.Apply but not restated word by word. The value must be a single word that no later rule fires on. This holds for the digit values, the full month and weekday names, `May`, `June` and `July`, but not for short names ending in `.`.
- The case folding of the `i` flag is modelled for ASCII letters, which are the only letters in the case-insensitive literals. JavaScript does not fold any character outside ASCII onto an ASCII letter, so the matches are the same.
