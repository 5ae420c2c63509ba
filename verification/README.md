# Petrovich name inflection, modelled in Dafny

This project models the inflection engine of the Petrovich-Go package. The
engine declines a Russian surname, given name or patronymic into one of five
grammatical cases (genitive, dative, accusative, instrumental, prepositional).
It does so by scanning a read-only rule table.

- **Rule table** (`rule_table.dfy`, module `RuleTable`). The table holds
  `Rules`, `RulesGroup` and `Rule` (gender, test strings, one edit string per
  case). `Case` is an ordinal below 5. `Candidates` flattens a rule list into
  the (gender, test, edit) pairs in the order the nested scans visit them. The
  lemmas use this flat list as the reference for "first match wins".
- **Edits** (`edits.dfy`, module `Edits`). `ApplyRule` is the mini-language:
  "." means no change. Otherwise every '-' strips one trailing character, and
  the entry with its '-' removed is appended. The parsed form `Edit`
  (keep, or strip k and append s) is the partner definition. `Encode`/`Parse`
  round-trip, and `ApplyRule` on an encoded edit does what the parsed edit says.
- **Matcher** (`matcher.dfy`, module `Matcher`). This holds the exception pass
  `CheckExcludes`, the suffix pass `FindRules` and `Inflect`.
- **Orchestrators** (`petrovich.dfy`, module `Petrovich`). This holds
  `DetectGender`, `DeleteEmpty`, `InfFio`, `InfFi` and the per-part wrappers
  `InfFirstname`, `InfLastname` and `InfMiddlename`.
- **Go `strings` functions** (`strings.dfy`, module `Strings`). These are
  `Count`, `Remove` (Replace with ""), `HasSuffix`, `Trim`, `Split` and `Join`,
  for a one-character separator. `Split` and `Join` are proved to be inverse in
  both directions.

A Go run-time panic is modelled as `None` of `Wrappers.Option` and passed
outward unchanged. An edit that strips more characters than the word has
is a negative slice bound in `applyRule`, and that panics.

The short form of `InfFio` takes the first letter of the second and third
words with `[]rune(w)[:1]`. For an empty word, whether this panics depends
on the capacity the compiler gives the conversion `[]rune("")`, which the Go
language leaves open. The model gives no result (`None`) for that case. A
doubled space, as in "Иванов  Иван", reaches it: the input splits into three
words with an empty middle one, so it passes the three-word check
(`InfFioShortOnDoubledSpace`).

`InfFio`'s `(string, error)` result is `Result.Success`/`Result.Failure`.

`strings.ToLower` is a parameter `lower: string -> string`, and nothing is
assumed about it.

Behaviours a reader might not expect:

- The exception pass decides the result only when its edit gives a non-empty
  word. An exception whose edit gives "" falls through to the suffix pass.
- The exception pass sees the word as given. The suffix pass sees it after
  spaces are trimmed.
- Stripping more characters than the word has is a negative slice bound and
  panics.
- `InfFi` tolerates repeated spaces, but `InfFio` counts empty words. So
  "A  B" is three words for `InfFio`.
- The short branch of `InfFi` (`ShortFi`) gives the intended text, the
  declined surname, a space, the initial and a dot. The source's format
  string at Petrovich.go:150 renders something else; see "## Findings".

## Model

| member | source | states |
|---|---|---|
| Edits.ApplyRule | Petrovich.go:201-209 | "." returns the word unchanged. Otherwise the call succeeds iff the number k of '-' is at most the word length. The result has length \|name\| - k + (\|mod\| - k). It starts with the word minus its last k characters. A word without '-' stays without '-'. |
| Edits.ApplyRuleEncoded | Petrovich.go:201-209 | For every edit "strip k, append s" (s without '-'), applying its table spelling ("-" repeated k times, then s) strips k characters and appends s. "." keeps the word. |
| Matcher.CheckExcludes | Petrovich.go:186-199 | When no exception's test list holds the lowercased word, the result is "". A word without '-' never gets one from an exception edit. |
| Edits.ParseEncode | Petrovich.go:205-207 | Reading an encoded edit back (count the '-', delete the '-') gives the same edit. |
| Matcher.ScanExceptions | Petrovich.go:189-198 | If no exception's test list contains the lowercased word, the exception scan returns "". |
| Matcher.CheckExcludesFirstMatch | Petrovich.go:186-199 | The first (rule, test) pair in table order decides the result. Its gender must equal the requested gender or be "androgynous", and its test must equal the lowercased word exactly. The result is that rule's edit for the case, applied to the original, not lowercased, word. |
| Matcher.CheckExcludesNoMatch | Petrovich.go:186-199 | With no such pair, the exception pass returns "". |
| Matcher.ScanTests | Petrovich.go:215-226 | The inner loop over one rule's tests fires iff the rule's edit for the case is not "." and some test is a strictly shorter ending of the word. A "." edit means `continue`, not a stop. |
| Matcher.FindRules | Petrovich.go:211-231 | The empty word maps to itself. A word without '-' is never given one. |
| Matcher.ScanSuffixes | Petrovich.go:213-230 | The scan over the suffix rules maps the empty word to itself, and never adds a '-' to a word that has none. |
| Matcher.FindRulesFirstMatch | Petrovich.go:213-225 | First match wins. The first pair in table order decides the result; it must pass the gender check, have a test strictly shorter than the word that ends the word, and have an edit other than ".". The result is that edit applied to the word. |
| Matcher.FindRulesNoMatch | Petrovich.go:211-231 | Identity: when no pair qualifies, the word comes back unchanged. This includes every test at least as long as the word. |
| Matcher.FindRulesSkipsNoChange | Petrovich.go:219-223 | A suffix rule whose edit for the case is "." is skipped, wherever it stands in the list: the suffix pass gives the same result with that rule removed from the table. |
| Matcher.FindRulesEach | Petrovich.go:177-181 | The per-part loop succeeds iff every part's suffix pass succeeds. Result i is the suffix pass of part i. |
| Matcher.Inflect | Petrovich.go:168-184 | A panic in the exception pass is a panic of `inflect`. A word without '-' stays without '-'. For such a word with no matching exception, the result is the suffix pass on the space-trimmed word. |
| Matcher.InflectExceptionWins | Petrovich.go:168-172 | If the first matching exception yields a non-empty word, `inflect` returns it. The suffix rules are never consulted. |
| Matcher.InflectSuffixPassSucceeds | Petrovich.go:174-183 | When the exception pass answers "", `inflect` panics iff the suffix pass panics on some '-'-separated part of the space-trimmed word. A word without '-' is one part. |
| Matcher.InflectSuffixPass | Petrovich.go:174-183 | When the exception pass answers "" and `inflect` succeeds, splitting its result on '-' gives exactly the per-part suffix pass (`FindRulesEach`) of the '-'-separated parts of the space-trimmed word: same number of pieces, piece i is the suffix pass of part i. |
| Matcher.InflectPreservesHyphens | Petrovich.go:174-183 | In the same situation, the result has as many '-' as the space-trimmed word. |
| Petrovich.InfFirstname | Petrovich.go:74-77 | Declines with the given-name group: for a word without '-' and with no given-name exception matching, the result is the given-name suffix pass on the space-trimmed word. A word without '-' stays without '-'. |
| Petrovich.InfLastname | Petrovich.go:85-88 | The same, with the surname group. |
| Petrovich.InfMiddlename | Petrovich.go:96-99 | The same, with the patronymic group. |
| Petrovich.DetectGender | Petrovich.go:158-166 | Stated on the last two letters: the result is "male" iff the word ends in "и", "ч", and "female" iff it ends in "н", "а". Otherwise it is "androgynous", and it is never anything else. |
| Petrovich.DeleteEmpty | Petrovich.go:233-241 | The result has no empty word. Every non-empty word occurs as often as in the input. |
| Petrovich.DeleteEmptyAppend | Petrovich.go:233-241 | Deletion distributes over concatenation, so the surviving words keep their order. |
| Petrovich.InfFio | Petrovich.go:107-131 | The call returns the format error iff the trimmed input does not split on ' ' into exactly 3 words. Empty words count. The short form gives no result when word 2 or word 3 is empty (see "## Left out"). Otherwise it succeeds iff the surname declines, and it is the declined surname followed by ' ', the first letter of word 2, '.', the first letter of word 3 and '.'; only the surname is declined. |
| Petrovich.InfFioFullForm | Petrovich.go:119-129 | Long form, with the gender inferred from the third word: the result is the declined surname, ' ', the declined given name, ' ', the declined patronymic, each declined with its own group of rules. When no declined word holds a space, splitting the result on ' ' gives the three back. |
| Petrovich.InfFioShortIgnoresOtherGroups | Petrovich.go:123-124 | The short form does not depend on the given-name or patronymic rules. |
| Petrovich.InfFioShortOnDoubledSpace | Petrovich.go:109-124 | Two words joined by a doubled space split into three words with an empty middle one, which passes the three-word check. The short form then has no initial to take and gives no result. |
| Petrovich.InfFi | Petrovich.go:133-156 | The result is "" iff the trimmed input does not have exactly 2 non-empty space-separated words. |
| Petrovich.InfFiShortForm | Petrovich.go:145-150 | Short form (as corrected, see Findings): the surname declined as androgynous, then ' ', the given name's initial and '.'. |
| Petrovich.InfFiFullForm | Petrovich.go:145-153 | Long form: the result is the surname and the given name, each declined with its own rules as androgynous, joined by one ' '. |
| Petrovich.InfFiFullFormWords | Petrovich.go:145-153 | When neither declined word holds a space, splitting the long form on ' ' gives the two declined words back. |
| Petrovich.PairSpacingCollapses | Petrovich.go:135-140 | Any number of leading and trailing spaces, and one or more separating spaces, around two words leave exactly those two words. |
| Petrovich.ShortFiAsWritten | Petrovich.go:150 | The pair's short form as the format string renders it always differs from the intended short form: the intended text is followed by `%!s(MISSING).`. |
| Strings.Count | Petrovich.go:206 | `strings.Count` of one character is at most the length of the string. Its zero case is `Strings.CountZero`. |
| Strings.HasSuffix | Petrovich.go:159-162 | `strings.HasSuffix` holds iff the ending is no longer than the string and agrees with its last characters one by one. |
| Strings.Join | Petrovich.go:128 | `strings.Join` starts with the first piece, followed by the separator when there is a second piece, and is at least as long as the pieces' separators and first piece together. `Strings.JoinSplit` and `Strings.SplitJoin` state that it inverts `Split`. |
| Strings.Split | Petrovich.go:111 | `strings.Split` with a one-character separator gives (number of separators + 1) pieces. |
| Strings.SplitPieces | Petrovich.go:175 | No piece of a split holds the separator. |
| Strings.JoinSplit | Petrovich.go:181 | Joining the pieces of a split with the same separator gives back the original string. |
| Strings.SplitJoin | Petrovich.go:128 | Splitting a join of separator-free pieces (at least one) gives back those pieces. |
| Strings.Trim | Petrovich.go:174 | The trimmed string is no longer than the input and neither starts nor ends with the cut character. |
| Strings.TrimPadded | Petrovich.go:109 | The trimmed string occurs in the input with only cut characters before and after it. |
| Strings.TrimPadding | Petrovich.go:135 | Any number of cut characters before and after a text that does not itself start or end with one are removed, and nothing else is. |
| Strings.CountZero | Petrovich.go:206 | The count of a character is 0 iff the character does not occur. |
| Strings.Remove | Petrovich.go:207 | The result holds no removed character, and its length is the input length minus the count. |

## Findings

| source | as written | input that shows it | evidently intended | confidence | as-written member | corrected member |
|---|---|---|---|---|---|---|
| Petrovich.go:150 | `fmt.Sprintf("%s %s.%s.", surname, initial)`: three verbs but two operands, so Go prints `%!s(MISSING)` for the third | `InfFi("Смирнов Иван", c, true)` with a table that keeps "Смирнов" gives "Смирнов И.%!s(MISSING)." | "Смирнов И.": the declined surname, the initial and a dot | high; not executed | Petrovich.ShortFiAsWritten (its contract states the difference; Petrovich.ShortFiAsWrittenExample is the concrete instance) | Petrovich.ShortFi, used by Petrovich.InfFi; property proved in Petrovich.InfFiShortForm |

## Left out

- `LoadRules` (Petrovich.go:46-66) reads and unmarshals a JSON file. The model takes an already-built `Rules` value instead.
- The console messages of `InfFio` and `InfFi` (Petrovich.go:113-115, 141) have no bearing on results.
- The `Tags` field of a rule (Petrovich.go:29) is never read by the matching logic.
- `strings.ToLower` is the parameter `lower`. Its Unicode case mapping is not modelled.
- Bytes and runes are not distinguished. `findRules` compares and slices UTF-8 byte lengths (Petrovich.go:216-220), while `applyRule` counts runes (Petrovich.go:205-206). Both are modelled over `seq<char>`. For valid UTF-8 the byte test and the character test agree: a byte ending of the word that equals a valid UTF-8 test string starts on a character boundary, so it is the same ending counted in characters, and it is strictly shorter in bytes exactly when it is strictly shorter in characters.
- `Case`: `gCase` is restricted to 0..4 by the `Case` type, and every rule must have exactly 5 edits (`WellFormedRules`). The Go code indexes `Mods[gCase]` directly and would panic otherwise. It panics only once a matching rule is reached, which the model does not distinguish.
- `Rule.gender` and the requested gender stay plain strings, as in the code. A closed enumeration is not used.
- Petrovich.InfFio: the short form gives `None` when the second or third word is empty. The source's `[]rune(w)[:1]` on an empty word panics or yields a NUL initial depending on the capacity the compiler gives the conversion, which the Go language does not fix; the model does not choose between them.
- Petrovich.InfFioShortOnDoubledSpace: for the same reason, its `None` stands for "no defined result", not a certain panic.
