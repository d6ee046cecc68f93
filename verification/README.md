# Credit-card number validator, modelled in Dafny

The program reads a count and then that many lines, and prints `Valid` or
`Invalid` for each line. A line is Valid when it is a card number in one of
two formats and its digits hold no run of four equal digits:

- check A (`withoutHiphen`): `^[456]\d{15}$`, sixteen digits starting with 4, 5 or 6;
- check B (`withHiphen`): `^[456]\d{3}\-\d{4}\-\d{4}\-\d{4}$`, the same digits in
  four hyphen-separated groups of four;
- normalisation: every `-` is removed from the line, whatever the checks said;
- the repeated-digit check (`finalCheck`): `re.match(r"(?!.*(\d)(-?\1){3})", …)`
  on the normalised line;
- the verdict: `(withoutHiphen or withHiphen) and finalCheck`.

The project has four modules:

- `Patterns` (`patterns.dfy`): anchored patterns built from fixed-width fields
  `class{count}`, which is the only shape the two format checks use. Matching is
  defined field by field. A lemma proves it is the same as checking each
  position against the class the pattern puts there.
- `CardNumber` (`card_number.dfy`): the two patterns as constants that follow the
  regular-expression text field for field; `StripHyphens`; the repeated-digit
  check written as the regular expression reads, including the optional hyphen
  and the backreference; the plain "four equal digits in a row" predicate; and
  `Classify`.
- `CardNumberProps` (`card_number_props.dfy`): exact characterisations of both
  formats and of the repeated-digit check, the laws of hyphen removal, the round
  trip between the two formats, and what they imply for the verdict.
- `ClassifyScan` (`classify_scan.dfy`): a one-pass imperative implementation of
  each step and of the per-record loop, proved equal to the functional definitions.

The comment on the repeated-digit line says "more than 3 consecutive numbers".
That means four or more, which is what the pattern rejects: one captured digit
followed by three repeats of it. A run of three equal digits passes
(`ScenarioTripleValid`). The `-?` in that pattern can never match, because the
check runs after every hyphen has been removed. `RunMatchAtHyphenFree` states
this: on a hyphen-free string, the pattern matches exactly where four equal
digits start.

`Classify` is a Dafny function, so it is total and deterministic on every
string.

## Model

| member | source | states |
|---|---|---|
| Patterns.MatchPrefix | ValidateCCNumber/validateCCnumber.py:6-8 | definition of matching a pattern's fields one after another from the start of a string; characterised by MatchPrefixPositional |
| Patterns.FullMatch | ValidateCCNumber/validateCCnumber.py:6-8 | definition of a match anchored at both ends; characterised by FullMatchPositional |
| Patterns.MatchRepeat | ValidateCCNumber/validateCCnumber.py:6-8 | `class{n}` at the start of a string succeeds exactly when the first n characters all belong to the class, and leaves the rest after position n |
| Patterns.MatchPrefixPositional | ValidateCCNumber/validateCCnumber.py:6-8 | matching a fixed-width pattern from the start succeeds exactly when every position up to its width is in the class placed there, and consumes exactly that width |
| Patterns.FullMatchPositional | ValidateCCNumber/validateCCnumber.py:6-8 | a `^…$` anchored fixed-width pattern accepts exactly the strings of its width whose every character is in the class at its position |
| CardNumber.WithoutHyphen | ValidateCCNumber/validateCCnumber.py:6 | definition of check A as the anchored match of `[456]\d{15}`; characterised by WithoutHyphenExactly |
| CardNumber.WithHyphen | ValidateCCNumber/validateCCnumber.py:8 | definition of check B as the anchored match of `[456]\d{3}\-\d{4}\-\d{4}\-\d{4}`; characterised by WithHyphenExactly |
| CardNumber.RepeatCheck | ValidateCCNumber/validateCCnumber.py:12 | definition of the lookahead check: `(\d)(-?\1){3}` matches at no position; characterised by RepeatCheckIsNoFourRun |
| CardNumber.NoFourRun | ValidateCCNumber/validateCCnumber.py:12 | definition of the rule that no digit occurs four times in a row; tied to the lookahead check by RepeatCheckIsNoFourRun |
| CardNumber.Classify | ValidateCCNumber/validateCCnumber.py:14 | definition of the verdict as (check A or check B) and the lookahead check on the stripped line; characterised by ClassifyExactly |
| CardNumberProps.ExpandUngrouped | ValidateCCNumber/validateCCnumber.py:6 | `[456]\d{15}` places the class 4/5/6 at position 0 and a digit at positions 1 to 15, 16 positions in all |
| CardNumberProps.ExpandGrouped | ValidateCCNumber/validateCCnumber.py:8 | `[456]\d{3}\-\d{4}\-\d{4}\-\d{4}` places 4/5/6 at position 0, hyphens at 4, 9 and 14, digits everywhere else, 19 positions in all |
| CardNumberProps.WithoutHyphenExactly | ValidateCCNumber/validateCCnumber.py:6 | check A holds iff the line has length 16, starts with 4, 5 or 6, and every character is a digit |
| CardNumberProps.WithHyphenExactly | ValidateCCNumber/validateCCnumber.py:8 | check B holds iff the line has length 19, starts with 4, 5 or 6, has '-' at positions 4, 9 and 14, and a digit at every other position |
| CardNumberProps.FormatsExclusive | ValidateCCNumber/validateCCnumber.py:6-8 | no line passes both format checks |
| CardNumber.StripHyphens | ValidateCCNumber/validateCCnumber.py:10 | the result holds no '-', is no longer than the line, and is exactly as long iff the line held no '-' |
| CardNumberProps.StripHyphensAppend | ValidateCCNumber/validateCCnumber.py:10 | removing hyphens from a concatenation is the concatenation of the removals, so the kept characters stay in order |
| CardNumberProps.StripHyphensSingle | ValidateCCNumber/validateCCnumber.py:10 | a single '-' is removed and any other single character is kept |
| CardNumberProps.StripHyphensNoHyphen | ValidateCCNumber/validateCCnumber.py:10 | a line with no '-' is left unchanged |
| CardNumberProps.StripHyphensIdempotent | ValidateCCNumber/validateCCnumber.py:10 | removing hyphens twice gives the same as removing them once |
| CardNumberProps.StripHyphensKeepsOthers | ValidateCCNumber/validateCCnumber.py:10 | every character other than '-' occurs as many times after removal as before |
| CardNumberProps.StripAroundHyphen | ValidateCCNumber/validateCCnumber.py:10 | removing hyphens from `a-b` gives the removals from `a` and from `b` run together |
| CardNumberProps.StripJoinedParts | ValidateCCNumber/validateCCnumber.py:10 | removing hyphens from four parts joined by hyphens gives the same as removing them from the parts run together |
| CardNumberProps.StripGroup | ValidateCCNumber/validateCCnumber.py:8-10 | the four-group hyphenated spelling of a 16-character string strips to the same result as the string itself |
| CardNumberProps.GroupedIsGroup | ValidateCCNumber/validateCCnumber.py:8 | a line passing check B is the hyphenated grouping of its four digit groups, which hold no '-' |
| CardNumberProps.GroupedStripsToUngrouped | ValidateCCNumber/validateCCnumber.py:8-10 | a line passing check B strips to its four groups run together, and that result passes check A |
| CardNumberProps.GroupRoundTrip | ValidateCCNumber/validateCCnumber.py:8-10 | for a line passing check B, stripping gives 16 characters and grouping them again gives back the line |
| CardNumberProps.GroupFormat | ValidateCCNumber/validateCCnumber.py:6-8 | a 16-character string passes check A iff its hyphenated grouping passes check B |
| CardNumberProps.RunMatchAtHyphenFree | ValidateCCNumber/validateCCnumber.py:12 | on a hyphen-free string, `(\d)(-?\1){3}` matches at position i iff positions i to i+3 hold the same digit |
| CardNumberProps.RepeatCheckIsNoFourRun | ValidateCCNumber/validateCCnumber.py:12 | on a hyphen-free string, the lookahead check passes iff no digit occurs four times in a row |
| CardNumberProps.FourRunFails | ValidateCCNumber/validateCCnumber.py:12 | four adjacent equal digits anywhere in a string make the lookahead check fail, whatever hyphens the string holds elsewhere |
| CardNumberProps.ClassifyExactly | ValidateCCNumber/validateCCnumber.py:6-14 | the verdict is Valid iff check A or check B holds and the stripped line has no run of four equal digits |
| CardNumberProps.ValidShape | ValidateCCNumber/validateCCnumber.py:6-14 | every Valid line strips to 16 digits starting with 4, 5 or 6 with no run of four equal digits |
| CardNumberProps.HyphenInsensitive | ValidateCCNumber/validateCCnumber.py:6-14 | a 16-character string and its hyphenated 4-4-4-4 grouping get the same verdict |
| CardNumberProps.ForeignCharacterInvalid | ValidateCCNumber/validateCCnumber.py:6-14 | a line containing any character other than a digit or '-' is Invalid |
| CardNumberProps.UngroupedVerdict | ValidateCCNumber/validateCCnumber.py:6-14 | a line passing check A is Valid iff it has no run of four equal digits |
| CardNumberProps.DistinctNeighboursValid | ValidateCCNumber/validateCCnumber.py:6-14 | a line passing check A in which no two neighbouring characters are equal is Valid |
| CardNumberProps.ScenarioUngroupedValid | ValidateCCNumber/validateCCnumber.py:6-14 | `4123456789123456` and `5123456789123456` are Valid |
| CardNumberProps.ScenarioPairValid | ValidateCCNumber/validateCCnumber.py:12-14 | `4123356789123456`, which has a pair of equal digits, is Valid |
| CardNumberProps.ScenarioTripleValid | ValidateCCNumber/validateCCnumber.py:12-14 | `4442555366647770`, which has runs of three but none of four, is Valid |
| CardNumberProps.ScenarioGroupedValid | ValidateCCNumber/validateCCnumber.py:8-14 | `5123-4567-8912-3456` is Valid |
| CardNumberProps.ScenarioWrongGroupingInvalid | ValidateCCNumber/validateCCnumber.py:6-8 | `61234-567-8912-3456`, grouped 5-3-4-4, is Invalid |
| CardNumberProps.ScenarioShortInvalid | ValidateCCNumber/validateCCnumber.py:6-8 | `123456789123456`, fifteen digits, is Invalid |
| CardNumberProps.ScenarioRunInvalid | ValidateCCNumber/validateCCnumber.py:12-14 | `5500005555555555` and `4111111111111111` are Invalid because of their runs |
| CardNumberProps.ScenarioGroupedRunInvalid | ValidateCCNumber/validateCCnumber.py:8-14 | `4111-1111-1111-1111` is Invalid: the hyphens do not break the run of 1s |
| ClassifyScan.MatchAnchored | ValidateCCNumber/validateCCnumber.py:6-8 | a single left-to-right pass decides the anchored match of a fixed-width pattern exactly |
| ClassifyScan.RemoveHyphens | ValidateCCNumber/validateCCnumber.py:10 | a single pass that copies every non-hyphen character computes exactly the hyphen removal |
| ClassifyScan.FindFourRun | ValidateCCNumber/validateCCnumber.py:12 | counting the run of equal characters that ends at each position finds a run of four equal digits iff one exists |
| ClassifyScan.ClassifyLine | ValidateCCNumber/validateCCnumber.py:6-17 | the imperative steps of the loop body give exactly the functional verdict |
| ClassifyScan.ClassifyRecords | ValidateCCNumber/validateCCnumber.py:3-17 | the driver produces one line per record, in order, which reads "Valid" iff that record's verdict is Valid and "Invalid" otherwise |

## Left out

- Reading the record count with `int(input())`, reading each line, and printing (lines 3-4 and 15-17). `ClassifyRecords` takes the lines already read and returns the lines to print. A count that is not a number, or a count larger than the number of lines available, is not modelled.
- `\d` in Python 3 also matches non-ASCII decimal digits, such as Arabic-Indic digits. The model reads `\d` as '0' to '9' only.
- `$` in Python also matches just before a final "\n", and `.` does not match "\n". Lines returned by `input()` never contain a "\n", and on every such line the model's plain reading of end-of-string and any-character agrees with Python's. Strings that do contain "\n" are classified as if "\n" were an ordinary character.
- The regular-expression engine itself is not modelled. Each pattern is written as the equivalent definition: fixed-width fields for the two formats, and an existence of a match position for the lookahead.
