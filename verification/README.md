# DivApp bill splitter, modelled in Dafny

DivApp is a one-screen React Native app. It splits a restaurant bill among a
group. The screen has three text fields:

- the bill total;
- the number of people;
- an optional service-charge percentage.

It also has two buttons. "Calcular" validates the fields and shows the
per-person share. "Limpar" clears everything. Every keystroke in the total and
service-charge fields goes through `formatCurrencyInput`. This sanitiser
removes everything but digits, `,` and `.`. It reads the first comma as a
decimal point, and it collapses extra points.

The project has six modules:

- `Wrappers`: `Option` and `Result`.
- `Text`: the JavaScript string built-ins the app uses, each modelled as a
  function on `seq<char>`:
  - a global character-class `replace` (`Filter`);
  - `replace` with a string pattern, which replaces only the first
    occurrence (`ReplaceFirst`), with `IndexOf` as its search for that
    occurrence;
  - `split` on one character;
  - `join`.

  It also proves lemmas relating them: split/join round trips, counting, and
  what a filter sees.
- `CurrencyInput`: `formatCurrencyInput` and what it guarantees about the
  text left in a field.
- `NumberParsing`: prefix parsers standing for `parseFloat` and `parseInt`,
  with `None` for `NaN`. Both skip leading white space and read an optional
  sign. A decimal renderer (`ShowNat`) is their partner in
  round-trip lemmas.
- `BillSplit`: the screen itself.
  - `Evaluate` is the specification of `calculate`. It gives the first failed
    check, or the share `(total + total * tip / 100) / people`.
  - `DivApp` is a class. Its four fields are the four state slots. Its methods
    are the edit handlers, `Calculate` and `Reset`.
  - `DivApp.Valid()` is the screen's invariant. It says the sanitised fields
    hold only digits, `,` and `.`, and a shown result is positive.

- `BillSplitExamples`: the end-to-end scenarios, worked through on concrete
  field texts.

Two behaviours of the code are worth knowing:

- When `formatCurrencyInput` does not collapse points, it returns the cleaned
  text with its comma untouched (`App.js:26`). Only the collapsing branch
  returns text in which the first comma became a point. So "12,5" stays
  "12,5" in the field, and `calculate` converts the comma when it reads the
  amount: see `CurrencyInput.FormatIdentityIff` and
  `BillSplit.CommaIsDecimalPoint`.
- `calculate` rejects a negative service charge (`App.js:42`), and the amount
  parser does read "-5" as -5 (`BillSplit.NegativeChargeRejected`). But an
  amount can only be negative when its text holds a `-`, and the sanitised
  fields never do. So in any state the screen can reach, the service-charge
  alert means "not a number": see `BillSplit.TipRejectedOnlyWhenUnparseable`
  and the last `ensures` of `BillSplit.DivApp.Calculate`, both of which rest
  on `DivApp.Valid`.

## Model

| member | source | states |
|---|---|---|
| `BillSplit.DivApp.constructor` | App.js:14-17 | all three fields start empty, no result is shown, and the invariant holds |
| `BillSplit.DivApp.EditTotal` | App.js:71 | the total field holds `formatCurrencyInput` of the typed text, and the invariant (only digits, `,` and `.` in the sanitised fields) is kept |
| `BillSplit.DivApp.EditPeople` | App.js:83 | the head-count field holds the text as typed, and the invariant is kept |
| `BillSplit.DivApp.EditTip` | App.js:95 | the service-charge field holds `formatCurrencyInput` of the typed text, and the invariant is kept |
| `BillSplit.DivApp.Calculate` | App.js:29-51 | it reports an alert exactly when `Evaluate` fails, and reports that failure; on an alert the result keeps its old value; on success the result is the share; only the result may change; the invariant (a shown result is positive) is kept; a total alert means the total is not a number or is zero; a service-charge alert means the charge text is non-empty and unparseable |
| `BillSplit.DivApp.Reset` | App.js:53-58 | from any state, the three fields become empty and the result is hidden |
| `BillSplit.ValidationOrder` | App.js:34-45 | each alert is raised exactly when its check fails and every earlier check passes; success happens exactly when all three pass |
| `BillSplit.SuccessClosedForm` | App.js:34-49 | success happens if and only if all three checks pass; then the parsed total and head count are positive, the charge is not negative, and the result is `(total + total*tip/100) / people`, which is positive |
| `BillSplit.ParseAmount` | App.js:30 | the amount read from a field (`parseFloat` after the first comma becomes a point) is negative only when the text holds a `-`; `CommaIsDecimalPoint`, `ParseAmountShowNat` and `NegativeChargeRejected` give its values |
| `BillSplit.Share` | App.js:47-48 | a positive total and a charge that is not negative give a positive share; `ShareRoundTrip` gives its value |
| `BillSplit.TotalAccepted` | App.js:34 | an accepted total is never empty text; `ValidationOrder` and `SuccessClosedForm` tie it to the total alert |
| `BillSplit.PeopleAccepted` | App.js:38 | an accepted head count is never empty text; `NegativeHeadCountRejected` shows a signed head count refused |
| `BillSplit.TipAccepted` | App.js:42 | for text without a `-`, the charge is accepted exactly when it is empty or reads as a number |
| `BillSplit.TipPercent` | App.js:32 | the charge used in the share is never negative, and `EmptyTipIsZeroTip` shows an empty field counts as 0 |
| `BillSplit.Evaluate` | App.js:29-51 | a successful calculation is a positive share; `ValidationOrder` and `SuccessClosedForm` give the failures and the value |
| `BillSplit.NegativeHeadCountRejected` | App.js:31-41 | " -n" in the unsanitised head-count field is read as -n, past the white space and the sign, and raises the head-count alert once the total passes |
| `BillSplit.NegativeChargeRejected` | App.js:32-44 | a charge typed as "-n", n > 0, is read as -n and raises the service-charge alert once the total and head count pass |
| `BillSplit.ShareRoundTrip` | App.js:47-48 | the shares times the head count give back the total with its service charge |
| `BillSplit.TipRejectedOnlyWhenUnparseable` | App.js:42-44 | for sanitised charge text, the service-charge alert fires exactly when the total and head count pass and the charge is non-empty and not a number |
| `BillSplit.EmptyTipIsZeroTip` | App.js:32 | an empty charge gives the same outcome as "0" and never raises the service-charge alert |
| `BillSplit.CommaIsDecimalPoint` | App.js:30 | `whole,fraction` and `whole.fraction` parse to the same amount, the whole part plus the scaled fraction |
| `BillSplit.CommaSurvivesSanitiser` | App.js:19-32 | a decimal typed with a comma and the same decimal typed with a point pass the sanitiser and are read as the same amount |
| `BillSplit.PointDecimalKept` | App.js:19-27 | a decimal typed with a point, such as "120.50", stays in the field as typed |
| `BillSplit.ParseAmountShowNat` | App.js:30 | a rendered whole number is read back as that amount |
| `BillSplit.EmptyTotalRejected` | App.js:34-37 | an empty total, as after "Limpar", raises the total alert whatever the other fields hold |
| `CurrencyInput.FormatCurrencyInput` | App.js:19-27 | the sanitiser itself; what it guarantees is stated by `FormatCases`, `FormatOnlyAllowed`, `FormatAtMostOnePeriod`, `FormatIdentityIff` and `FormatKeepsDigits` |
| `CurrencyInput.FormatCases` | App.js:19-27 | the sanitiser's two outcomes: with two or more points after the first comma is normalised, the normalised text with only its first point kept; otherwise the cleaned text |
| `CurrencyInput.FormatOnlyAllowed` | App.js:20-26 | the output holds only digits, `,` and `.`, whichever branch returns |
| `CurrencyInput.FormatAtMostOnePeriod` | App.js:21-26 | the output holds at most one `.`, and exactly one when several were collapsed |
| `CurrencyInput.FormatIdentityIff` | App.js:20-26 | the output is the cleaned text, commas kept, if and only if normalising the first comma leaves at most one point |
| `CurrencyInput.FormatNothingAllowed` | App.js:20-26 | input with none of the allowed characters, the empty input included, gives "" |
| `CurrencyInput.FormatKeepsPlainDecimal` | App.js:20-26 | text over the allowed characters with no comma and at most one point, such as "120.50", is left as it is |
| `CurrencyInput.FormatKeepsDigits` | App.js:20-24 | the input's digits survive, in their original order, and the output is never longer than the input |
| `CurrencyInput.FormatTwoPoints` | App.js:21-25 | digit groups `a.b.d` become `a.bd`: the first point stays and the second goes |
| `CurrencyInput.FormatExampleThousands` | App.js:19-27 | "1.234.56" becomes "1.23456" |
| `CurrencyInput.IsAllowed` | App.js:20 | the character class `[0-9,.]` the sanitiser keeps |
| `CurrencyInput.Clean` | App.js:20 | `text.replace(/[^0-9,.]/g, '')`; `CleanFacts` and `CleanAllowed` state that it leaves only allowed characters and changes nothing in text already made of them |
| `CurrencyInput.Normalize` | App.js:21 | `cleanText.replace(',', '.')`, the first comma becoming a point; `NormalizeFacts` states that it keeps the alphabet and adds one point exactly when there is a comma |
| `CurrencyInput.FormatKeepsCommaDecimal` | App.js:19-27 | a decimal typed with a comma, such as "120,50", stays in the field as typed |
| `CurrencyInput.NormalizeFacts` | App.js:21 | normalising sanitised text keeps it sanitised, and adds one point exactly when it holds a comma |
| `CurrencyInput.CleanFacts` | App.js:20 | the cleaned text holds only digits, `,` and `.` |
| `CurrencyInput.CleanAllowed` | App.js:20 | cleaning text that holds only allowed characters leaves it unchanged |
| `Text.Filter` | App.js:20 | a global character-class `replace` never lengthens the text; `FilterFacts` and `FilterAppend` give what it keeps |
| `Text.FilterFacts` | App.js:20 | a global character-class `replace` keeps only characters of the input that pass the test; it keeps all of them when all pass, and none when none pass |
| `Text.FilterAppend` | App.js:20 | filtering distributes over concatenation |
| `Text.FilterNested` | App.js:20 | filtering by a weaker test first changes nothing |
| `Text.IndexOf` | App.js:21 | `None` exactly when the character is absent; otherwise the position of its first occurrence |
| `Text.ReplaceFirst` | App.js:21 | `replace` with a one-character pattern keeps the length, and leaves text without the pattern unchanged; `ReplaceFirstSpec` gives every position |
| `Text.ReplaceFirstSpec` | App.js:21 | `replace` with a one-character pattern changes exactly the first occurrence and nothing else |
| `Text.ReplaceFirstAt` | App.js:21 | replacing in `x + [a] + y`, with no `a` in `x`, gives `x + [b] + y` |
| `Text.CountReplaceFirst` | App.js:21 | turning the first `a` into `c` adds one `c` exactly when there was an `a` |
| `Text.FilterReplaceFirst` | App.js:21 | a filter that rejects both characters does not see the replacement |
| `Text.Split` | App.js:22 | `split` always gives at least one piece; `SplitCount`, `SplitPiecesFree` and `JoinSplit` pin the pieces down |
| `Text.Join` | App.js:24 | `join`; `JoinSplit`, `SplitJoin` and `JoinSplitRemoves` state how it undoes a split |
| `Text.SplitCount` | App.js:22-23 | a split has one piece more than there are separators |
| `Text.SplitPiecesFree` | App.js:22 | no piece of a split contains the separator |
| `Text.JoinSplit` | App.js:22-24 | joining the pieces of a split with the separator gives back the text |
| `Text.SplitJoin` | App.js:22-24 | splitting the join of separator-free pieces gives back the pieces |
| `Text.SplitNone` | App.js:22 | text without the separator splits into itself alone |
| `Text.SplitFree` | App.js:22 | a separator-free prefix joins the first piece |
| `Text.JoinSplitRemoves` | App.js:24 | joining the pieces with `''` removes every separator |
| `Text.SplitHeadJoinTail` | App.js:24 | the first piece, a separator, then the remaining pieces joined with `''` keep the first separator and drop the others |
| `Text.KeepFirstOnlyFacts` | App.js:24 | keeping only the first point leaves exactly one point, adds no character, and shortens the text by the points dropped |
| `Text.KeepFirstOnlyAt` | App.js:24 | text before the first point is kept, and every later point is removed |
| `Text.FilterKeepFirstOnly` | App.js:24 | a filter that rejects the point does not see the collapse |
| `Text.RemoveAllFacts` | App.js:24 | removing a character leaves none of it and adds nothing |
| `Text.RemoveAllLength` | App.js:24 | removing a character shortens the text by its number of occurrences |
| `Text.CountZero` | App.js:23 | a character occurs zero times exactly when it is absent |
| `NumberParsing.DigitRun` | App.js:30-31 | the longest prefix of radix digits: a prefix, all digits, and followed by a non-digit or the end |
| `NumberParsing.ParseUnsignedDecimal` | App.js:30 | the unsigned part of `parseFloat` is not a number exactly when the text starts neither with a digit nor with a point followed by a digit; otherwise it is not negative |
| `NumberParsing.ParseDecimal` | App.js:30-32 | `parseFloat` gives a negative number only for text that holds a `-` |
| `NumberParsing.ParseDecimalUnsigned` | App.js:30-32 | text that is empty or starts with a digit, a point or a comma has no white space or sign to skip and is read as an unsigned decimal |
| `NumberParsing.ParseDecimalNegative` | App.js:32 | `parseFloat` reads "-n" as -n |
| `NumberParsing.ParseDecimalPointed` | App.js:30 | `whole.fraction` followed by a non-digit reads as the whole part plus the fraction scaled by its length |
| `NumberParsing.ParseDecimalDigits` | App.js:30 | a plain digit run reads as the number it denotes |
| `NumberParsing.ParseDecimalShowNat` | App.js:30 | `parseFloat` reads the decimal rendering of `n` back as `n` |
| `NumberParsing.DigitRunStops` | App.js:30-31 | both parsers stop at the first character that cannot continue the number |
| `NumberParsing.TrimStart` | App.js:30-32 | the parsers read the suffix left after removing the leading ECMAScript white space: what is left does not start with white space, and text not starting with white space is kept whole |
| `NumberParsing.TrimStartRemovesWhiteSpace` | App.js:30-32 | everything `TrimStart` removes is ECMAScript white space, so only the leading white space goes |
| `NumberParsing.ParseDecimalMinus` | App.js:32 | `parseFloat` of "-" followed by an unsigned decimal is that decimal negated |
| `NumberParsing.ParseIntSpaceMinus` | App.js:31 | `parseInt` of a space, "-" and an unsigned number is that number negated |
| `NumberParsing.ParseInt` | App.js:31 | `parseInt` of empty text is not a number, and it gives a negative number only for text that holds a `-` |
| `NumberParsing.ParseUnsigned` | App.js:31 | the unsigned part of `parseInt` reads a number only from text starting with a digit |
| `NumberParsing.ParseIntNegative` | App.js:31 | `parseInt` skips leading white space and honours a minus sign: " -n" reads as -n |
| `NumberParsing.ParseIntHex` | App.js:31 | a "0x" prefix switches `parseInt` to hexadecimal |
| `NumberParsing.ParseUnsignedDigits` | App.js:31 | with no "0x" prefix, the unsigned part reads a decimal digit run as its value |
| `NumberParsing.ParseIntDigits` | App.js:31 | `parseInt` reads a plain digit run as the number it denotes |
| `NumberParsing.ParseIntShowNat` | App.js:31 | `parseInt` reads the decimal rendering of `n` back as `n` |
| `NumberParsing.RunValueShowNat` | App.js:30-31 | the value of a rendered number's digits is that number |
| `BillSplitExamples.CommaAmountExample` | App.js:30 | "120,50" is read as 120.5 |
| `BillSplitExamples.ScenarioCommaTotal` | App.js:29-51 | total "120,50", people "4", charge "10" give 33.1375 each |
| `BillSplitExamples.ScenarioNoCharge` | App.js:29-51 | total "100", people "5", no charge give 20 each |
| `BillSplitExamples.ScenarioZeroTotal` | App.js:34-37 | total "0" raises the total alert |
| `BillSplitExamples.ScenarioZeroPeople` | App.js:38-41 | people "0" raises the head-count alert |
| `BillSplitExamples.ThousandsAmount` | App.js:30 | "1.23456" is read as 1.23456 |
| `BillSplitExamples.ThousandsExampleParses` | App.js:19-30 | "1.234.56" typed in the total field is sanitised to text that reads as the number 1.23456 |

## Left out

- Rendering, styles and widgets (`App.js:60` onward) are presentational and hold no logic.
- `Alert.alert` and `Keyboard.dismiss` are foreign UI calls. Each alert becomes a returned `ValidationError` (`InvalidTotal`, `InvalidPeopleCount` or `InvalidTipPercent`), and the keyboard is not modelled.
- Numbers are exact `real`s, not IEEE-754 doubles. Rounding in `parseFloat` and in the division is not modelled.
- The `toFixed(2)` display rounding of the result is not modelled.
- `NumberParsing.ParseDecimal` models leading white space, a sign, digits and one decimal point, but not an exponent (`1e3`) or `Infinity`. It can differ from `parseFloat` only on text holding an `e`, `E` or `Infinity`, which the sanitised fields never hold.
- `NumberParsing.ParseInt` reads an unbounded integer. `parseInt` loses precision beyond 2^53; a three-character field never gets there.
- The `maxLength` limits of the fields (`App.js:72`, `84`, `96`) are widget constraints. Edits are modelled as arbitrary text.
- React's `useState` batching is not modelled. Each setter is a direct field assignment.
- The head-count field is not sanitised in the source. `EditPeople` stores any text, and `parseInt` handles it: white space and a sign (`NumberParsing.ParseIntNegative`, `BillSplit.NegativeHeadCountRejected`), a `0x` prefix (`NumberParsing.ParseIntHex`) and trailing junk (`NumberParsing.DigitRunStops`).
