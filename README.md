# learn-multiply: numeral conversion and quiz state, in Dafny

learn-multiply is a one-page multiplication quiz. The user picks a table and
a multiplier from two grids of 1 to 12 and types the product. The answer may
be typed in Western digits (0-9) or Eastern Arabic-Indic digits (٠-٩). The
app then says whether the answer is right and keeps a score. All numbers
are shown in Eastern digits.

This project models the logic of `src/App.js` in two modules.

- `Numerals` (`numerals.dfy`) is pure. It holds:
  - the `westernArabicMap` digit table and `convertToWesternArabic`;
  - the sanitising expression of `handleAnswerChange`;
  - decimal parsing, as `parseInt` does it on a digit-only buffer;
  - `convertToEasternArabic`, written as an explicit per-digit map with an
    optional grouping separator. The real code calls the platform's
    `toLocaleString('ar-EG')` instead.
- `Quiz` (`quiz.dfy`) holds the component's state as a class, `Quiz.App`.
  Its fields are `selectedTable`, `selectedMultiplier`, `userAnswer`,
  `isSubmitted`, `isCorrect` and `score`. Each handler is a method that
  updates them. `Valid()` is the object invariant: both factors come from
  the grids, the buffer holds only `0`-`9`, and `isCorrect` implies
  `isSubmitted`. Scenario methods at the end of the module run the handlers
  on concrete inputs and state the resulting values.

The handlers are modelled as written, without the browser's guards.
`handleAnswerChange` and `handleSubmit` check neither `isSubmitted` nor an
empty buffer. In the page, the `disabled` and `required` attributes of the
input field (`src/App.js:161-162`) block those cases. The model does not
assume those attributes. So `Submit` on an empty buffer is allowed, and
`parseInt('')` (NaN) makes it judge the answer wrong. `ChangeAnswer` after a
submission also goes through and leaves a verdict that no longer fits the
buffer (`EditAfterSubmission`). The submit button itself stays enabled, so
submitting a right answer twice adds to the score twice
(`RepeatedSubmission`). The page's `required` and `disabled` attributes are
there to prevent the first two cases; nothing in the code prevents the
third.

`convertToEasternArabic` accepts null, undefined, a text or a number
(`JsValue`). Null, undefined and `''` give `''`. Any other value is shown
as the decimal digits of `Number(value)` in Eastern digits. `Number` gives a
double, which is exact for integers up to 2^53 (`MaxExactInteger`); the
display and round-trip contracts are stated for such values only, and any
answer of up to fifteen digits is one of them (`ShortTextsExact`). Digits are
optionally grouped in threes from the right, with a separator that is not
a digit. Because the value goes through `Number`, leading zeros are not
shown: the buffer `"035"` appears as `٣٥`.

## Model

| member | source | states |
|---|---|---|
| `Numerals.DigitChar` | src/App.js:25 | the Western character the replace callback emits for a digit value is a `0`-`9` character whose value is that digit |
| `Numerals.EasternDigitChar` | src/App.js:18-21 | the Eastern digit written for a value is a key of `westernArabicMap` that maps back to that value |
| `Numerals.AllWesternHasNoEastern` | src/App.js:18-21 | no Western digit is a key of `westernArabicMap` (the two alphabets are disjoint) |
| `Numerals.MapToWestern` | src/App.js:25 | the global replace keeps the length; each Eastern digit becomes the Western digit of its `westernArabicMap` value; every other character is unchanged; no Eastern digit remains |
| `Numerals.ConvertToWestern` | src/App.js:22-26 | null/undefined give `''`; a text keeps its length, and each Eastern digit is replaced by the Western digit of the same value while all else stays in place |
| `Numerals.KeepWesternDigits` | src/App.js:101 | the result of removing `[^0-9]` holds only `0`-`9` and is no longer than the input |
| `Numerals.KeepWesternDigitsConcat` | src/App.js:101 | the filter distributes over concatenation, so it keeps the digits in their original order |
| `Numerals.KeepWesternDigitsFixes` | src/App.js:101 | the filter leaves a text unchanged if and only if the text is all `0`-`9` |
| `Numerals.Sanitize` | src/App.js:95-105 | the value handleAnswerChange stores always matches `^[0-9]*$` and is no longer than the raw input |
| `Numerals.SanitizeIsEach` | src/App.js:98-101 | the two passes equal a one-pass reference: per character, an Eastern digit gives its Western digit, a Western digit is kept, anything else is dropped, in input order |
| `Numerals.SanitizeConcat` | src/App.js:98-101 | sanitising a concatenation is the concatenation of the sanitised parts |
| `Numerals.SanitizeFixes` | src/App.js:98-101 | a text passes through unchanged if and only if it is already all `0`-`9` |
| `Numerals.SanitizeIdempotent` | src/App.js:98-101 | sanitising the sanitiser's own output changes nothing |
| `Numerals.DecimalDigits` | src/App.js:12 | the decimal rendering of a natural number is non-empty, all `0`-`9`, and has no leading zero unless it is `"0"` |
| `Numerals.ValueOf` | src/App.js:112 | the base-ten value `parseInt` reads from k digits is below 10^k, and at least 10^(k-1) when the first digit is not 0 |
| `Numerals.ParseDecimal` | src/App.js:112 | `parseInt` of a digit buffer is NaN (None) exactly for the empty buffer |
| `Numerals.ParseDecimalDigits` | src/App.js:112 | `parseInt` of the decimal digits of n is n |
| `Numerals.DecimalDigitsOfValue` | src/App.js:12 | rendering the value of a digit text with no leading zero gives back that text (inverse of the lemma above) |
| `Numerals.ValueSkipsLeadingZeros` | src/App.js:112 | any run of leading zeros leaves the parsed value unchanged |
| `Numerals.ParsesTo` | src/App.js:112 | a digit buffer parses to a positive n if and only if, after its leading zeros, it is exactly the decimal digits of n |
| `Numerals.MapToEastern` | src/App.js:12 | the per-digit map keeps the length; each Western digit becomes the Eastern digit of the same value; other characters stay |
| `Numerals.MapToWesternUndoesEastern` | src/App.js:22-26 | reading back with convertToWesternArabic undoes the per-digit Eastern map on any text without Eastern digits |
| `Numerals.Group` | src/App.js:12 | grouping adds only separator characters: filtering the digits back out gives the original digits |
| `Numerals.NumberOf` | src/App.js:12 | `Number` of a number is that number, and of a digit text is the value `parseInt` reads; taken exactly, which the source matches only up to 2^53 |
| `Numerals.ShortTextsExact` | src/App.js:12 | a digit text of at most fifteen digits has a value of at most 2^53, so `Number` converts it exactly |
| `Numerals.ToEastern` | src/App.js:9-13 | null, undefined and `''` (and only these) give `''`; for a value up to 2^53, every character shown is an Eastern digit or the separator |
| `Numerals.DisplayRoundTrip` | src/App.js:158-160 | for a value up to 2^53, sanitising its Eastern display, separators included, gives the Western decimal digits of `Number(value)`, and `''` for a blank value |
| `Numerals.UngroupedRoundTrip` | src/App.js:9-26 | without grouping and for n up to 2^53, convertToWesternArabic of convertToEasternArabic(n) is the decimal digits of n, with no filtering needed |
| `Numerals.EditRoundTrip` | src/App.js:158-160 | for a buffer whose value is at most 2^53, feeding the displayed answer back through the handler keeps its parsed value; an empty buffer, or one with no leading zero, comes back unchanged |
| `Quiz.GridProducts` | src/App.js:58-59 | two factors taken from the 1-12 grids have a product in 1..144 |
| `Quiz.IsRightAnswer` | src/App.js:112 | `parseInt(userAnswer) === correctAnswer`: the empty buffer (NaN) is never right, and for a positive product a buffer is right if and only if it is the product's decimal digits after some zeros |
| `Quiz.App.constructor` | src/App.js:62-68 | the initial state: table 7, multiplier 5, empty answer, not submitted, not correct, score 35 |
| `Quiz.App.CorrectAnswer` | src/App.js:71 | the correct answer is the product of the two selected factors and lies in 1..144 |
| `Quiz.App.ResetQuiz` | src/App.js:74-78 | clears submitted, answer and correct; factors and score unchanged; invariant kept |
| `Quiz.App.SelectTable` | src/App.js:81-84 | sets the table and resets the quiz; multiplier and score unchanged; the verdict is current |
| `Quiz.App.SelectMultiplier` | src/App.js:87-90 | sets the multiplier and resets the quiz; table and score unchanged; the verdict is current |
| `Quiz.App.ChangeAnswer` | src/App.js:95-105 | stores the sanitised input (so the digits-only invariant holds) and changes nothing else, whatever `isSubmitted` says |
| `Quiz.App.Submit` | src/App.js:108-118 | sets submitted; correct exactly when parseInt of the buffer equals the product; score up by one exactly when correct; factors and buffer unchanged |
| `Quiz.App.AnswerField` | src/App.js:158 | for a buffer whose value is at most 2^53, the answer field shows text that sanitises back to the buffer's value without leading zeros (empty for the empty buffer) |
| `Quiz.App.CorrectAnswerField` | src/App.js:171 | the correct-answer field is empty exactly before a submission, and afterwards reads back as the product's digits |
| `Quiz.CorrectEasternAnswer` | src/App.js:95-118 | 7 x 5 answered as `٣٥` is right, the score goes 35 to 36, and the field shows `٣٥` |
| `Quiz.WrongAnswer` | src/App.js:108-118 | 7 x 5 answered as `12` is wrong, the score stays 35, and the correct-answer field shows `٣٥` |
| `Quiz.LeadingZeroAnswer` | src/App.js:112 | 7 x 5 answered as `035` is right and scores |
| `Quiz.EmptySubmission` | src/App.js:108-118 | submitting the empty buffer is accepted by the handler and judged wrong, with the score unchanged |
| `Quiz.RepeatedSubmission` | src/App.js:108-118 | submitting a right answer twice raises the score twice (35 to 37) |
| `Quiz.ReselectAfterAnswer` | src/App.js:81-84 | choosing table 9 after an answer clears the flags and buffer, gives product 45, and keeps the score |
| `Quiz.EditAfterSubmission` | src/App.js:95-105 | an edit after a right answer is stored, and the shown verdict (right) no longer fits the buffer (`12`) |

## Left out

- JSX rendering, the `NumberGrid` markup, the CSS import and React's hooks and re-rendering (src/App.js:1-2, 32-51, 120-199). They are presentation only. `useState` setters are modelled as direct field updates. React batches them until the next render, and no handler here reads a field after setting it, so the difference is not visible.
- The browser's form mechanics: `required`, `pattern`, `disabled` and `e.preventDefault()`. The handlers are modelled without them, as described above.
- ToEastern: locale data of `toLocaleString('ar-EG')` is not modelled. The grouping separator is a parameter, required not to be a digit. Grouping is every three digits from the right. The text shown for NaN is also not modelled.
- ToEastern: `Number()` is modelled as exact (`NumberOf`), but in the source it yields a double. A digit text above 2^53 (9007199254740992) is shown rounded; for example `"9007199254740993"` is shown as the digits of 9007199254740992, so the next edit stores the rounded digits. A text of about 309 digits or more becomes Infinity and is shown as `∞`, which the sanitiser turns into `''`. The model still renders the exact digits there; `ToEastern`'s digits-or-separator clause, `DisplayRoundTrip`, `UngroupedRoundTrip`, `EditRoundTrip` and `Quiz.App.AnswerField` claim nothing for such values.
- NumberOf: exact for every digit text; the source's `Number` agrees only up to 2^53, as in the line above.
- ToEastern: requires a text argument to be all `0`-`9`. `Number()` of other text (NaN, whitespace, signs, exponents) is not modelled. Every call site in the app passes a grid number, the product or the digit-only buffer.
- ParseDecimal: requires a digit-only buffer. `parseInt` on other text is not modelled; the buffer invariant rules it out. Parsing is exact. JavaScript rounds values above 2^53, but only values up to 144 are ever compared, and those are exact either way.
- SelectTable and SelectMultiplier require a number from the 1-12 grid. The handlers do not check their argument; only the grid buttons call them.
- `convertToWesternArabic` on a non-string argument (`String(numberStr)`) is not modelled. The only caller passes the input field's text.
