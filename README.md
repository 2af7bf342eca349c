# String calculator parser, in Dafny

This project models the core of a small string calculator. The calculator reads
a line of text and splits it on `,` into at most two tokens. It turns each token
into a number and adds the numbers up.

- `parse_util.dfy` (module `ParseUtil`) models `src/utils/parse-util.js`.
  - `Split` and `ParseIntoTokens` model `parseIntoTokens`. This is `split(',')`
    plus the rule "no more than two tokens". The thrown error becomes
    `Err(TooManyNumbers)`.
  - `IsDigit` models `isDigit`.
  - `ConvertToNum` is a method with the source's scanning loop. It is proved
    equal to the specification function `Convert`.
  - `ParseStringToNums` models `parseStringToNums`.
  - JavaScript's `Number`, applied to a token that passed validation, becomes
    `ToNumber`. It uses the base-10 value `DecimalValue` of the digits. The token
    `"-"` passes every check of `convertToNum`, and `Number("-")` is NaN, so the
    result type `Number` has a `NaN` case next to `Int(value)`.
- `math_util.dfy` (module `MathUtil`) models `calculateSum` in
  `src/utils/math-util.js` as `CalculateSum`. This is a left fold of `+` that
  starts at 0.

Each operation has a partner proved against it:
- `Split` is paired with `Join`, with a round trip in each direction.
- `ConvertToNum` is paired with `Convert`.
- `Convert` is paired with the decimal rendering `IntToDecimal`, with a round trip.
- `CalculateSum` is paired with the right fold `SumFromRight` and with concatenation.

## Code and tests disagree

The test at `src/utils/parse-util.test.js:42-44` expects `"1,2,3,4,5"` to give
five numbers. The code at `src/utils/parse-util.js:14-16` throws whenever `split`
gives more than two tokens. The model follows the code, so that test would
fail against it: `ParseFiveNumbersRejected` proves the input is rejected.

This version of `parse-util.js` has none of the following, and none is modelled:
- custom-delimiter headers (`//;\n`, `//[***]\n`);
- a newline as a second delimiter;
- a switch that allows or forbids negatives;
- an upper bound of 1000.

## Model

| member | source | states |
|---|---|---|
| ParseUtil.Split | src/utils/parse-util.js:13 | splitting on one character always gives at least one piece, even for the empty string |
| ParseUtil.SplitThenJoin | src/utils/parse-util.js:13 | joining the pieces of `split` with the separator gives back the input |
| ParseUtil.SplitCount | src/utils/parse-util.js:13 | `split` gives exactly one piece more than the separator occurs in the input |
| ParseUtil.SplitSeparatorFree | src/utils/parse-util.js:13 | no piece of `split` contains the separator |
| ParseUtil.JoinThenSplit | src/utils/parse-util.js:13 | splitting a join of separator-free pieces gives back those pieces, so the pieces are the only separator-free sequence that joins to the input |
| ParseUtil.ParseIntoTokens | src/utils/parse-util.js:12-18 | fails with TooManyNumbers exactly when the input has two or more commas; otherwise the tokens are (commas + 1) many, comma-free and join with `,` to the input |
| ParseUtil.TokensOfOne | src/utils/parse-util.js:12-18 | an input without a comma is one token, itself |
| ParseUtil.TokensOfTwo | src/utils/parse-util.js:12-18 | an input with one comma gives the text before and the text after it, empty pieces kept |
| ParseUtil.ParseIntoTokensOneTokenExamples | src/utils/parse-util.test.js:5-7 | `"20"` gives `["20"]` and `""` gives `[""]` |
| ParseUtil.ParseIntoTokensNumbersExample | src/utils/parse-util.test.js:6 | `"1,5000"` gives `["1","5000"]` |
| ParseUtil.ParseIntoTokensEmptyTokenExamples | src/utils/parse-util.test.js:8-9 | `","` gives `["",""]` and `"1,"` gives `["1",""]` |
| ParseUtil.ParseIntoTokensWordExample | src/utils/parse-util.test.js:10 | `"1,tytyt"` gives `["1","tytyt"]` |
| ParseUtil.IsDigit | src/utils/parse-util.js:25-30 | `isDigit(c)`, the range test `'0' <= c <= '9'`, holds exactly when `c` is one of the ten characters `0`–`9` |
| ParseUtil.DecimalValueOfNatToDecimal | src/utils/parse-util.js:54 | `Number` read on the decimal rendering of a natural number gives that number |
| ParseUtil.LeadingZero | src/utils/parse-util.js:54 | a leading zero does not change the value `Number` reads from digits |
| ParseUtil.ToNumber | src/utils/parse-util.js:54 | `Number(token)` on a token that passed validation: NaN exactly for the lone `"-"`, a non-negative value for plain digits, a non-positive one after a `-` |
| ParseUtil.Convert | src/utils/parse-util.js:39-55 | the value `convertToNum` returns: NaN exactly for the lone `"-"` (it passes both checks and the empty loop), and a negative value only for a token of a `-` followed by at least one digit |
| ParseUtil.ConvertToNum | src/utils/parse-util.js:39-55 | the scanning loop returns exactly `Convert(token)`: 0 for each rejected token, otherwise `Number(token)` |
| ParseUtil.ConvertRejects | src/utils/parse-util.js:41-53 | the empty token, a token starting with neither `-` nor a digit, and a token with a non-digit after position 0 all give 0 |
| ParseUtil.ConvertSigned | src/utils/parse-util.js:54 | a token `d+` gives its base-10 value and `-d+` its negation |
| ParseUtil.ConvertDecimalRoundTrip | src/utils/parse-util.js:39-55 | converting the decimal rendering of any integer gives that integer |
| ParseUtil.ConvertIntegerExamples | src/utils/parse-util.test.js:22-24 | `"20"`, `"5000"`, `"-3"` give 20, 5000, -3 |
| ParseUtil.ConvertMalformedExamples | src/utils/parse-util.test.js:25-30 | `"tytyt"`, `"1e5"`, `"3.14"`, `"0xFF"`, `"123abc"`, `"abc123"` all give 0 |
| ParseUtil.ParseStringToNums | src/utils/parse-util.js:62-64 | fails exactly when tokenizing fails, with the same error and no numbers; otherwise one number per token, in order, each the conversion of its token |
| ParseUtil.ParseOneNumber | src/utils/parse-util.js:62-64 | an input without a comma gives the single number `Convert(input)` |
| ParseUtil.ParseTwoNumbers | src/utils/parse-util.js:62-64 | `a,b` with comma-free `a` and `b` gives `[Convert(a), Convert(b)]` |
| ParseUtil.ParseFailsOnTwoCommas | src/utils/parse-util.js:14-16 | the whole parser fails exactly on inputs with two or more commas |
| ParseUtil.ParseThreeOrMoreRejected | src/utils/parse-util.js:14-16 | any input of the form `a,b,c` is rejected with TooManyNumbers, whatever `a`, `b` and `c` are |
| ParseUtil.ParseFiveNumbersRejected | src/utils/parse-util.test.js:42-44 | `"1,2,3,4,5"` is rejected by the code, not parsed into five numbers as the test expects |
| MathUtil.CalculateSum | src/utils/math-util.js:10-12 | `calculateSum`, `reduce` with `+` from 0 over the array; numbers all non-negative (all non-positive) give a non-negative (non-positive) sum |
| MathUtil.CalculateSumBase | src/utils/math-util.js:11 | the sum of no numbers is 0 and the sum of one number is that number |
| MathUtil.CalculateSumAppend | src/utils/math-util.js:10-12 | adding one number on the right adds it to the sum (left fold) |
| MathUtil.CalculateSumConcat | src/utils/math-util.js:11 | the sum of a concatenation is the sum of the parts' sums |
| MathUtil.CalculateSumFromRight | src/utils/math-util.js:11 | the left fold equals the right fold, so the order of summation does not matter over integers |
| MathUtil.CalculateSumExample | src/utils/math-util.test.js:3-5 | the sum of `[1,2,3]` is 6 |

## Left out

- `src/App.js` is not part of this model. It is the form, its state hooks and event handlers. It only calls the parser and then the summation, and shows the sum or the error message.
- Floating point: JavaScript numbers are IEEE doubles, and the model uses mathematical integers. Digit strings beyond 2^53 lose precision in the source and not in the model. Digit strings whose value exceeds about 1.8e308 give `Infinity` (or `-Infinity` after a `-`) in the source, where the model has a finite integer. `"-0"` gives the double -0 in the source and 0 in the model.
- CalculateSum: sums integers only, so it does not model a NaN (from the token `"-"`) making the whole sum NaN.
- The text of the thrown message at `src/utils/parse-util.js:15` is reduced to the error value `TooManyNumbers`.
- `generateFormula` is imported by `src/utils/math-util.test.js:1` but does not exist in `src/utils/math-util.js`, so there is nothing to model.
- Characters are Dafny's Unicode scalar values, not JavaScript's UTF-16 code units. This makes no difference to `isDigit` or to splitting on `,`.
