# Calculator engine of rust-calculator, in Dafny

This project models the engine behind the GUI calculator in `src/app.rs`. The engine is a
`Calculator` with two f64 registers, `total` and `current`, and an append-only
`operation_history`. Every button press except "C" becomes one call of `operate(operation, rhs)`:
- the digit buttons call `Append(d)`;
- `.` calls `Decimal`, `+/-` calls `Negate` and `=` calls `Equal`, all with no operand;
- the operator buttons pass `current` as the operand.

`Equal` looks back through the history with `find_last_operation_excluding` and repeats the
newest operation that is not `Equal`, `Append` or `Decimal`, with `current` as its operand. The
"C" button zeroes both registers without touching the history.

Files:
- `wrappers.dfy`: Rust's `Option`.
- `float.dfy`: the f64 arithmetic, over exact reals, plus the non-finite values.
  - Division by zero and the square root of a negative give `NonFinite`.
  - Every later `+ - * /` by a finite operand keeps it non-finite.
  - `ConcatDigit` and `PointDigit` state digit entry arithmetically.
- `decimal_text.dfy`: `f64::to_string` for numbers whose decimal expansion ends (`Text`), and
  `str::parse::<f64>` for the texts digit entry builds (`Parse`). It proves that the
  arithmetic forms above are what the text route gives.
- `app.dfy`: the `Operation` enum, the engine state as a value (`CalcState`), and the
  specification function `Step`. It also holds the class `Calculator`:
  - `Operate` mirrors `operate` branch by branch, including the recursive call for `Equal`;
  - `FindLastOperationExcluding` is the backward loop;
  - `Clear` is the "C" button.

  `Operate` is proved to leave exactly the state `Step` describes.
- `app_properties.dfy`: what the engine promises, proved about `Step` and about runs of
  presses (`Run`). This includes the scenarios of a new calculator.

Notes on what the code does:
- **History growth.** An `Equal` that finds an operation to repeat grows the history by two:
  the repeated operation's own call pushes it, and then `Equal` is pushed. Every other call
  grows it by one (`HistoryGrowth`).
- **Repeated Subtract.** A total that is back at zero takes the operand as its new value, so
  subtracting 5 three times from a new calculator gives totals 5, 0 and 5
  (`SubtractFromZeroSeeds`).
- **Append parsing.** `Append` unwraps the result of parsing the text it builds. The model
  proves that this parse succeeds for every such text (`AppendIsTextual`).

## Model

| member | source | states |
|---|---|---|
| App.Calculator.constructor | src/app.rs:36-44 | a new calculator has both registers at zero and an empty history |
| App.Calculator.Operate | src/app.rs:61-139 | the registers and history after one call are exactly `Step` of the state before it, for every operation, including the recursive replay of `Equal` |
| App.Step | src/app.rs:61-139 | the new state after one call of `operate`, one case per operation; `Operate` is proved to produce it, and `HistoryGrowth`, `TotalWriters` and the lemmas below state what it promises |
| App.PointPending | src/app.rs:68-76 | a point is waiting to be written exactly when the newest history entry is Decimal (an empty history has none) |
| App.AppendDigit | src/app.rs:67-86 | the new current for a digit: `PointDigit` when a point is pending and current is whole, `ConcatDigit` otherwise; `AppendIsTextual` proves it equals the parse of the text the source builds |
| Properties.Run | src/app.rs:61-139 | the state after a sequence of presses, each one `Step`; `RunHistory` and the scenarios below state its properties |
| App.Calculator.FindLastOperationExcluding | src/app.rs:141-153 | the reverse scan returns what `LastOperationExcluding` specifies, and changes nothing |
| App.Calculator.Clear | src/app.rs:188-189 | both registers become zero and the history is unchanged |
| App.LastOperationExcluding | src/app.rs:141-153 | the result is not excluded; it is the entry at some position, and every later entry is excluded; it is None exactly when every entry is excluded (the empty history included) |
| Properties.LastOperationIsNewest | src/app.rs:144-150 | if entry i is not excluded and every later one is, the search returns entry i |
| Properties.SearchIgnoresOlderEntries | src/app.rs:144-150 | once a suffix of the history has a non-excluded entry, older entries do not affect the result |
| Properties.SearchFindsAdd | src/app.rs:141-153 | over [Add, Append, Append, Equal], skipping Equal, Append and Decimal, the search finds Add; over only skipped entries it finds nothing |
| Properties.HistoryGrowth | src/app.rs:123-138 | the new history is the old one, then the replayed operation when Equal finds one, then the operation; it grows by two exactly when Equal replays, and by one otherwise |
| Properties.RunHistory | src/app.rs:138 | over any sequence of presses, \|s.history\| + \|presses\| ≤ \|new history\| ≤ \|s.history\| + 2·\|presses\|; the old history is kept as a prefix; the last entry is the last press's operation |
| Properties.AddAccumulates | src/app.rs:63-66 | Add makes total equal to total + rhs (non-finite stays non-finite), clears current and pushes Add |
| Properties.IdentitySeed | src/app.rs:88-111 | Subtract, Multiply and Divide against a zero total set total to the operand; otherwise they apply their operator (division by zero gives a non-finite total); current becomes zero |
| Properties.SquareDiscardsTotal | src/app.rs:112-119 | Square and SquareRoot give a total that does not depend on the old total: the square of the operand, or a square root that is non-finite exactly for a negative operand; current becomes zero |
| Properties.RegistersLeftAlone | src/app.rs:120-122 | Negate negates current and keeps total; Decimal and None change neither register; each only pushes itself |
| Properties.OperandIgnored | src/app.rs:120-137 | the operand passed with Negate, Equal, Decimal or None makes no difference to the new state |
| Properties.TotalWriters | src/app.rs:61-137 | total changes only under Add, Subtract, Multiply, Divide, Square or SquareRoot, directly or replayed by Equal; each of those clears current |
| Properties.EqualWithoutReplay | src/app.rs:123-130 | with only Equal, Append and Decimal in the history, Equal changes neither register and only pushes itself |
| Properties.EqualReplays | src/app.rs:123-135 | Equal repeats the newest entry that is not Equal, Append or Decimal, with current as its operand; that entry is never Equal, so the recursion is one level deep |
| Properties.EqualRepeatsAdd | src/app.rs:123-135 | when the operation to repeat is Add, Equal adds current to total again, clears current and pushes Add then Equal |
| Properties.AddsThenTwo | src/app.rs:63-86 | Add 3, Add 4 and digit 2 from a new calculator give total 7, current 2 and history [Add, Add, Append] |
| Properties.EqualAfterAdds | src/app.rs:123-135 | Add 3, Add 4, digit 2 and Equal give total 9, current 0 and history [Add, Add, Append, Add, Equal] |
| Properties.SubtractFromZeroSeeds | src/app.rs:88-94 | subtracting 5 three times from a new calculator gives totals 5, 0 and 5 |
| Properties.AppendKeepsTotal | src/app.rs:67-86 | Append changes current only |
| Properties.PointOnlyAfterDecimal | src/app.rs:67-86 | for a whole current and a nonzero digit, the result has a fractional part exactly when the newest history entry is Decimal |
| Properties.AppendToWhole | src/app.rs:67-86 | for a non-negative whole current, Append gives current + d/10 after Decimal, and 10 * current + d otherwise |
| Properties.AppendIsTextual | src/app.rs:67-86 | for every current whose decimal expansion ends, Append's result is the parse of current's text, then a point if Decimal is pending and current is whole, then the digit; that parse never fails |
| Properties.AppendToFraction | src/app.rs:80-84 | after a current with k > 0 decimal places, the digit lands in place k + 1 (away from zero for a negative current), so a zero digit is lost |
| Properties.TypingDigits | src/app.rs:67-86 | digits typed from a zero current with no Decimal pending leave the number they spell in current; total is unchanged; one Append is pushed per digit |
| Properties.OneThenPoint | src/app.rs:67-86 | digit 1 then Decimal from a new calculator leave current at 1, total at 0 and history [Append, Decimal] |
| Properties.OnePointFive | src/app.rs:67-86 | digit 1, Decimal, digit 5 from a new calculator give current 1.5, total 0 and history [Append, Decimal, Append] |
| Properties.OnePointFiveTwo | src/app.rs:67-86 | digit 1, Decimal, digit 5, Decimal, digit 2 give 1.52: the second point is not written |
| Properties.ZeroAfterPointIsLost | src/app.rs:67-86 | digit 1, Decimal, digit 0, digit 5 give 15: the text of 1.0 has no point |
| Float.IsZero | src/app.rs:89 | the comparison `total == 0.0`: true only of a finite zero, never of NaN or an infinity |
| Float.Plus | src/app.rs:64 | the sum is non-finite exactly when the total is; a finite sum is above the total exactly when the operand is positive |
| Float.Minus | src/app.rs:92 | the difference is non-finite exactly when the total is; a finite difference is below the total exactly when the operand is positive |
| Float.MinusUndoesPlus | src/app.rs:64 | subtracting the operand just added gives the old total back, non-finite totals included |
| Float.Times | src/app.rs:100 | the product is non-finite exactly when the total is |
| Float.Over | src/app.rs:108 | the quotient is non-finite exactly when the total is non-finite or the operand is zero |
| Float.OverUndoesTimes | src/app.rs:100-108 | dividing by a nonzero operand undoes multiplying by it |
| Float.SquareOf | src/app.rs:113 | the square of the operand is finite and never negative |
| Float.SquareRootOf | src/app.rs:117 | the root is non-finite exactly for a negative operand, and otherwise the platform's square root |
| Float.ConcatDigit | src/app.rs:71-73 | the value of current's text followed by the digit: 10 * x plus or minus d for a whole x, and the digit one place past the last printed one otherwise |
| Float.ConcatDigitAwayFromZero | src/app.rs:81-83 | a digit typed after a number whose expansion ends moves it away from zero or leaves it; a zero typed after a fraction is lost |
| Float.PointDigit | src/app.rs:77-79 | the value of a whole current's text, a point and the digit: x plus or minus d/10 |
| Float.PointDigitAwayFromZero | src/app.rs:77-79 | a zero digit leaves the number unchanged; any other digit makes it a fraction; the result never moves toward zero |
| Float.ConcatDigitOfWhole | src/app.rs:71-73 | after a whole number the digit becomes the last digit: 10 * x plus or minus d |
| DecimalText.Text | src/app.rs:72-83 | `to_string` of a number whose expansion ends: never empty, and it starts with '-' exactly for a negative number |
| DecimalText.Parse | src/app.rs:73-83 | `parse` of the texts digit entry builds: a text starting with '-' reads as a value at or below zero, any other as a value at or above zero |
| DecimalText.ParseUnsigned | src/app.rs:73-83 | an unsigned text reads as a non-negative number, and fails exactly when it is empty, a part is not all digits, or it is only a point |
| DecimalText.TextRoundTrip | src/app.rs:72-83 | parsing the text of any number whose expansion ends gives that number back |
| DecimalText.NatTextRoundTrip | src/app.rs:71-73 | parsing the decimal digits of n gives n back |
| DecimalText.TextOfWhole | src/app.rs:71-73 | the text of a whole number is its digits, with a '-' for a negative number and no ".0" |
| DecimalText.ParseWholeThenDigit | src/app.rs:71-73 | the text of a whole x followed by a digit parses to ConcatDigit of x and the digit |
| DecimalText.ParseWholePointDigit | src/app.rs:77-79 | the text of a whole x, a point and a digit parses to PointDigit of x and the digit |
| DecimalText.ParseTextThenDigit | src/app.rs:81-83 | the text of any x whose expansion ends, followed by a digit, parses to ConcatDigit of x and the digit |

## Left out

- The GUI (`update`, src/app.rs:163-332) is left out. It is egui widget code. Its only link to the engine is which operation and operand each button passes, listed above.
- `calculate_button_length` (src/app.rs:335-337) is left out. It is f32 widget-size arithmetic.
- Persistence (`new` and `save`) is left out. The fields are skipped by serde anyway, so a restored calculator is a default one.
- `Display for Operation` is left out. It only delegates to `Debug`.
- IEEE-754 rounding and overflow are not modelled. Every finite f64 is an exact real.
  - NaN and the infinities are one `NonFinite` value.
  - The sign of zero is not modelled. In the source, `Negate` on 0 gives -0.0, whose text "-0" makes a following digit d give -d. In the model, 0 stays 0 and the digit gives d.
- The value of `sqrt` is left to a function parameter (`Platform.sqrt`). Only its non-finite result for a negative operand is fixed.
- Digit entry after a number whose decimal expansion has more than 1074 places is left to a function parameter (`Platform.appendToLongText`). No f64 has such an expansion, so exact reals cannot say which rounded text the source would print.
- `Parse` accepts only the texts the engine builds: an optional '-', digits, and at most one point. Exponents, "inf" and "NaN" are not parsed. A non-finite current does not arise in the model, because `current` is only written by digit entry, `Negate` and zeroing.
- App.Calculator.Operate: requires an operand for Add, Subtract, Multiply, Divide, Square and SquareRoot, where the source unwraps it and would panic. It also requires Append's operand to be a digit 0 to 9, which is all the digit buttons pass.
