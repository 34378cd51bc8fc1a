# Simple calculator: the string logic of calculator.js

This project models the text-handling core of the calculator in
`calculator.js` (Aps690/Project-Kalkulator-Sederhana) and proves properties
of it in Dafny:

- **Display formatting** (`Grouping`): `groupNumberString` puts thousands
  separators into the integer part of a numeric string, and
  `formatExpressionForDisplay` does this to every number token of an
  expression. The separator pattern `\B(?=(\d{3})+(?!\d))` is modelled
  position by position. A reference grouping built from the right is proved
  equal to it. The central property is the round trip, stated on
  `FormatExpressionForDisplay` itself: deleting the commas of the display
  text gives the raw expression back, and every handler relies on it.
- **The expression buffer** (`ExpressionBuffer`): the display is a `class
  Display` whose field `text` is `display.textContent`. Its methods are the
  key handlers `append`, `cleardisplay` and `backspace`, plus
  `setDisplayFromRaw`. Each handler reads the raw expression (the text with
  its commas deleted), decides, and writes the formatted text back.
  - The decision of `append` is modelled branch by branch as the function
    `AppendEdit`.
  - Its key rules are proved: parentheses, digits on `0`, one dot per
    number, and operator replacement.
  - So are the invariants `append` and `backspace` preserve: the buffer is
    never empty, every prefix is balanced, no number has two dots, and no
    two operators are adjacent.
  - The unary-minus guard inside the operator branch of `append` can never
    fire, because it sits where the buffer ends with an operator, so it is
    never `0` or empty. A minus typed on `0` therefore gives `0-`. The
    model keeps the dead branch and proves its guard unsatisfiable.
- **The sanitiser** (`Sanitizer`): `sanitizeForEval` normalises the glyphs
  `×`, `÷` and `^`, strips the trailing run of operators, rewrites
  percentages `N%` to `(N/100)`, and checks the allow-list. It either
  rejects the input or returns a non-empty allowed string that does not end
  in an operator.
  - The rejections are characterised exactly.
  - A trailing `%` is stripped before percentages are converted.
- **Substituting x** (`Substitution`): `prepareExpressionWithX` normalises
  glyphs, makes implicit multiplication explicit with four passes, and
  replaces every `x` by the parenthesised value. The passes are proved to
  be idempotent, to leave nothing for one another to do, and to keep every
  character other than white space and `*`.
- **Equation checks** (`Equation`): the validation at the start of
  `solveEquation`. It requires exactly one `=`, two non-blank trimmed
  sides, and an `x` somewhere.
- **Prompt answers** (`Prompts`): the x-value check of `evaluateForX` and
  the root-degree check of `applyNthRoot`, including a cancelled prompt.

Regular expressions become explicit recursive functions over `string`
(`seq<char>`). JavaScript's `\s` and `trim` use the ECMAScript white-space
and line-terminator set (`Chars.IsSpace`).

## Model

| member | source | states |
|---|---|---|
| Chars.RemoveCommasConcat | calculator.js:194 | Deleting commas distributes over concatenation. |
| Chars.RemoveCommas | calculator.js:194 | `replace(/,/g, '')` leaves no comma and deletes exactly the commas: the result is shorter by the number of commas, and comma-free text is unchanged. |
| Chars.Count | calculator.js:216-217 | The number of occurrences of a character is at most the length of the text, and is 0 exactly when the character does not occur. |
| Chars.Trim | calculator.js:353 | `trim` gives a slice of the input that neither starts nor ends with white space, with only white space cut off at either end. |
| Chars.TrimStart | calculator.js:578 | Trimming keeps a first character that is not white space. |
| Chars.TrimEnd | calculator.js:353 | Trimming keeps a last character that is not white space. |
| Chars.Split | calculator.js:414 | `split('=')` gives one more piece than there are `=` signs, no piece holds one, and joining the pieces with `=` gives the text back. |
| Chars.Before | calculator.js:414 | The first piece of a split is a prefix free of the separator; it is followed by the separator when one occurs. |
| Chars.After | calculator.js:414 | The text is the first piece, the separator and the rest. |
| Chars.NumberTokenLength | calculator.js:45 | The match of `\d+(?:\.\d+)?` at a digit is non-empty, covers at least the digit run and lies inside the text. |
| Chars.NumberTokenGreedy | calculator.js:45 | The match is greedy: no digit follows it, and a dot after the digit run followed by a digit belongs to it. |
| Chars.NumberTokenLastDigit | calculator.js:45 | A number token ends with a digit. |
| Grouping.GroupFromRemoveCommas | calculator.js:36 | Inserting separators only inserts commas: deleting them gives the input back. |
| Grouping.CommaBefore | calculator.js:36 | `\B(?=(\d{3})+(?!\d))` matches only strictly inside the text, after a word character and in front of a digit. |
| Grouping.GroupThousands | calculator.js:36 | Inserting separators only inserts commas: deleting the commas of the result gives the input without commas. |
| Grouping.GroupFromChars | calculator.js:36 | Each character of the grouped text is a comma or a character of the input. |
| Grouping.CommaPositionsInDigits | calculator.js:36 | In n digits a comma goes before position i exactly when 0 < i and (n - i) is divisible by 3. |
| Grouping.GroupThousandsDigits | calculator.js:36 | The regular-expression grouping of a digit string equals the reference grouping built from the right. |
| Grouping.GroupNumberStringSentinels | calculator.js:27-34 | `Infinity`, `NaN`, a bare `-` and anything with `e`/`E` are returned unchanged; null gives the empty string. |
| Grouping.GroupNumberString | calculator.js:26-39 | A string is grouped to the empty string exactly when it is empty, and its first character (a sign or a digit) is kept. |
| Grouping.GroupUnsigned | calculator.js:35-37 | The grouped unsigned number starts with the input's first character. |
| Grouping.GroupUnsignedRoundTrip | calculator.js:35-37 | With at most one dot, deleting the commas of the grouped unsigned number gives the input without commas. |
| Grouping.GroupNumberStringRoundTrip | calculator.js:26-39 | With at most one dot, deleting the commas of `groupNumberString(t)` gives t without commas. |
| Grouping.GroupNumberStringKeepsFraction | calculator.js:35-37 | The result has a dot exactly when the input has one, and after it stands the input's first fractional piece; further pieces are dropped. |
| Grouping.GroupUnsignedFraction | calculator.js:35-37 | The grouped unsigned number keeps the first fractional piece and adds no dot. |
| Grouping.GroupUnsignedInteger | calculator.js:35-37 | Without a dot the whole number is grouped. |
| Grouping.GroupUnsignedDecimal | calculator.js:35-37 | With one dot the integer part is grouped and the fraction is kept as it is. |
| Grouping.GroupNumberStringDigits | calculator.js:26-39 | A string of digits is grouped as the reference grouping. |
| Grouping.GroupRefExample | calculator.js:36 | `1234` groups to `1,234` and `1234567` to `1,234,567`. |
| Grouping.GroupNumberStringExampleInteger | calculator.js:26-39 | `groupNumberString("1234567")` is `1,234,567`. |
| Grouping.GroupRefShape | calculator.js:36 | The grouping of a digit string starts and ends with a digit and puts each comma between two digits. |
| Grouping.NumberTokenShape | calculator.js:45 | A number token is a digit run, optionally followed by a dot and a second digit run. |
| Grouping.GroupNumberStringPlain | calculator.js:29-38 | A digit-and-dot string that starts with a digit takes the unsigned path. |
| Grouping.GroupNumberToken | calculator.js:45 | One number token of an expression is displayed with its integer digits grouped and its fraction unchanged. |
| Grouping.GroupTokens | calculator.js:45 | The grouped expression keeps its first character, and deleting its commas gives the expression without commas. |
| Grouping.FormatExpressionForDisplay | calculator.js:42-46 | The display text is never empty, and deleting its commas gives the raw expression; the empty expression shows `0`. |
| Grouping.FormatNumberLiteral | calculator.js:42-46 | A number on its own is displayed with its integer digits grouped as the reference grouping and its fraction unchanged. |
| Grouping.GroupTokensCommasBetweenDigits | calculator.js:45 | Grouping a comma-free expression puts commas only between two digits. |
| Grouping.FormatCommasBetweenDigits | calculator.js:42-46 | The display text of a comma-free expression has commas only between digits. |
| Grouping.GroupTokensAppend | calculator.js:45 | Appending a non-digit to an expression appends it to the grouped text. |
| Grouping.FormatAppend | calculator.js:42-46 | Appending a non-digit (the dot key's `+= '.'`) appends it to the display text as well. |
| ExpressionBuffer.LastSegment | calculator.js:243 | The last piece of `split(/[+\-*/%]/)` is an operator-free suffix, preceded by an operator when it is not the whole text. |
| ExpressionBuffer.StripOperatorRun | calculator.js:256 | Replacing `/[-+*/%]+$/` removes exactly the trailing run of operators. |
| ExpressionBuffer.BackspacedRaw | calculator.js:282-290 | The buffer after a backspace is never empty; it is `0` or the old buffer without its last character, and it is `0` exactly in the cases the source names: one character or less, or a lone `-` left. |
| ExpressionBuffer.Display.constructor | calculator.js:3 | The display starts with the given text. |
| ExpressionBuffer.Display.SetDisplayFromRaw | calculator.js:49-56 | The display shows the formatted expression (`0` for the empty one), and its raw expression is the input without commas. |
| ExpressionBuffer.Display.Append | calculator.js:190-269 | The display text after `append` is what AppendEdit decides; the raw expression afterwards is `NextRaw`; a display in display form stays so, and a well-formed buffer stays well formed, for every key but `,`. |
| ExpressionBuffer.Display.AppendBranches | calculator.js:201-268 | Each branch of `append` writes the display as AppendEdit decides: unchanged, the formatted new expression, or the old text with `.` appended. |
| ExpressionBuffer.Display.Backspace | calculator.js:279-292 | The display shows the backspaced raw expression, formatted; it is in display form, and a well-formed buffer stays well formed. |
| ExpressionBuffer.Display.Clear | calculator.js:272-276 | The display shows `0`. |
| ExpressionBuffer.FormatZero | calculator.js:273 | `0` is displayed as `0` and has no commas to delete. |
| ExpressionBuffer.AppendEdit | calculator.js:190-269 | Only the parenthesis and dot keys can be ignored, only the dot key appends in place, and what is written is never empty. |
| ExpressionBuffer.AppendResult | calculator.js:190-269 | `NextRaw` is the old buffer or ends with the key, is non-empty when the buffer was, and adds no comma unless the key is one. |
| ExpressionBuffer.InvariantsMeaning | calculator.js:214-247 | The recursive invariants mean: every prefix balanced, no dot in a number that has one, no two adjacent operators. |
| ExpressionBuffer.StepKeeps | calculator.js:214-262 | Appending one character keeps each invariant unless it is the character that invariant guards against. |
| ExpressionBuffer.AppendKeeps | calculator.js:190-269 | `append` keeps prefix balance, one dot per number and no adjacent operators. |
| ExpressionBuffer.AppendWellFormed | calculator.js:190-269 | `append` of any key but a comma keeps the buffer well formed and non-empty. |
| ExpressionBuffer.AppendKeepsWellFormed | calculator.js:190-269 | The raw expression read back after `append` is well formed when the buffer was and the key is not a comma. |
| ExpressionBuffer.AppendExit | calculator.js:190-269 | Whichever branch `append` takes, the display reads back `NextRaw` and keeps display form and well-formedness. |
| ExpressionBuffer.BackspaceWellFormed | calculator.js:279-292 | `backspace` keeps the buffer well formed. |
| ExpressionBuffer.ZeroWellFormed | calculator.js:273 | The cleared buffer `0` is well formed. |
| ExpressionBuffer.ZeroDotWellFormed | calculator.js:238-239 | `0.` is well formed. |
| ExpressionBuffer.CloseParenRule | calculator.js:214-224 | `)` is appended exactly when a `(` is unmatched, the buffer is not `0` and does not end in `(` or an operator; otherwise nothing changes. |
| ExpressionBuffer.OpenParenRule | calculator.js:203-213 | `(` gives `(` on `0` or the empty buffer, `t*(` after a digit or `)`, and `t(` otherwise; it adds one `(` and no `)`, and never leaves a digit or `)` in front of it. |
| ExpressionBuffer.OperatorRule | calculator.js:250-262 | An operator replaces the trailing run of operators, or is appended when there is none; the buffer never ends in two operators. |
| ExpressionBuffer.UnaryMinusGuardUnreachable | calculator.js:252-255 | A buffer that ends in an operator is neither `0` nor empty, so the guard never holds; `-` on `0` gives `0-`. |
| ExpressionBuffer.DigitRule | calculator.js:228-267 | A digit replaces `0` or the empty buffer and is appended otherwise. |
| ExpressionBuffer.DefaultKeyRule | calculator.js:265-266 | Any other key (not a digit, dot, operator or parenthesis) replaces `0` and is appended to anything else, the empty buffer included. |
| ExpressionBuffer.DotRule | calculator.js:235-247 | A dot gives `0.` on `0`, is appended exactly when the current number has no dot, and is ignored otherwise. |
| ExpressionBuffer.BackspaceUndoes | calculator.js:288-290 | Backspace removes the last character again. |
| ExpressionBuffer.AppendThenBackspace | calculator.js:190-292 | A digit key, or an operator key after a non-operator, is undone by backspace. |
| ExpressionBuffer.BackspaceExamples | calculator.js:283-289 | One character, or a signed digit, backspaces to `0`; `12+` backspaces to `12`. |
| Sanitizer.NormalizeGlyphs | calculator.js:143-145 | The result has no `×`, `÷` or `^`, and text without them is unchanged. |
| Sanitizer.NormalizeGlyphsConcat | calculator.js:143-145 | The glyph rewrite distributes over concatenation. |
| Sanitizer.GlyphRewrite | calculator.js:143-145 | `^` becomes `**`, `×` becomes `*` and `÷` becomes `/`, wherever they stand. |
| Sanitizer.StripTrailingOperators | calculator.js:147 | Stripping gives a prefix that does not end in `+-*/.%` or white space, and only such characters were removed. |
| Sanitizer.StripEmpty | calculator.js:147 | Stripping leaves nothing exactly when the text consists of such characters. |
| Sanitizer.PercentConcat | calculator.js:149 | The percent rewrite of two texts is independent when the first does not end inside a number. |
| Sanitizer.PercentRewrite | calculator.js:149 | A number literal followed by `%` becomes `(literal/100)`, whatever surrounds it. |
| Sanitizer.PercentIdentity | calculator.js:149 | Text without `%` is unchanged. |
| Sanitizer.PercentEnds | calculator.js:149 | The rewrite of non-empty text is non-empty and ends with the text's last character or `)`. |
| Sanitizer.PercentLeavesNoDigitBeforePercent | calculator.js:149 | After the rewrite no digit stands before a `%`. |
| Sanitizer.PercentOrigin | calculator.js:149 | The rewrite introduces no characters but those of `(…/100)`. |
| Sanitizer.PercentKeeps | calculator.js:149 | Characters other than digits and `%` survive the rewrite. |
| Sanitizer.SanitizeForEval | calculator.js:141-153 | An accepted result is non-empty, made of allowed characters, and does not end in an operator, dot, `%` or white space. |
| Sanitizer.SanitizeRejects | calculator.js:141-153 | The input is rejected exactly when it is only operators and glyphs, or holds a character outside the allow-list other than `×`, `÷` and `^`. |
| Sanitizer.SanitizedForm | calculator.js:143-149 | An accepted result has no glyph and no digit before a `%`. |
| Sanitizer.SanitizeExamplesStrip | calculator.js:147-152 | `12+` becomes `12`, and `+` is rejected. |
| Sanitizer.SanitizeTrailingPercent | calculator.js:147-149 | A trailing `%` is stripped before the percent rewrite: `n%` becomes `n`. |
| Sanitizer.SanitizePercentBeforeOperator | calculator.js:149 | `n%` followed by an operator and digits becomes `(n/100)`, then the operator and the digits. |
| Sanitizer.SanitizePower | calculator.js:145 | `a^b` becomes `a**b`. |
| Substitution.StarAtCons | calculator.js:396-399 | A pass matches at the front exactly when its lead character is followed, after white space, by its follow character. |
| Substitution.InsertStarIdentity | calculator.js:396-399 | A pass leaves text without a match unchanged. |
| Substitution.InsertStarNoPair | calculator.js:396-399 | A pass leaves no match of its own pattern, and creates none for another. |
| Substitution.InsertStarIdempotent | calculator.js:396-399 | Applying a pass twice is applying it once. |
| Substitution.InsertStarFront | calculator.js:396-399 | A pass keeps the leading white space and the first character after it. |
| Substitution.InsertStarKeepsSolid | calculator.js:396-399 | A pass only turns white space into `*` and inserts `*`. |
| Substitution.ImplicitStarsComplete | calculator.js:396-399 | After the four passes no digit is followed, after white space, by `x` or `(`, and no `)` by `(` or a digit. |
| Substitution.ImplicitStarsKeepSolid | calculator.js:396-399 | The four passes keep every character but white space and `*`. |
| Substitution.SubstituteX | calculator.js:401 | Substituting a value without `x` leaves no `x`, and text without `x` is unchanged. |
| Substitution.SubstituteXConcat | calculator.js:401 | Substitution distributes over concatenation. |
| Substitution.SubstituteOne | calculator.js:401 | Each `x` becomes the parenthesised value. |
| Substitution.PrepareExpressionWithX | calculator.js:391-403 | The empty side is returned as it is, and with an x-free value the result has no `x`. |
| Substitution.SolidSubstitute | calculator.js:401 | Substitution commutes with dropping white space and `*`. |
| Substitution.PrepareKeepsSolid | calculator.js:391-403 | Apart from white space and `*`, the prepared side is the glyph-normalised input with each `x` replaced by the value. |
| Substitution.PrepareDigitX | calculator.js:391-403 | A digit before `x` becomes a product with the parenthesised value, as `2x` at 3 gives `2*(3)`. |
| Equation.ValidateEquation | calculator.js:410-419 | An accepted equation has two non-empty sides without `=`, and at least one holds an `x`. |
| Equation.TrimSubset | calculator.js:416-417 | Trimming removes only white space. |
| Equation.TrimEmpty | calculator.js:416-418 | A side trims to nothing exactly when it is all white space. |
| Equation.SplitOnce | calculator.js:414 | With one `=` the split gives the text before and after it. |
| Equation.ValidateOnce | calculator.js:414-419 | With one `=` the outcome is decided by the two trimmed sides. |
| Equation.ValidateEquationEquals | calculator.js:410-415 | No `=` and more than one `=` are refused first, each exactly in its case. |
| Equation.ValidateEquationSides | calculator.js:416-419 | A blank side is refused, and otherwise an equation without any `x`. |
| Equation.ValidateEquationAccepted | calculator.js:410-419 | An accepted equation has one `=` and consists of its two trimmed sides. |
| Prompts.ReadXValue | calculator.js:351-358 | A cancelled prompt is told apart; otherwise the answer is accepted exactly when its trim is a signed decimal, and the accepted value is that trim. |
| Prompts.IsSignedDecimal | calculator.js:355 | A signed decimal starts with a digit, or with a sign followed by a digit. |
| Prompts.XValueChars | calculator.js:355-361 | An accepted value consists of sign, digits and dot only, holds no `x`, and passes the allow-list. |
| Prompts.SignedDecimalForms | calculator.js:355 | Signed integers and signed decimals with digits on both sides of the dot are accepted. |
| Prompts.XValueNeedsDigit | calculator.js:355 | An answer without a digit, such as a lone sign or `x`, is refused. |
| Prompts.XValueTrailingDot | calculator.js:355 | An answer ending in a dot, such as `1.`, is refused. |
| Prompts.TrimPlain | calculator.js:353 | Text that neither starts nor ends with white space is its own trim. |
| Prompts.DecimalValue | calculator.js:583 | The value of n digits is below 10^n. |
| Prompts.Pow10Grows | calculator.js:583 | Powers of ten grow with the exponent. |
| Prompts.DecimalValueZero | calculator.js:583-584 | A digit string has value 0 exactly when all its digits are 0. |
| Prompts.DecimalLeadingZero | calculator.js:583 | A leading zero does not change the value. |
| Prompts.ReadRootDegree | calculator.js:576-584 | A cancelled prompt is told apart; an accepted degree is positive. |
| Prompts.RootDegreeCases | calculator.js:578-584 | A non-digit answer is not an integer, an all-zero answer is not positive, and otherwise the degree is the decimal value. |
| Prompts.RootDegreeExact | calculator.js:583 | An accepted degree of at most 15 digits is below 2^53, where `parseInt`'s double is exact. |
| Prompts.RootDegreeLeadingZero | calculator.js:578-584 | Leading zeros are ignored, so `007` is the degree 7 and `00` is refused like `0`. |
| Prompts.RootDegreeNotDigitFirst | calculator.js:578-582 | An answer starting with a sign or any other non-digit, such as `-2`, is not an integer. |

## Left out

- `eval` and all numeric evaluation are not modelled: previews, `calculate`, the solver after its checks, square and n-th roots, and trigonometry. They are floating-point computations done by the JavaScript evaluator.
- `formatResult` is not modelled: it is floating-point formatting (`toFixed`, `parseFloat`).
- The DOM is not modelled: element lookup, the preview line, history items, theme and scale preferences, `localStorage`, ripple animations and timers, and keyboard dispatch.
- `prompt`, `alert` and `confirm` are not modelled. A prompt's answer is a parameter (`None` for a cancelled prompt), and an alert is the returned error value.
- `updatepreview`, which every handler calls after editing, is not modelled; it only shows a preview.
- The HTML page is not part of this model. The display's initial text is a parameter of the `Display` constructor.
- The `if (!display) return;` guards for a missing element are not modelled.
- ExpressionBuffer.Display.Append: the key is a single character. The on-screen buttons pass one character each; multi-character keys (`Numpad` names, functions) are not modelled.
- ExpressionBuffer.Display.Append: the display-form and well-formedness ensures hold only for keys other than `,`. A typed comma lands in the display and is deleted on the next read, as in the source.
- ExpressionBuffer.Display.SetDisplayFromRaw: the `null` argument is not modelled; every call site passes a string.
- Sanitizer.NormalizeGlyphs: the three glyph passes are one pass over the characters. This is equivalent because no replacement produces a character that a later pass replaces.
- Prompts.ReadRootDegree: the value of the digits is exact. `parseInt` gives a double, which is exact only below 2^53; Prompts.RootDegreeExact shows that every answer of up to 15 digits lies there. Longer answers may be rounded, but their sign is the same, so the positivity check decides alike.
- The `/x/i.test(raw)` check of `evaluateForX` and its call to `sanitizeForEval` on the substituted text are not modelled beyond `Prompts.XValueChars`, which shows that an accepted value passes the allow-list.
