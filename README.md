# convert_equation, modelled in Dafny

The graph plotter takes an expression in `x` typed in loose notation and rewrites it into
a NumPy expression before evaluating it. `convert_equation` (main.py:19-34) does the
rewriting as eight text rewrites: one `str.replace` and seven `re.sub` calls, applied in
this order:

1. every `^` becomes `**` (`str.replace`, line 21);
2. a digit directly followed by a letter gets a `*` between them (`re.sub(r'(\d)([a-zA-Z])', ...)`,
   line 24). The scan is left to right and non-overlapping, so `4x5y` becomes `4*x5*y`;
3. to 7. `sin(`, `cos(`, `tan(`, `log(`, `sqrt(` at the start of a word get an `np.` prefix.
   Each name is a separate `re.sub(r'\bNAME\(', ...)`, run in that order (lines 27-31);
8. `e^` at the start of a word becomes `np.exp` (line 32).

`input_eq` (main.py:50-55) converts the typed text only when it is not empty. It hands
the result to the evaluator only when that result is not empty.

The model works on Dafny strings and follows the same structure:

- `Chars`: the ASCII character classes `\d`, `[a-zA-Z]` and `\w`, plus counting and
  deleting a character.
- `CaretStep`: rewrite 1.
- `ImplicitMultiplication`: rewrite 2.
- `WordBoundarySub`: one definition of `re.sub` for a pattern `\b` + literal. The five
  function rules and the `e^` rule share it. The scan is leftmost first. After a
  replacement it resumes behind the match. `\b` is judged on the original string, exactly
  as Python defines it: a word character on one side and not on the other, with the ends
  of the string counting as non-word.
- `Equation`: the composition, the list of function names, and the empty-input guard of
  `input_eq`.
- `Subsequences`: the "is a subsequence of" relation. It is used to state that rewrites
  only insert text.
- `Examples`: worked inputs, each proved to produce its exact output.

The caret, digit/letter and `e^` rewrites are not injective: `4x` and `4*x` both give
`4*x`. So what each rewrite does is not stated through an inverse. It is stated in two ways:

- positionally: every input character, and every match of a rule, has an image position in
  the output. The lemmas give what sits at each image, and that each image follows the
  previous one directly. For the word-start rules these are `SubImage` (matches),
  `SubCopyImage` (copied characters), `SubMatchNext` and `SubImageEnd`;
- as a subsequence relation: the input, with its `^`s removed, is a subsequence of the
  output.

Because of the order of the rewrites, the `e^` rule never fires: rewrite 1 has already
removed every `^` (`Equation.ExpRuleIsDead`). So `e^(x+1)` comes out as `e**(x+1)`
(`Examples.ExpExample`). The digit/letter rule does not cover a parenthesis, so `2(x+1)`
is left as it is (`Examples.DigitParenExample`).

## Model

| member | source | states |
|---|---|---|
| CaretStep.ReplaceCaret | main.py:21 | the output has no `^`, and it is longer than the input by exactly the number of `^`s |
| CaretStep.CaretImage | main.py:21 | each `^` at input position i comes out as `**` at position i plus the number of earlier `^`s; any other character is copied to that position; later images follow contiguously |
| CaretStep.ReplaceCaretAppend | main.py:21 | the replacement works character by character: replacing in a concatenation equals concatenating the replacements |
| CaretStep.CaretBetween | main.py:21 | a single `^` between caret-free strings becomes `**`, and both sides are kept |
| CaretStep.CaretIdentity | main.py:21 | a string without `^` is not changed |
| CaretStep.CaretIdempotent | main.py:21 | applying the replacement twice is the same as applying it once |
| CaretStep.CaretKeepsOthers | main.py:21 | the input with its `^`s deleted is a subsequence of the output |
| ImplicitMultiplication.InsertMul | main.py:24 | the output is longer than the input by the number of digit/letter adjacencies, and it starts with the same character |
| ImplicitMultiplication.InsertMulNoDigitLetter | main.py:24 | no digit is directly followed by a letter in the output |
| ImplicitMultiplication.MulImage | main.py:24 | each input character is copied to its image position, which is shifted by one per earlier adjacency; a `*` follows exactly where a digit/letter pair starts; images are contiguous |
| ImplicitMultiplication.InsertMulIdentity | main.py:24 | a string with no digit followed by a letter is not changed |
| ImplicitMultiplication.InsertMulIdempotent | main.py:24 | applying the step twice is the same as applying it once |
| ImplicitMultiplication.InsertMulKeepsInput | main.py:24 | the input is a subsequence of the output: the step only inserts |
| ImplicitMultiplication.InsertMulAbsent | main.py:24 | the step adds no character other than `*` |
| WordBoundarySub.SubFrom | main.py:27-32 | the `re.sub` scan from a position on; specified by `SubLength`, `SubImage`, `SubCopyImage`, `SubMatchNext`, `SubImageEnd`, `SubIdentity`, `SubKeepsInput` and `SubAbsent` |
| WordBoundarySub.SubAtWordStart | main.py:27-32 | `re.sub` of `\b` + a literal over the whole string; specified by `SubUnchangedIff` and `SubSingleMatch` |
| WordBoundarySub.NoOverlap | main.py:27-32 | two qualifying occurrences of a pattern whose characters before the last are word characters never overlap |
| WordBoundarySub.QualifyingZero | main.py:27-32 | the count of qualifying positions is zero exactly when no position qualifies |
| WordBoundarySub.SubLength | main.py:27-32 | the output length changes by the replacement's length minus the pattern's for every qualifying position of the input |
| WordBoundarySub.SubImage | main.py:27-32 | every qualifying occurrence comes out as the replacement, at its input position shifted by the replacement's length minus the pattern's per earlier occurrence |
| WordBoundarySub.SubCopyImage | main.py:27-32 | every character that lies inside no qualifying occurrence is copied to its image position, its input position shifted by the replacement's length minus the pattern's per earlier occurrence, and the next image follows it directly |
| WordBoundarySub.SubMatchNext | main.py:27-32 | the image of the text after a qualifying occurrence follows its replacement directly |
| WordBoundarySub.SubImageEnd | main.py:27-32 | the image of the end of the input is the end of the output, so the images cover the whole output |
| WordBoundarySub.SubIdentity | main.py:27-32 | with nothing qualifying, the scanned text is copied unchanged |
| WordBoundarySub.SubCopyRange | main.py:27-32 | a stretch that lacks the pattern's first character is copied unchanged |
| WordBoundarySub.SubSingleMatch | main.py:27-32 | one occurrence after a non-word character, with its first character found nowhere else, is the only thing replaced |
| WordBoundarySub.SubUnchangedIff | main.py:27-32 | when the replacement has a different length, the string is unchanged if and only if nothing qualifies |
| WordBoundarySub.SubKeepsInput | main.py:27-32 | when the pattern is a subsequence of the replacement, the input is a subsequence of the output |
| WordBoundarySub.SubAbsent | main.py:27-32 | a character absent from the input and from the replacement is absent from the output |
| Equation.PrefixCall | main.py:27-31 | one function rule, `re.sub(r'\bNAME\(', 'np.NAME(', s)`; specified by the `PrefixCall...` lemmas below |
| Equation.PrefixCalls | main.py:27-31 | the five function rules in the order sin, cos, tan, log, sqrt; specified by `PrefixCallsLength`, `PrefixCallsKeepInput`, `PrefixCallsAbsent`, `PrefixCallsKeepNoDigitLetter` |
| Equation.ExpRewrite | main.py:32 | the `e^` rule; specified by `ExpRewriteNeedsCaret` and `ExpRuleIsDead` |
| Equation.ConvertEquation | main.py:19-34 | the eight rewrites in source order; specified by `ConvertNoCaret`, `ConvertNoDigitLetter`, `ConvertKeepsCharacters`, `ConvertLength`, `ConvertEmpty` |
| Equation.ConvertedInput | main.py:50-52 | the converted equation of input_eq, left empty for empty input; specified by `ConvertedInputGuard` |
| Equation.Evaluates | main.py:55 | whether the converted equation reaches the evaluator; specified by `ConvertedInputGuard` |
| Equation.NamePatternWordPrefixed | main.py:27-31 | every `NAME(` pattern has only word characters before its `(` |
| Equation.PrefixCallRewritesEach | main.py:27-31 | each `NAME(` at a word start is written as `np.NAME(` at its image position, shifted by 3 per earlier occurrence, and the text after it follows directly |
| Equation.PrefixCallCopiesOthers | main.py:27-31 | every character outside a qualifying `NAME(` is copied, shifted by 3 per earlier occurrence, and the next character follows it directly |
| Equation.PrefixCallLength | main.py:27-31 | one function rule adds 3 characters per qualifying `NAME(` |
| Equation.PrefixCallUnchangedIff | main.py:27-31 | a function rule leaves the string unchanged if and only if no `NAME(` occurs at a word start |
| Equation.PrefixCallMissingLetter | main.py:27-31 | a string lacking a letter of NAME is left unchanged by that rule |
| Equation.PrefixCallKeepsInput | main.py:27-31 | a function rule only inserts: the input is a subsequence of the output |
| Equation.PrefixCallAbsent | main.py:27-31 | a function rule adds only characters of `np.`, NAME and `(` |
| Equation.PrefixCallsLength | main.py:27-31 | the five rules in sequence add 3 characters per occurrence, each occurrence counted on the string that its own rule sees |
| Equation.PrefixCallsKeepInput | main.py:27-31 | the five rules in sequence only insert |
| Equation.PrefixCallsAbsent | main.py:27-31 | the five rules add only characters of `np.(` and of the names |
| Equation.PrefixCallsKeepNoDigitLetter | main.py:27-31 | the function rules never put a letter directly after a digit |
| Equation.SubKeepsNoDigitLetter | main.py:27-32 | a word-start substitution with a digit-free replacement keeps the no-digit-before-letter property |
| Equation.NoCaretBeforeExp | main.py:21-31 | the string that reaches the `e^` rule contains no `^` |
| Equation.ExpRewriteNeedsCaret | main.py:32 | the `e^` rule leaves a string without `^` unchanged |
| Equation.ExpRuleIsDead | main.py:21-32 | for every input, the `e^` rule returns its argument unchanged |
| Equation.CaretKeepsAdjacencies | main.py:21-24 | replacing `^` by `**` neither creates nor destroys a digit/letter adjacency |
| Equation.ConvertNoCaret | main.py:19-34 | the converted equation contains no `^` |
| Equation.ConvertNoDigitLetter | main.py:19-34 | in the converted equation no digit is directly followed by a letter |
| Equation.ConvertKeepsCharacters | main.py:19-34 | the input with its `^`s removed is a subsequence of the converted equation |
| Equation.ConvertLength | main.py:19-34 | the output length is the input length, plus one per `^`, plus one per digit/letter adjacency of the input, plus three per function call prefixed |
| Equation.ConvertEmpty | main.py:19-34 | the empty equation converts to the empty string |
| Equation.ConvertedInputGuard | main.py:50-55 | the empty-input guard makes no difference to the converted text, and the converted equation is evaluated exactly when the typed text is non-empty |
| Examples.CaretExample | main.py:19-34 | `x^2` converts to `x**2` |
| Examples.ImplicitMulExample | main.py:19-34 | `4x` converts to `4*x` |
| Examples.ImplicitMulTwiceExample | main.py:24 | `4x5y` becomes `4*x5*y`: a letter followed by a digit gets no `*` |
| Examples.DigitParenExample | main.py:19-34 | `2(x+1)` is left unchanged: a digit before a parenthesis gets no `*` |
| Examples.FunctionRuleSkips | main.py:27 | `asin(x)`, `sinx` and `sin x` are left unchanged by the `sin(` rule |
| Examples.PrefixAgainExample | main.py:27 | `np.sin(x)` becomes `np.np.sin(x)`: a `.` is not a word character |
| Examples.FunctionRuleExample | main.py:19-34 | `(sin(x))` converts to `(np.sin(x))` |
| Examples.MulThenFunctionExample | main.py:19-34 | `2sin(x)` converts to `2*np.sin(x)`: the inserted `*` creates the word boundary |
| Examples.ExpExample | main.py:19-34 | `e^(x+1)` converts to `e**(x+1)`, not to an `np.exp` call |

## Left out

- Evaluation of the converted text with `eval` and its error fallback (main.py:56-60): it
  runs arbitrary Python over NumPy arrays and floating point.
- The sample grid `np.linspace` (main.py:48) and the zero default `np.zeros_like`
  (main.py:54, main.py:60): floating-point arrays.
- The text input, the sliders and the manual min/max fields with their float parsing
  (main.py:38-46): UI input. The typed text is a parameter of `ConvertedInput`.
- `default_setup`, `setup_plot` and `save_plot` (main.py:8-16, main.py:65-121): plotting and
  image export.
- The theme buttons and the page layout (main.py:123-168): UI.
- Unicode character classes: Python's `\d`, `\w` and `\b` on `str` accept Unicode digits
  and letters. The model uses ASCII digits, ASCII letters and `_`, so an input with
  non-ASCII digits or letters is outside the model.
