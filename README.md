# Calculator expression buffer

A model of the logic of a React Native calculator (`App.js`). The screen
holds one string, `displayValue`. Each key press rewrites it. `AC` clears
it. `C` and `⌫` drop its last character. `)` is added only while some `(` is
still open. The function keys add a function name and `(`. Every other key
adds its label. `=` formats the buffer and hands it to an external
evaluator. The buffer then becomes the evaluator's result, or the literal
`Error` when evaluation throws. Formatting rewrites `√(` to `sqrt(` and `^`
to `**`. It then closes every open parenthesis.

Modules:

- `Wrappers`: `Option`, the evaluator's result (`None` is the `catch` branch).
- `Parentheses`: `countOpenParentheses` and `countCloseParentheses`. Also
  `PrefixBalanced`, the property "no prefix has more `)` than `(`". It is
  defined by peeling off the last character, and `PrefixBalancedMeans`
  proves it equal to the statement about every prefix.
- `Formatter`: `formatExpression`. The two global replacements are
  left-to-right recursive rewrites (`ReplaceRadical`, `ReplacePower`).
  Neither pattern can overlap itself, so this is what a global
  regular-expression replace does. `Closers` stands for `')'.repeat(n)`.
- `Calculator`: the pure transition `Step` (buffer, key label, evaluator →
  new buffer) and `Run`, which applies `Step` to a sequence of keys. The
  class `App`, whose field `displayValue` is rewritten in place by
  `HandleTap`, is proved to follow `Step`. There are also lemmas about
  single key presses, about the keypad that is actually rendered, about
  runs of keys, and a worked example (`sin`, `0`, then formatting).

The evaluator (`mathjs.evaluate(...).toString()`) is a parameter of type
`string -> Option<string>`. No property of it is assumed.

Behaviour modelled as the code has it:

- The `√` key appends `sqrt(`, not `√(` (App.js:41-43). So the formatter's
  `√(` rewrite never fires on text typed on the keypad without `=`.
  `KeypadTypesNoRewritable` and `KeypadFormat` state this.
- The keypad renders a `Cos` key (App.js:105), but the handler's case is
  `cos` (App.js:47). Pressing it appends `Cos` verbatim (`StepCosKey`).
- The keypad has no `^` key and no `cos` key. The handler still accepts
  both labels, and `Step` models that.
- After a failed `=` the buffer is the string `Error`, and later keys
  append to it. After a successful `=`, later keys append to the result.

## Model

| member | source | states |
|---|---|---|
| Parentheses.Count | App.js:71-74 | the number of matches of one character is at most the length, and zero exactly when the character is absent |
| Parentheses.CountOpen | App.js:71 | the count of `(` is the multiplicity of `(` in the string |
| Parentheses.CountClose | App.js:74 | the count of `)` is the multiplicity of `)` in the string |
| Parentheses.CountIsMultiplicity | App.js:71-74 | counting a character agrees with its multiplicity in the multiset of the string |
| Parentheses.CountAppend | App.js:71-74 | counts of a concatenation add up |
| Parentheses.PrefixBalancedMeans | App.js:60-63 | the recursive definition holds exactly when every prefix has no more `)` than `(` |
| Parentheses.AppendNoClose | App.js:41-58 | appending text without `)` keeps the buffer never over-closed |
| Parentheses.PrefixBalancedAppend | App.js:65-66 | appending a never-over-closed text to a never-over-closed buffer keeps it never over-closed |
| Parentheses.PrefixBalancedClose | App.js:59-64 | appending `)` while `(` outnumber `)` keeps the buffer never over-closed |
| Parentheses.PrefixBalancedDropLast | App.js:27-40 | dropping the last character, as both `C` (lines 27-29) and `⌫` (lines 38-40) do, keeps the buffer never over-closed |
| Formatter.ReplaceRadical | App.js:78 | the radical rewrite never shortens the text and keeps whether it starts with `(` |
| Formatter.ReplacePower | App.js:78 | the power rewrite lengthens the text by exactly the number of `^` |
| Formatter.Closers | App.js:82 | the padding is exactly n characters, all `)` |
| Formatter.ReplaceRadicalRemovesPattern | App.js:78 | after the radical rewrite no `√(` is left |
| Formatter.ReplaceRadicalIdentity | App.js:78 | text without `√(` is unchanged by the radical rewrite |
| Formatter.ReplaceRadicalCounts | App.js:78-80 | the radical rewrite keeps the count of `(` and of `)` (proved by induction in its helper ReplaceRadicalCount) |
| Formatter.ReplacePowerRemovesCaret | App.js:78 | after the power rewrite no `^` is left |
| Formatter.ReplacePowerIdentity | App.js:78 | text without `^` is unchanged by the power rewrite |
| Formatter.ReplacePowerCounts | App.js:78-80 | the power rewrite keeps the count of `(` and of `)` (proved by induction in its helper ReplacePowerCount) |
| Formatter.ReplacePowerKeepsNoRadical | App.js:78 | the power rewrite, applied second, cannot create a `√(` |
| Formatter.Rewritten | App.js:78-80 | the two chained replaces: the counts taken on the rewritten text equal those of the buffer, and it holds neither `^` nor `√(` |
| Formatter.RewrittenIdentity | App.js:78 | text with neither `^` nor `√(` is its own rewrite |
| Formatter.ClosersCounts | App.js:82 | the padding holds n `)` and no `(` |
| Formatter.FormatExpression | App.js:77-85 | the output extends the rewritten buffer with `)` only; specified further by FormatShape, FormatCounts, FormatClean and FormatIdempotent |
| Formatter.FormatShape | App.js:77-85 | the formatted text is the rewritten buffer followed by open − close `)` when open > close, and by nothing otherwise |
| Formatter.FormatCounts | App.js:79-84 | the formatted text keeps the `(` count, has max(open, close) `)`, and is balanced exactly when the buffer had close ≤ open |
| Formatter.FormatClean | App.js:77-85 | the formatted text holds neither `^` nor `√(` |
| Formatter.FormatIdempotent | App.js:77-85 | formatting twice gives the same text as formatting once |
| Calculator.DropLast | App.js:28-39 | `slice(0, -1)`, used by `C` (line 28) and `⌫` (line 39): the empty buffer stays empty, otherwise the result plus the old last character is the old buffer |
| Calculator.Evaluate | App.js:30-37 | the try/catch around the evaluator: when the evaluator succeeds on the formatted buffer the result is its value, and when it fails the result is exactly `Error` |
| Calculator.Step | App.js:22-68 | the dispatch on the key label: apart from `AC` and `=`, all but the last character of the old buffer survive, and an appending key keeps the whole old buffer; specified per branch by the Step* lemmas and StepKeepsPrefixBalanced |
| Calculator.Run | App.js:22-68 | `handleTap` applied to each key of a sequence in turn: a sequence of appending keys only extends the buffer |
| Calculator.App.constructor | App.js:7 | the buffer starts empty |
| Calculator.App.HandleTap | App.js:22-68 | the new buffer is `Step` of the old buffer and the key; and when the key is not `=`, the old buffer is never over-closed and the label is `)` or itself never over-closed, the new buffer is never over-closed |
| Calculator.StepAllClear | App.js:24-26 | `AC` empties the buffer from any state |
| Calculator.StepClearLast | App.js:27-40 | `C` (lines 27-29) and `⌫` (lines 38-40) act identically, removing exactly the last character, and leave the empty buffer empty |
| Calculator.StepCloseParen | App.js:59-64 | `)` yields buffer + `)` exactly when open > close, and otherwise leaves the buffer unchanged |
| Calculator.StepFunctionKey | App.js:44-58 | `sin`, `cos`, `tan`, `ln`, `log` append the name followed by `(` |
| Calculator.StepRadicalKey | App.js:41-43 | `√` appends `sqrt(` |
| Calculator.StepVerbatim | App.js:65-66 | every label outside the handled cases is appended verbatim |
| Calculator.StepCosKey | App.js:105 | the rendered `Cos` key falls to the default case and appends `Cos` |
| Calculator.StepAppendExtends | App.js:41-66 | for every appending key the old buffer is a prefix of the new one, strictly shorter when the label is non-empty |
| Calculator.StepEvaluate | App.js:30-37 | `=` leaves either the evaluator's result on the formatted buffer or exactly `Error`, and nothing else |
| Calculator.StepKeepsPrefixBalanced | App.js:22-68 | a key other than `=` keeps the buffer never over-closed when its label is never over-closed or is the guarded `)` |
| Calculator.KeypadKeepsPrefixBalanced | App.js:97-135 | every rendered key except `=` keeps the buffer never over-closed; the constant `Keypad` holds the 26 labels the rendered buttons hand to `handleTap` (App.js:97-135) |
| Calculator.KeypadTypesNoRewritable | App.js:97-135 | no rendered key except `=` puts a radical sign or `^` into a buffer that had none |
| Calculator.KeypadRun | App.js:97-135 | any run of rendered keys without `=` keeps the buffer never over-closed and free of radical signs and `^` |
| Calculator.FormatTyped | App.js:77-85 | on a never-over-closed buffer without radical signs or `^`, formatting only appends the open − close missing `)`, and its output is balanced |
| Calculator.KeypadFormat | App.js:77-85 | after keypad keys other than `=` typed from an empty buffer, formatting only appends the open − close missing `)`, and its output is balanced |
| Calculator.SinZeroTyped | App.js:44-46 | pressing `sin` then `0` on an empty buffer gives `sin(0` |
| Calculator.SinZeroFormatted | App.js:77-85 | the formatter turns `sin(0` into `sin(0)` |

## Left out

- Rendering, layout and styles (App.js:87-219), apart from the button labels, which `Keypad` keeps; this includes the `displayValue || '0'` fallback on screen. These are presentation only.
- The date and time feed (App.js:8-20). It is driven by a timer through `moment-timezone` and never touches the buffer.
- The evaluator's grammar and numerics and the conversion of its result to a string (App.js:3, App.js:33). They belong to the `mathjs` library and use floating point. They are an arbitrary `string -> Option<string>` parameter.
- React's asynchronous state updates. Each key press is one synchronous update of one field.
- Strings are sequences of characters. JavaScript's `slice` works on UTF-16 code units. Every label and every character the handler adds is a single code unit, so the two agree on buffers built from keys. They could differ only on an evaluator result holding characters outside the Basic Multilingual Plane.
