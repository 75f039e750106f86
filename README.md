# Calculator core, modelled in Dafny

This project models the calculator app's logic. The app is a React calculator with a history, a theme switch and a sidebar.

The model has two parts:

- **The Calculator component.** This is the calculator's eight pieces of state and the handlers that change them:
  - digits and `.`, which append;
  - backspace;
  - operators, which fold left to right and which replace each other when pressed in a row;
  - `=`, which also repeats the last operation;
  - clear;
  - the scientific keys;
  - negate and percent;
  - loading a history entry.

  It also models how the display text is formatted:
  - the error literals;
  - thousands separators;
  - the exponential form of long numbers.
- **The App shell.** This covers:
  - the history list, newest first and capped at 50;
  - the theme toggle;
  - the Android back-button priority rules;
  - the left-edge swipe that opens the sidebar;
  - the sidebar's navigation callback.

The files are:

| file | module | contents |
|---|---|---|
| `types.dfy` | `Types` | `Option`, the operator type, the history entry (expression and result text) |
| `numbers.dfy` | `Numbers` | JavaScript numbers (`Num`), the `Platform` record of number primitives, `computeResult` |
| `display_format.dfy` | `DisplayFormat` | `formatDisplay`: its separator regex, its exponent-trimming regex, and their laws |
| `engine.dfy` | `Engine` | every handler as a pure transition on a `State` record; the specification of the class below |
| `engine_laws.dfy` | `EngineLaws` | the state invariant and the behavioural laws of the calculator |
| `calculator.dfy` | `CalculatorComponent` | class `Calculator`: the eight fields and one method per handler, each proved equal to its `Engine` transition |
| `app.dfy` | `AppShell` | the history, theme, back-button, swipe and navigation logic, as functions and as class `App` |

### Representing the platform

JavaScript numbers are IEEE doubles. They are modelled as `Num`, with three cases:

- a real value, `Finite(x)`;
- `NaN`;
- a signed `Infinity`.

Every number primitive the code calls is a field of `Numbers.Platform`:

- `parseFloat`, `Number`, `String`, `toFixed` and `toExponential`;
- the operators `+ - * /` and `Math.pow`;
- `Math.sqrt`, `sin`, `cos`, `tan`, `log10` and `log`;
- `Math.PI` and `Math.E`.

The whole model is parametric in that record. A proof that needs a JavaScript fact states it as a hypothesis:

- `JsNumberText`: `String(NaN)` is `"NaN"`, `parseFloat("NaN")` is NaN, and so on;
- `SqrtDomain`: the square root of a negative number is NaN;
- `EngineLaws.ExactNegation(p, x)`: for the one value x being negated, `x * -1` and `-x * -1` are exact, and `parseFloat(String(-x))` is `-x`.

The translation's error text is a parameter of `FormatDisplay`.

### Behaviours of the code the model follows

- The scientific keys do not reset `lastOperand` and `lastOperation`. So `=` after a scientific key repeats the last binary operation on the scientific result (`EngineLaws.ScientificKeepsRepeat`).
- Repeating `=` does not round the result to 10 decimals. Only completing a pending operation does (`Engine.Rounded`).
- After a finished calculation, an operator starts the new expression with the display text itself, not with `String(parseFloat(display))`.
- `handleScientific` formats its result with `Number(...)`. Everything else parses with `parseFloat`. Both are separate platform fields.
- `onNavigate` casts the view name without a check. The overlay is therefore modelled as a string, and every value other than `"calculator"` counts as an overlay.
- `toggleTheme` maps `"dark"` to `"light"` and every other value, including an unexpected saved one, to `"dark"`.

## Model

| member | source | states |
|---|---|---|
| Numbers.ComputeResult | components/Calculator.tsx:114-123 | division by zero gives NaN; with no operator the result is the right operand; otherwise it is the IEEE operation |
| DisplayFormat.FormatDisplay | components/Calculator.tsx:71-84 | the three error literals map to the error text; a string over 12 characters that does not parse is cut to its first 12 characters |
| DisplayFormat.FormatDisplayFits | components/Calculator.tsx:80-83 | a non-error string of at most 12 characters is only given separators in its integer part |
| DisplayFormat.SeparateThousands | components/Calculator.tsx:81-83 | `val.split('.')`, separators in the first part, `join('.')`: separators go into the text before the first '.', and everything from that '.' on is kept (no contract of its own; its laws are `SeparateThousandsKeepsText` and `FormatNumeral`) |
| DisplayFormat.CommaBefore | components/Calculator.tsx:82 | where `/\B(?=(\d{3})+(?!\d))/` matches: after a word character, at a digit, and where the maximal digit run from that position is a positive multiple of three long (no contract of its own; its laws are `CommaBeforeDigits` and `AddCommasDigits`) |
| DisplayFormat.AddCommas | components/Calculator.tsx:82 | the global replacement: a ',' is inserted before each matching position of the original string (no contract of its own; `InsertCommas` is the same over a prefix; their laws are `AddCommasDigits`, `SignedDigitsGrouping` and `StripInsertCommas`) |
| DisplayFormat.FormatDisplayKeepsText | components/Calculator.tsx:80-83 | for a non-error string of at most 12 characters: deleting the commas from the output gives back the input with its commas deleted; an input without commas comes back exactly; the output still ends with everything from the input's first '.' on |
| DisplayFormat.SeparateThousandsKeepsText | components/Calculator.tsx:80-83 | splitting at '.', adding separators to the first part and joining keeps the text apart from the commas, and keeps the part after the first '.' |
| DisplayFormat.AddCommasDigits | components/Calculator.tsx:82 | on a digit string the lookahead regex inserts commas exactly as ordinary thousands grouping from the right |
| DisplayFormat.SignedDigitsGrouping | components/Calculator.tsx:82 | a leading '-' is left alone, and the digits after it are grouped in threes |
| DisplayFormat.FormatNumeral | components/Calculator.tsx:71-84 | a short value made of an optional '-', digits and a fraction is shown as sign, grouped digits, fraction unchanged |
| DisplayFormat.GroupingExample | components/Calculator.tsx:80-83 | the display "1234567.5" is shown as "1,234,567.5" |
| DisplayFormat.KeptLengthZeros | components/Calculator.tsx:76 | the dropped tail of the fraction is all zeros, and what is kept does not end in a zero |
| DisplayFormat.MatchLength | components/Calculator.tsx:76 | the length of the match of `\.?0+e` at a position, or 0 when it does not match there; the result stays within the string |
| DisplayFormat.TrimExponent | components/Calculator.tsx:76 | `.replace(/\.?0+e/, 'e')`: the leftmost match, found by `ReplaceFirstFrom`, is replaced by "e" (no contract of its own; its law is `TrimExponentOfExponential`) |
| DisplayFormat.TrimExponentOfExponential | components/Calculator.tsx:76 | on toExponential's layout, `.replace(/\.?0+e/, 'e')` removes exactly the trailing zeros of the fraction, plus the '.' when only zeros remain |
| DisplayFormat.FormatLongNumber | components/Calculator.tsx:73-77 | a long display that parses is shown in six-digit exponential form with the fraction's trailing zeros removed |
| Engine.Initial | components/Calculator.tsx:23-33 | the state on mount shows "0" with nothing pending, and satisfies the invariant |
| Engine.HandleNumber | components/Calculator.tsx:86-103 | no change at the 12-character cap without a pending reset, or for a second '.'; "0" or a pending reset makes the key replace the display ('.' gives "0.") and clears the reset, and a finished calculation is discarded; otherwise exactly one character is appended |
| Engine.HandleBackspace | components/Calculator.tsx:105-112 | no change while a reset is pending; one character, or '-' and one character, becomes "0"; otherwise exactly the last character is dropped (an empty display stays empty) |
| Engine.HandleOperation | components/Calculator.tsx:125-155 | every path leaves the operator pending, sets the reset and drops the repeat pair; after a finished calculation the display becomes the left operand; the first operator stores the parsed display; a typed second operand is folded in and its result shown; a second operator in a row replaces the first in the expression |
| Engine.HandleEqual | components/Calculator.tsx:157-198 | an entry is reported exactly when it repeats or completes an operation, and the display then shows the reported result; repeating applies the stored operator and operand to the display without rounding; completing reports the running expression with the last operand and the rounded result, and stores the pair for repeats |
| Engine.Rounded | components/Calculator.tsx:176-181 | a result with a '.' in its text is cut to 10 decimals through toFixed and parseFloat; any other result text is kept |
| Engine.Clear | components/Calculator.tsx:200-209 | the state returns to the initial one |
| Engine.HandleScientific | components/Calculator.tsx:211-242 | a known key reports its label and `String(Number(result.toFixed(8)))`, shows that text, and clears the pending operation and expression; an unknown key changes nothing |
| Engine.ScientificValue | components/Calculator.tsx:216-226 | the value of each of the nine keys; "sqr" squares with IEEE multiplication (no contract of its own; it is the reference for `Calculator.ScientificKey`) |
| Engine.ScientificLabel | components/Calculator.tsx:216-226 | the history label of each key: `√(v)`, `(v)²`, `π`, `e`, or the key name applied to `String(v)` (no contract of its own; it is the reference for `Calculator.ScientificKey`) |
| Engine.ScientificText | components/Calculator.tsx:229 | the result text `String(Number(result.toFixed(8)))` (no contract of its own) |
| Engine.HandleNegate | components/Calculator.tsx:244-246 | only the display changes, to `String(parseFloat(display) * -1)`; its law is `EngineLaws.NegateTwice` |
| Engine.Percent | components/Calculator.tsx:280 | only the display changes, to `String(parseFloat(display) / 100)` |
| Engine.LoadSelected | components/Calculator.tsx:38-49 | a history entry is shown as a finished calculation: its result on the display, its expression followed by " =", nothing pending and a reset set |
| EngineLaws.InvHandleNumber | components/Calculator.tsx:86-103 | a digit key preserves the invariant: an operator is pending exactly when a left operand is stored, the expression ends with the pending operator's token and is empty without one, and an operation is never pending beside a finished expression |
| EngineLaws.InvHandleBackspace | components/Calculator.tsx:105-112 | backspace preserves the invariant |
| EngineLaws.InvHandleOperation | components/Calculator.tsx:125-155 | an operator preserves the invariant |
| EngineLaws.InvHandleEqual | components/Calculator.tsx:157-198 | `=` preserves the invariant |
| EngineLaws.InvHandleScientific | components/Calculator.tsx:211-242 | a scientific key preserves the invariant |
| EngineLaws.InvLoadSelected | components/Calculator.tsx:38-49 | loading an entry establishes the invariant from any state |
| EngineLaws.InvRun | components/Calculator.tsx:86-246 | any sequence of button presses and selections preserves the invariant |
| EngineLaws.RunReportsPerEvaluation | components/Calculator.tsx:157-242 | a key sequence reports at most one history entry per `=` or scientific key it contains |
| EngineLaws.TypeInShows | components/Calculator.tsx:86-103 | typing a key string while an operand is awaited puts exactly that text on the display, when the string has at most 12 characters and at most one '.', does not start with '.', and starts with '0' only as "0" or "0." followed by more keys (a leading '.' shows as "0." and a leading "0" followed by a digit is swallowed, so those strings do not show as typed) |
| EngineLaws.ChainEvaluatesLeftToRight | components/Calculator.tsx:125-198 | for operands typed as `TypeInShows` allows (including "0" and "0.5"), `a o1 b o2 c =` reports the expression "a o1 b o2 c" and the rounded result of `(a o1 b) o2 c`, and shows that result |
| EngineLaws.LastOperatorWins | components/Calculator.tsx:146-154 | two operators in a row leave the same state as the second alone |
| EngineLaws.EqualsRepeats | components/Calculator.tsx:160-172 | after completing `a op b =`, pressing `=` again applies `op b` to the shown result |
| EngineLaws.DigitAfterEqualsRepeats | components/Calculator.tsx:90-98 | a digit typed after `=` discards the finished calculation, and the next `=` applies the stored operation to the new number |
| EngineLaws.ScientificKeepsRepeat | components/Calculator.tsx:211-242 | a scientific key keeps the repeat pair, so a following `=` repeats the last binary operation on the scientific result |
| EngineLaws.DivisionByZeroShowsError | components/Calculator.tsx:119 | dividing by zero reports "NaN", and the display shows the error text |
| EngineLaws.SqrtOfNegativeShowsError | components/Calculator.tsx:217 | the square root of a negative number reports "NaN", and the display shows the error text |
| EngineLaws.BackspaceUndoesDigit | components/Calculator.tsx:86-112 | backspace right after an appended key restores the previous state |
| EngineLaws.LoadThenDigitStartsFresh | components/Calculator.tsx:38-49 | a key pressed after loading an entry starts a fresh calculation that shows only that key |
| EngineLaws.NegateTwice | components/Calculator.tsx:244-246 | when the display parses to x and negating x and -x is exact, `+/-` twice leaves the state with the display `String(x)`; a display already in that form comes back unchanged |
| CalculatorComponent.Calculator.constructor | components/Calculator.tsx:23-33 | the fields start in the initial state |
| CalculatorComponent.Calculator.HandleNumber | components/Calculator.tsx:86-103 | the fields change as `Engine.HandleNumber` says, and the invariant is kept |
| CalculatorComponent.Calculator.HandleBackspace | components/Calculator.tsx:105-112 | the fields change as `Engine.HandleBackspace` says, and the invariant is kept |
| CalculatorComponent.Calculator.HandleOperation | components/Calculator.tsx:125-155 | the fields change as `Engine.HandleOperation` says, and the invariant is kept |
| CalculatorComponent.Calculator.HandleEqual | components/Calculator.tsx:157-198 | the fields and the entry passed to onCalculate are those of `Engine.HandleEqual` |
| CalculatorComponent.Calculator.Clear | components/Calculator.tsx:200-209 | the fields return to the initial state |
| CalculatorComponent.Calculator.ScientificKey | components/Calculator.tsx:216-226 | the switch knows exactly the nine scientific keys, and gives each one its value and its label |
| CalculatorComponent.Calculator.HandleScientific | components/Calculator.tsx:211-242 | the fields and the reported entry are those of `Engine.HandleScientific` |
| CalculatorComponent.Calculator.HandleNegate | components/Calculator.tsx:244-246 | the display becomes `String(parseFloat(display) * -1)`, and nothing else changes |
| CalculatorComponent.Calculator.Percent | components/Calculator.tsx:280 | the display becomes `String(parseFloat(display) / 100)`, and nothing else changes |
| CalculatorComponent.Calculator.LoadSelected | components/Calculator.tsx:38-49 | the fields become those of `Engine.LoadSelected`, and the invariant holds |
| AppShell.PushHistory | App.tsx:144-146 | the new entry comes first; the length is min(old length + 1, 50); the rest is a prefix of the old list in order |
| AppShell.PushAll | App.tsx:144-146 | the history after handleNewCalculation for each report in order (no contract of its own; its laws are `PushAllNewestFirst` and `PushAllBounded`) |
| AppShell.PushAllNewestFirst | App.tsx:144-146 | after a run of new calculations, the history is the newest-first list of them followed by the old history, cut to 50 |
| AppShell.PushAllBounded | App.tsx:144-146 | a history within the cap grows by one per entry until it reaches 50 |
| AppShell.HistoryAfterKeys | App.tsx:144-146 | pressing calculator keys adds at most one history entry per `=` or scientific key |
| AppShell.NextTheme | App.tsx:158 | the theme becomes 'light' from 'dark' and 'dark' from anything else |
| AppShell.ToggleTwice | App.tsx:158 | toggling twice restores a 'dark' or 'light' theme |
| AppShell.Back | App.tsx:80-92 | an open sidebar is closed and nothing else changes; otherwise an overlay returns to the calculator and clears the selection; the app exits exactly when the sidebar is closed and the calculator is showing, and then nothing changes |
| AppShell.ExitWithinThreePresses | App.tsx:80-92 | from any screen, at most three presses of back leave the app |
| AppShell.Navigated | App.tsx:175-179 | the sidebar is closed and the overlay is the chosen view; the selection is cleared exactly when the view is 'calculator' |
| AppShell.SelectItem | App.tsx:148-151 | the chosen entry is selected and the calculator is shown |
| AppShell.BackAfterNavigate | App.tsx:80-92 | back after navigating to another view returns to the calculator with no selection; back after navigating to the calculator exits |
| AppShell.BackAfterSelect | App.tsx:148-151 | with the sidebar closed, back after selecting an entry exits and keeps the selection |
| AppShell.OpensSidebar | App.tsx:112-121 | the swipe test: start x below 40, a rightward move over 50, and over twice the vertical distance (no contract of its own; its laws are `SwipeNeeds` and `SwipeMonotone`) |
| AppShell.SwipeNeeds | App.tsx:108-122 | a swipe opens the sidebar only from x < 40, by more than 50 to the right, and by more than twice its vertical distance; any such purely horizontal swipe opens it |
| AppShell.SwipeMonotone | App.tsx:119 | an opening swipe still opens when it ends further right |
| AppShell.App.constructor | App.tsx:21-61 | the app mounts with the saved history and theme, the sidebar closed, the calculator showing, and nothing selected |
| AppShell.App.HandleNewCalculation | App.tsx:144-146 | the history becomes `PushHistory` of the old one, and nothing else changes |
| AppShell.App.ClearHistory | App.tsx:153-156 | the history becomes empty, and nothing else changes |
| AppShell.App.HandleSelectHistoryItem | App.tsx:148-151 | the navigation state becomes `SelectItem` of the old one, and nothing else changes |
| AppShell.App.ToggleTheme | App.tsx:158 | the theme becomes `NextTheme` of the old one, and nothing else changes |
| AppShell.App.BackButton | App.tsx:80-92 | the navigation state and the exit decision are those of `Back` |
| AppShell.App.TouchStart | App.tsx:103-106 | the start coordinates are recorded |
| AppShell.App.TouchEnd | App.tsx:108-122 | the sidebar opens exactly on an edge swipe and is never closed; nothing else changes |
| AppShell.App.Navigate | App.tsx:175-179 | the navigation state becomes `Navigated` of the old one, and nothing else changes |

## Left out

- Floating point: IEEE arithmetic, `String`, `parseFloat`, `Number`, `toFixed`, `toExponential` and the `Math` functions are fields of `Platform`, not definitions. Laws that need a JavaScript fact take it as a hypothesis (`JsNumberText`, `SqrtDomain`, `ExactNegation`).
- `Num` has a single zero, `Finite(0.0)`, so JavaScript's -0 and +0 are not told apart. The results that depend on the sign of zero are not captured. For example, the keys `0 × 5 +/- ^ 1 +/- =` report "-Infinity" in JavaScript (`Math.pow(-0, -1)`), and `0 ^ 1 +/- =` reports "Infinity". In the model both reach the same operands, so every platform reports the same text for both. `b !== 0` in `computeResult` is false for both zeros, so division is not affected.
- The swipe test uses exact real arithmetic for `xDiff` and the vertical distance, not double subtraction.
- Ids and timestamps of history entries (`Date.now()` and `new Date()`) are left out. An entry is its expression and result text.
- The keyboard listener and its `useCallback` dependencies are left out. Keys come through the button handlers.
- Persistence is left out: `localStorage` reads and writes, the theme's system-preference fallback, the language and the button colour. The saved history and theme are constructor parameters.
- Capacitor is left out: listener registration, `removeAllListeners` and `exitApp`. The call to `exitApp` is the `exit` result of `BackButton`.
- The refs that the back-button listener reads are left out. The model reads the current state, which is the same once React has run the ref-updating effects.
- React scheduling is left out. Each handler is one atomic transition. The `selectedCalculation` effect is the `LoadSelected` method, called when the selection changes.
- The button pager (`onScroll` and `currentPage`), rendering, styles and translations are left out. The error text is a parameter of `FormatDisplay`.
- `closeOverlay`, the Navbar menu callback and the Sidebar's `onClose` are left out. Each sets one field, and the core does not route through them.
