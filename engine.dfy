/**
 * The calculator engine: the eight pieces of component state and the key
 * handlers as pure transitions over them. Each handler that completes a
 * calculation also yields the history entry it reports through onCalculate.
 */
module Engine {
  import opened Types
  import opened Numbers
  import opened DisplayFormat

  /** The component state (display, prevValue, operation, shouldResetDisplay, lastOperand, lastOperation, currentExpression, finishedExpression). */
  datatype State = State(
    display: string,
    prevValue: Option<Num>,
    operation: Option<Op>,
    shouldResetDisplay: bool,
    lastOperand: Option<Num>,
    lastOperation: Option<Op>,
    currentExpression: string,
    finishedExpression: string
  )

  /** What a handler leaves behind: the new state and the entry it passed to onCalculate, if any. */
  datatype Outcome = Outcome(state: State, emitted: Option<Calculation>)

  /**
   * The state every handler keeps:
   * a pending left operand comes with a pending operator and the reverse;
   * the repeat operand comes with the repeat operator;
   * a finished expression on show means no operator is pending and the next
   * key starts a new entry;
   * a pending operator is the last token of the running expression, and with
   * none pending the running expression is empty.
   */
  ghost predicate Inv(s: State)
  {
    && (s.prevValue.None? <==> s.operation.None?)
    && (s.lastOperand.None? <==> s.lastOperation.None?)
    && (s.finishedExpression != "" ==> s.operation.None? && s.shouldResetDisplay)
    && (s.operation.Some? ==> EndsWith(s.currentExpression, OpToken(s.operation.value)))
    && (s.operation.None? ==> s.currentExpression == "")
  }

  /** The state on mount, and the state `clear` restores. */
  function Initial(): (s: State)
    ensures Inv(s)
    ensures s.display == "0" && !s.shouldResetDisplay
    ensures s.prevValue == None && s.lastOperand == None && s.finishedExpression == ""
  {
    State("0", None, None, false, None, None, "", "")
  }

  // ---------------------------------------------------------------------------
  // Entering digits
  // ---------------------------------------------------------------------------

  /** The display is at its cap and would be appended to. */
  predicate AtCap(s: State)
  {
    |s.display| >= MaxChars && !s.shouldResetDisplay
  }

  /** The next key replaces the display instead of appending to it. */
  predicate Replacing(s: State)
  {
    s.display == "0" || s.shouldResetDisplay
  }

  /** What a key replaces the display with: '.' starts "0.". */
  function FirstEntry(key: char): (d: string)
    ensures key == '.' ==> d == "0."
    ensures key != '.' ==> d == [key]
  {
    if key == '.' then "0." else [key]
  }

  /** handleNumber: a digit, '.', '(' or ')' key. */
  function HandleNumber(s: State, key: char): (r: State)
    // nothing changes at the cap, or for a second '.'
    ensures AtCap(s) ==> r == s
    ensures !AtCap(s) && !Replacing(s) && key == '.' && '.' in s.display ==> r == s
    // otherwise the display is replaced ...
    ensures !AtCap(s) && Replacing(s) ==>
      && r.display == FirstEntry(key) && !r.shouldResetDisplay
      && r.lastOperand == s.lastOperand && r.lastOperation == s.lastOperation
      && (s.finishedExpression == "" ==>
            r == s.(display := FirstEntry(key), shouldResetDisplay := false))
      && (s.finishedExpression != "" ==>
            r.finishedExpression == "" && r.currentExpression == ""
            && r.prevValue == None && r.operation == None)
    // ... or grows by exactly the key
    ensures !AtCap(s) && !Replacing(s) && !(key == '.' && '.' in s.display) ==>
      r == s.(display := s.display + [key])
  {
    if AtCap(s) then s
    else if Replacing(s) then
      var t := s.(display := FirstEntry(key), shouldResetDisplay := false);
      if s.finishedExpression != "" then
        t.(finishedExpression := "", currentExpression := "", prevValue := None, operation := None)
      else t
    else if key == '.' && '.' in s.display then s
    else s.(display := s.display + [key])
  }

  /** `display.slice(0, -1)`. */
  function DropLast(d: string): (r: string)
    ensures d != "" ==> r + [d[|d| - 1]] == d
    ensures d == "" ==> r == ""
  {
    if d == "" then "" else d[..|d| - 1]
  }

  /** A display backspace turns into "0": one character, or '-' and one character. */
  predicate SingleDigit(d: string)
  {
    |d| == 1 || (|d| == 2 && d[0] == '-')
  }

  /** handleBackspace. */
  function HandleBackspace(s: State): (r: State)
    ensures s.shouldResetDisplay ==> r == s
    ensures !s.shouldResetDisplay && SingleDigit(s.display) ==> r == s.(display := "0")
    ensures !s.shouldResetDisplay && !SingleDigit(s.display) && s.display != "" ==>
      r == s.(display := s.display[..|s.display| - 1])
    ensures !s.shouldResetDisplay && s.display == "" ==> r == s
    ensures r.display == s.display || |r.display| < |s.display| || r.display == "0"
  {
    if s.shouldResetDisplay then s
    else if SingleDigit(s.display) then s.(display := "0")
    else s.(display := DropLast(s.display))
  }

  // ---------------------------------------------------------------------------
  // Operators and evaluation
  // ---------------------------------------------------------------------------

  /** `prev.slice(0, -3)`: the expression without its last operator token. */
  function DropLast3(x: string): (r: string)
    ensures |x| >= 3 ==> r + x[|x| - 3..] == x
    ensures |x| < 3 ==> r == ""
  {
    if |x| >= 3 then x[..|x| - 3] else ""
  }

  /** handleOperation: an operator key. */
  function HandleOperation(p: Platform, s: State, op: Op): (r: State)
    // every path leaves the operator pending, a reset pending and no repeat pair
    ensures r.operation == Some(op) && r.shouldResetDisplay
    ensures r.lastOperand == None && r.lastOperation == None && r.finishedExpression == ""
    // after a finished calculation the shown result is the new left operand
    ensures s.finishedExpression != "" ==>
      && r.prevValue == Some(p.parseFloat(s.display)) && r.display == s.display
      && r.currentExpression == s.display + OpToken(op)
    // the first operator of an expression
    ensures s.finishedExpression == "" && s.prevValue == None ==>
      && r.prevValue == Some(p.parseFloat(s.display)) && r.display == s.display
      && r.currentExpression == p.toString(p.parseFloat(s.display)) + OpToken(op)
    // a second operand was entered: fold it into the left operand and show the result
    ensures s.finishedExpression == "" && s.prevValue.Some? && s.operation.Some? && !s.shouldResetDisplay ==>
      var v := ComputeResult(p, s.prevValue.value, p.parseFloat(s.display), s.operation);
      && r.prevValue == Some(v) && r.display == p.toString(v)
      && r.currentExpression == s.currentExpression + p.toString(p.parseFloat(s.display)) + OpToken(op)
    // two operators in a row: the later one replaces the earlier
    ensures s.finishedExpression == "" && s.prevValue.Some? && s.operation.Some? && s.shouldResetDisplay ==>
      && r.prevValue == s.prevValue && r.display == s.display
      && r.currentExpression == DropLast3(s.currentExpression) + OpToken(op)
  {
    var cur := p.parseFloat(s.display);
    if s.finishedExpression != "" then
      State(s.display, Some(cur), Some(op), true, None, None, s.display + OpToken(op), "")
    else
      var t :=
        if s.prevValue.None? then
          s.(prevValue := Some(cur), currentExpression := p.toString(cur) + OpToken(op))
        else if s.operation.Some? && !s.shouldResetDisplay then
          var v := ComputeResult(p, s.prevValue.value, cur, s.operation);
          s.(prevValue := Some(v), display := p.toString(v),
             currentExpression := s.currentExpression + p.toString(cur) + OpToken(op))
        else if s.operation.Some? then
          s.(currentExpression := DropLast3(s.currentExpression) + OpToken(op))
        else s;
      t.(operation := Some(op), shouldResetDisplay := true, lastOperand := None, lastOperation := None)
  }

  /** An operand, an operator and an operand as the expression text writes them. */
  function Expression(p: Platform, a: Num, op: Op, b: Num): string
  {
    p.toString(a) + OpToken(op) + p.toString(b)
  }

  /** The result text of `=`: String(result), cut to 10 decimals when it has a fraction part. */
  function Rounded(p: Platform, v: Num): (t: string)
    ensures '.' !in p.toString(v) ==> t == p.toString(v)
    ensures '.' in p.toString(v) ==> t == p.toString(p.parseFloat(p.toFixed(v, 10)))
  {
    var text := p.toString(v);
    if '.' in text then p.toString(p.parseFloat(p.toFixed(v, 10))) else text
  }

  /** `=` repeats the last operation: no operator pending and a repeat pair stored. */
  predicate Repeats(s: State)
  {
    s.operation.None? && s.lastOperation.Some? && s.lastOperand.Some?
  }

  /** `=` completes the pending operation. */
  predicate Completes(s: State)
  {
    !Repeats(s) && s.prevValue.Some? && s.operation.Some?
  }

  /** handleEqual. */
  function HandleEqual(p: Platform, s: State): (r: Outcome)
    // an entry is reported exactly when something is evaluated
    ensures r.emitted.Some? <==> Repeats(s) || Completes(s)
    ensures !Repeats(s) && !Completes(s) ==> r == Outcome(s, None)
    // what is reported is what the display and the expression line then show
    ensures r.emitted.Some? ==>
      && r.state.display == r.emitted.value.result
      && r.state.finishedExpression == r.emitted.value.expression + " ="
      && r.state.shouldResetDisplay && r.state.operation == None
    // repeating: current value, stored operator, stored operand; no rounding
    ensures Repeats(s) ==>
      var cur := p.parseFloat(s.display);
      var b := s.lastOperand.value;
      var o := s.lastOperation.value;
      && r.emitted == Some(Calculation(Expression(p, cur, o, b), p.toString(ComputeResult(p, cur, b, Some(o)))))
      && r.state.lastOperand == s.lastOperand && r.state.lastOperation == s.lastOperation
      && r.state.prevValue == s.prevValue && r.state.currentExpression == s.currentExpression
    // completing: the running expression and the entered operand, rounded; the pair is stored for repeats
    ensures Completes(s) ==>
      var cur := p.parseFloat(s.display);
      && r.emitted == Some(Calculation(s.currentExpression + p.toString(cur),
                                       Rounded(p, ComputeResult(p, s.prevValue.value, cur, s.operation))))
      && r.state.lastOperand == Some(cur) && r.state.lastOperation == s.operation
      && r.state.prevValue == None && r.state.currentExpression == ""
  {
    var cur := p.parseFloat(s.display);
    if Repeats(s) then
      var o := s.lastOperation.value;
      var expr := Expression(p, cur, o, s.lastOperand.value);
      var text := p.toString(ComputeResult(p, cur, s.lastOperand.value, Some(o)));
      Outcome(s.(finishedExpression := expr + " =", display := text, shouldResetDisplay := true),
              Some(Calculation(expr, text)))
    else if s.prevValue.None? || s.operation.None? then Outcome(s, None)
    else
      var text := Rounded(p, ComputeResult(p, s.prevValue.value, cur, s.operation));
      var expr := s.currentExpression + p.toString(cur);
      Outcome(State(text, None, None, true, Some(cur), s.operation, "", expr + " ="),
              Some(Calculation(expr, text)))
  }

  /** clear (AC). */
  function Clear(): (r: State)
    ensures r == Initial()
  {
    State("0", None, None, false, None, None, "", "")
  }

  // ---------------------------------------------------------------------------
  // Single-operand keys
  // ---------------------------------------------------------------------------

  /** The scientific keys handleScientific knows. */
  predicate IsScientific(kind: string)
  {
    kind in {"sqrt", "sqr", "sin", "cos", "tan", "log", "ln", "pi", "e"}
  }

  /** The value a scientific key computes from the parsed display. */
  function ScientificValue(p: Platform, kind: string, v: Num): Num
    requires IsScientific(kind)
  {
    if kind == "sqrt" then p.sqrt(v)
    else if kind == "sqr" then p.ieee(Mul, v, v)
    else if kind == "sin" then p.sin(v)
    else if kind == "cos" then p.cos(v)
    else if kind == "tan" then p.tan(v)
    else if kind == "log" then p.log10(v)
    else if kind == "ln" then p.ln(v)
    else if kind == "pi" then p.pi
    else p.e
  }

  /** The label a scientific key writes in the history. */
  function ScientificLabel(p: Platform, kind: string, v: Num): string
    requires IsScientific(kind)
  {
    var shown := p.toString(v);
    if kind == "sqrt" then "\U{221A}(" + shown + ")"
    else if kind == "sqr" then "(" + shown + ")\U{00B2}"
    else if kind == "pi" then "\U{03C0}"
    else if kind == "e" then "e"
    else kind + "(" + shown + ")"
  }

  /** The result text of a scientific key: String(Number(result.toFixed(8))). */
  function ScientificText(p: Platform, v: Num): string
  {
    p.toString(p.number(p.toFixed(v, 8)))
  }

  /** handleScientific. */
  function HandleScientific(p: Platform, s: State, kind: string): (r: Outcome)
    ensures !IsScientific(kind) ==> r == Outcome(s, None)
    ensures IsScientific(kind) ==>
      var v := p.parseFloat(s.display);
      var text := ScientificText(p, ScientificValue(p, kind, v));
      var tag := ScientificLabel(p, kind, v);
      && r.emitted == Some(Calculation(tag, text))
      && r.state == State(text, None, None, true, s.lastOperand, s.lastOperation, "", tag + " =")
  {
    if !IsScientific(kind) then Outcome(s, None)
    else
      var v := p.parseFloat(s.display);
      var text := ScientificText(p, ScientificValue(p, kind, v));
      var tag := ScientificLabel(p, kind, v);
      Outcome(s.(finishedExpression := tag + " =", display := text, shouldResetDisplay := true,
                 prevValue := None, operation := None, currentExpression := ""),
              Some(Calculation(tag, text)))
  }

  /** handleNegate: the display times -1. */
  function HandleNegate(p: Platform, s: State): (r: State)
    ensures r == s.(display := p.toString(p.ieee(Mul, p.parseFloat(s.display), Finite(-1.0))))
  {
    s.(display := p.toString(p.ieee(Mul, p.parseFloat(s.display), Finite(-1.0))))
  }

  /** The % key: the display divided by 100. */
  function Percent(p: Platform, s: State): (r: State)
    ensures r == s.(display := p.toString(p.ieee(Div, p.parseFloat(s.display), Finite(100.0))))
  {
    s.(display := p.toString(p.ieee(Div, p.parseFloat(s.display), Finite(100.0))))
  }

  /** The selectedCalculation effect: show a history entry as a finished calculation. */
  function LoadSelected(s: State, c: Calculation): (r: State)
    ensures r.display == c.result && r.finishedExpression == c.expression + " ="
    ensures r.shouldResetDisplay && r.currentExpression == ""
    ensures r.prevValue == None && r.operation == None && r.lastOperand == None && r.lastOperation == None
  {
    State(c.result, None, None, true, None, None, "", c.expression + " =")
  }

  // ---------------------------------------------------------------------------
  // Key sequences
  // ---------------------------------------------------------------------------

  /** The inputs the component reacts to (buttons and a history selection). */
  datatype Key =
    | PressDigit(key: char)
    | PressBackspace
    | PressOperator(op: Op)
    | PressEquals
    | PressClear
    | PressScientific(kind: string)
    | PressNegate
    | PressPercent
    | SelectEntry(entry: Calculation)

  function Apply(p: Platform, s: State, k: Key): Outcome
  {
    match k
    case PressDigit(c) => Outcome(HandleNumber(s, c), None)
    case PressBackspace => Outcome(HandleBackspace(s), None)
    case PressOperator(op) => Outcome(HandleOperation(p, s, op), None)
    case PressEquals => HandleEqual(p, s)
    case PressClear => Outcome(Clear(), None)
    case PressScientific(kind) => HandleScientific(p, s, kind)
    case PressNegate => Outcome(HandleNegate(p, s), None)
    case PressPercent => Outcome(Percent(p, s), None)
    case SelectEntry(c) => Outcome(LoadSelected(s, c), None)
  }

  /** The keys that report a calculation. */
  predicate Evaluates(k: Key)
  {
    k.PressEquals? || k.PressScientific?
  }

  datatype Trace = Trace(state: State, reported: seq<Calculation>)

  /** The state after a key sequence, and the entries reported on the way, in order. */
  function Run(p: Platform, s: State, keys: seq<Key>): Trace
    decreases |keys|
  {
    if keys == [] then Trace(s, [])
    else
      var t := Run(p, s, keys[..|keys| - 1]);
      var o := Apply(p, t.state, keys[|keys| - 1]);
      Trace(o.state, t.reported + (if o.emitted.Some? then [o.emitted.value] else []))
  }

  /** Typing a string of keys one handleNumber at a time. */
  function TypeIn(s: State, d: string): State
    decreases |d|
  {
    if d == "" then s else HandleNumber(TypeIn(s, d[..|d| - 1]), d[|d| - 1])
  }
}
