/**
 * What the engine's handlers promise together: the invariant, typing numbers,
 * chained operators, repeated `=`, and the error paths.
 */
module EngineLaws {
  import opened Types
  import opened Numbers
  import opened DisplayFormat
  import opened Engine

  // ---------------------------------------------------------------------------
  // The invariant
  // ---------------------------------------------------------------------------

  lemma InvHandleNumber(s: State, key: char)
    requires Inv(s)
    ensures Inv(HandleNumber(s, key))
  {
  }

  lemma InvHandleBackspace(s: State)
    requires Inv(s)
    ensures Inv(HandleBackspace(s))
  {
  }

  lemma InvHandleOperation(p: Platform, s: State, op: Op)
    requires Inv(s)
    ensures Inv(HandleOperation(p, s, op))
  {
    var r := HandleOperation(p, s, op);
    var x := r.currentExpression;
    if s.finishedExpression == "" && s.prevValue.Some? && s.operation.Some? && s.shouldResetDisplay {
      var y := DropLast3(s.currentExpression);
      assert x == y + OpToken(op);
      assert x[|x| - 3..] == OpToken(op);
    } else {
      assert x[|x| - 3..] == OpToken(op);
    }
  }

  lemma InvHandleEqual(p: Platform, s: State)
    requires Inv(s)
    ensures Inv(HandleEqual(p, s).state)
  {
  }

  lemma InvHandleScientific(p: Platform, s: State, kind: string)
    requires Inv(s)
    ensures Inv(HandleScientific(p, s, kind).state)
  {
  }

  lemma InvLoadSelected(s: State, c: Calculation)
    ensures Inv(LoadSelected(s, c))
  {
  }

  /** Every key keeps the invariant. */
  lemma InvApply(p: Platform, s: State, k: Key)
    requires Inv(s)
    ensures Inv(Apply(p, s, k).state)
  {
    match k
    case PressDigit(c) => InvHandleNumber(s, c);
    case PressBackspace => InvHandleBackspace(s);
    case PressOperator(op) => InvHandleOperation(p, s, op);
    case PressEquals => InvHandleEqual(p, s);
    case PressClear =>
    case PressScientific(kind) => InvHandleScientific(p, s, kind);
    case PressNegate =>
    case PressPercent =>
    case SelectEntry(c) => InvLoadSelected(s, c);
  }

  /** So does every key sequence. */
  lemma {:induction false} InvRun(p: Platform, s: State, keys: seq<Key>)
    requires Inv(s)
    ensures Inv(Run(p, s, keys).state)
    decreases |keys|
  {
    if keys != [] {
      InvRun(p, s, keys[..|keys| - 1]);
      InvApply(p, Run(p, s, keys[..|keys| - 1]).state, keys[|keys| - 1]);
    }
  }

  /** How many keys of a sequence can report a calculation. */
  function Evaluations(keys: seq<Key>): nat
    decreases |keys|
  {
    if keys == [] then 0
    else Evaluations(keys[..|keys| - 1]) + (if Evaluates(keys[|keys| - 1]) then 1 else 0)
  }

  lemma ApplyReports(p: Platform, s: State, k: Key)
    ensures Apply(p, s, k).emitted.Some? ==> Evaluates(k)
  {
  }

  /** The history grows by at most one entry per `=` or scientific key. */
  lemma {:induction false} RunReportsPerEvaluation(p: Platform, s: State, keys: seq<Key>)
    ensures |Run(p, s, keys).reported| <= Evaluations(keys)
    decreases |keys|
  {
    if keys != [] {
      RunReportsPerEvaluation(p, s, keys[..|keys| - 1]);
      ApplyReports(p, Run(p, s, keys[..|keys| - 1]).state, keys[|keys| - 1]);
    }
  }

  // ---------------------------------------------------------------------------
  // Typing a number
  // ---------------------------------------------------------------------------

  /**
   * A key string that comes out on the display as typed: at most 12 keys, at
   * most one '.', not starting with '.' (which becomes "0."), and starting
   * with '0' only as "0" itself or before the '.' (a display of "0" is
   * replaced by the next digit).
   */
  predicate Typable(d: string)
  {
    && 0 < |d| <= MaxChars
    && d[0] != '.'
    && (d[0] == '0' ==> |d| == 1 || d[1] == '.')
    && forall i, j :: 0 <= i < j < |d| && d[i] == '.' ==> d[j] != '.'
  }

  /** A state where the next key starts a new operand of the running expression. */
  predicate AwaitsOperand(s: State)
  {
    Replacing(s) && s.finishedExpression == ""
  }

  lemma TypablePrefix(d: string)
    requires Typable(d) && |d| > 1
    ensures Typable(d[..|d| - 1])
    ensures d[|d| - 1] == '.' ==> '.' !in d[..|d| - 1]
  {
  }

  lemma TypeInSnoc(s: State, e: string, c: char)
    ensures TypeIn(s, e + [c]) == HandleNumber(TypeIn(s, e), c)
  {
    var d := e + [c];
    assert d[..|d| - 1] == e;
  }

  lemma AppendKey(t: State, c: char)
    requires !AtCap(t) && !Replacing(t) && !(c == '.' && '.' in t.display)
    ensures HandleNumber(t, c) == t.(display := t.display + [c])
  {
  }

  /** Typing a typable string on a fresh operand shows exactly that string. */
  lemma {:induction false} TypeInShows(s: State, d: string)
    requires AwaitsOperand(s) && Typable(d)
    ensures TypeIn(s, d) == s.(display := d, shouldResetDisplay := false)
    decreases |d|
  {
    if |d| == 1 {
      assert d[..0] == "";
      assert [d[0]] == d;
    } else {
      var e := d[..|d| - 1];
      TypablePrefix(d);
      TypeInShows(s, e);
      TypeInSnoc(s, e, d[|d| - 1]);
      if e == "0" {
        // the '.' after a lone "0" replaces it with "0."
        assert d == "0.";
      } else {
        AppendKey(s.(display := e, shouldResetDisplay := false), d[|d| - 1]);
      }
      assert e + [d[|d| - 1]] == d;
    }
  }

  // ---------------------------------------------------------------------------
  // Expressions
  // ---------------------------------------------------------------------------

  /**
   * `a o1 b o2 c =` evaluates left to right: the second operator folds
   * `a o1 b` into the left operand, and `=` applies `o2` to that and `c`; the
   * history entry writes the whole expression.
   */
  lemma ChainEvaluatesLeftToRight(p: Platform, a: string, o1: Op, b: string, o2: Op, c: string)
    requires Typable(a) && Typable(b) && Typable(c)
    ensures
      var s1 := HandleOperation(p, TypeIn(Initial(), a), o1);
      var s2 := HandleOperation(p, TypeIn(s1, b), o2);
      var r := HandleEqual(p, TypeIn(s2, c));
      var A, B, C := p.parseFloat(a), p.parseFloat(b), p.parseFloat(c);
      && r.emitted == Some(Calculation(
           p.toString(A) + OpToken(o1) + p.toString(B) + OpToken(o2) + p.toString(C),
           Rounded(p, ComputeResult(p, ComputeResult(p, A, B, Some(o1)), C, Some(o2)))))
      && r.state.display == r.emitted.value.result
  {
    var s0 := Initial();
    TypeInShows(s0, a);
    var s1 := HandleOperation(p, TypeIn(s0, a), o1);
    TypeInShows(s1, b);
    var s2 := HandleOperation(p, TypeIn(s1, b), o2);
    TypeInShows(s2, c);
  }

  /** What an operator key writes before its own token. */
  function Lead(p: Platform, s: State): string
  {
    var cur := p.parseFloat(s.display);
    if s.finishedExpression != "" then s.display
    else if s.prevValue.None? then p.toString(cur)
    else if !s.shouldResetDisplay then s.currentExpression + p.toString(cur)
    else DropLast3(s.currentExpression)
  }

  lemma OperationLead(p: Platform, s: State, op: Op)
    requires Inv(s)
    ensures HandleOperation(p, s, op).currentExpression == Lead(p, s) + OpToken(op)
  {
  }

  lemma DropToken(x: string, op: Op)
    ensures DropLast3(x + OpToken(op)) == x
  {
    var y := x + OpToken(op);
    assert y[..|y| - 3] == x;
  }

  /** Two operators in a row: the result is as if only the later one had been pressed. */
  lemma LastOperatorWins(p: Platform, s: State, o1: Op, o2: Op)
    requires Inv(s)
    ensures HandleOperation(p, HandleOperation(p, s, o1), o2) == HandleOperation(p, s, o2)
  {
    OperationLead(p, s, o1);
    OperationLead(p, s, o2);
    DropToken(Lead(p, s), o1);
  }

  // ---------------------------------------------------------------------------
  // Repeated `=`
  // ---------------------------------------------------------------------------

  /** After a completed `=`, pressing `=` again applies the same operator and operand to the shown result. */
  lemma EqualsRepeats(p: Platform, s: State)
    requires Completes(s)
    ensures
      var t := HandleEqual(p, s).state;
      var o := s.operation.value;
      var B := p.parseFloat(s.display);
      var cur := p.parseFloat(t.display);
      HandleEqual(p, t).emitted
        == Some(Calculation(Expression(p, cur, o, B), p.toString(ComputeResult(p, cur, B, Some(o)))))
  {
  }

  /** A new number typed after `=` is the left operand of the repeated operation. */
  lemma DigitAfterEqualsRepeats(p: Platform, s: State, key: char)
    requires Inv(s) && Completes(s)
    ensures
      var t := HandleNumber(HandleEqual(p, s).state, key);
      var o := s.operation.value;
      var B := p.parseFloat(s.display);
      var cur := p.parseFloat(FirstEntry(key));
      && t.finishedExpression == "" && t.prevValue == None && t.operation == None
      && HandleEqual(p, t).emitted
           == Some(Calculation(Expression(p, cur, o, B), p.toString(ComputeResult(p, cur, B, Some(o)))))
  {
    var r := HandleEqual(p, s);
    assert r.state.finishedExpression != "";
  }

  /** A scientific key keeps the repeat pair, so `=` after it repeats the earlier operation on the new value. */
  lemma ScientificKeepsRepeat(p: Platform, s: State, kind: string)
    requires Repeats(s) && IsScientific(kind)
    ensures
      var t := HandleScientific(p, s, kind).state;
      var cur := p.parseFloat(t.display);
      var b := s.lastOperand.value;
      var o := s.lastOperation.value;
      HandleEqual(p, t).emitted
        == Some(Calculation(Expression(p, cur, o, b), p.toString(ComputeResult(p, cur, b, Some(o)))))
  {
  }

  // ---------------------------------------------------------------------------
  // Error paths
  // ---------------------------------------------------------------------------

  /** Dividing by zero reports "NaN", which the display shows as the error text. */
  lemma DivisionByZeroShowsError(p: Platform, error: string, s: State)
    requires JsNumberText(p)
    requires Completes(s) && s.operation == Some(Div) && p.parseFloat(s.display) == Zero
    ensures
      var r := HandleEqual(p, s);
      && r.emitted.Some? && r.emitted.value.result == "NaN"
      && FormatDisplay(p, error, r.state.display) == error
  {
    assert '.' !in "NaN";
  }

  /** The square root of a negative number reports "NaN", shown as the error text. */
  lemma SqrtOfNegativeShowsError(p: Platform, error: string, s: State, x: real)
    requires JsNumberText(p) && SqrtDomain(p)
    requires p.parseFloat(s.display) == Finite(x) && x < 0.0
    ensures
      var r := HandleScientific(p, s, "sqrt");
      && r.emitted.Some? && r.emitted.value.result == "NaN"
      && FormatDisplay(p, error, r.state.display) == error
  {
    assert IsScientific("sqrt");
    assert ScientificValue(p, "sqrt", Finite(x)) == NaN;
  }

  // ---------------------------------------------------------------------------
  // Editing and loading
  // ---------------------------------------------------------------------------

  /** A backspace takes back a key that was appended. */
  lemma BackspaceUndoesDigit(s: State, key: char)
    requires !AtCap(s) && !Replacing(s) && !(key == '.' && '.' in s.display)
    requires s.display != "" && s.display != "-"
    ensures HandleBackspace(HandleNumber(s, key)) == s
  {
    var d := s.display + [key];
    assert d[..|d| - 1] == s.display;
  }

  /** Loading a history entry and then typing a key starts a fresh calculation. */
  lemma LoadThenDigitStartsFresh(s: State, c: Calculation, key: char)
    ensures HandleNumber(LoadSelected(s, c), key) == Initial().(display := FirstEntry(key))
  {
  }

  /**
   * The JavaScript facts negating x needs: `x * -1` and `-x * -1` are exact,
   * and String and parseFloat round-trip on -x.
   */
  ghost predicate ExactNegation(p: Platform, x: real)
  {
    && p.ieee(Mul, Finite(x), Finite(-1.0)) == Finite(-x)
    && p.ieee(Mul, Finite(-x), Finite(-1.0)) == Finite(x)
    && p.parseFloat(p.toString(Finite(-x))) == Finite(-x)
  }

  /** +/- twice shows the parsed display in its String form; a display already in that form comes back unchanged. */
  lemma NegateTwice(p: Platform, s: State, x: real)
    requires p.parseFloat(s.display) == Finite(x) && ExactNegation(p, x)
    ensures HandleNegate(p, HandleNegate(p, s)) == s.(display := p.toString(Finite(x)))
    ensures s.display == p.toString(Finite(x)) ==> HandleNegate(p, HandleNegate(p, s)) == s
  {
    assert p.parseFloat(HandleNegate(p, s).display) == Finite(-x);
  }
}
