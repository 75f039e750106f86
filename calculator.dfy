/**
 * The Calculator component as an object: its eight useState fields and the
 * handlers that set them. Each handler performs one transition of the engine,
 * and a handler that completes a calculation returns the entry it passes to
 * onCalculate.
 */
module CalculatorComponent {
  import opened Types
  import opened Numbers
  import opened DisplayFormat
  import Engine
  import EngineLaws

  class Calculator {
    var display: string
    var prevValue: Option<Num>
    var operation: Option<Op>
    var shouldResetDisplay: bool
    var lastOperand: Option<Num>
    var lastOperation: Option<Op>
    var currentExpression: string
    var finishedExpression: string
    /** The number behaviour of the JavaScript engine the component runs on. */
    const platform: Platform

    /** The fields as an engine state. */
    function Snapshot(): Engine.State
      reads this
    {
      Engine.State(display, prevValue, operation, shouldResetDisplay,
                   lastOperand, lastOperation, currentExpression, finishedExpression)
    }

    ghost predicate Valid()
      reads this
    {
      Engine.Inv(Snapshot())
    }

    constructor(p: Platform)
      ensures Valid() && platform == p
      ensures Snapshot() == Engine.Initial()
    {
      display := "0";
      prevValue := None;
      operation := None;
      shouldResetDisplay := false;
      lastOperand := None;
      lastOperation := None;
      currentExpression := "";
      finishedExpression := "";
      platform := p;
    }

    method HandleNumber(key: char)
      requires Valid()
      modifies this
      ensures Valid()
      ensures Snapshot() == Engine.HandleNumber(old(Snapshot()), key)
    {
      EngineLaws.InvHandleNumber(Snapshot(), key);
      if |display| >= MaxChars && !shouldResetDisplay {
        return;
      }
      if display == "0" || shouldResetDisplay {
        display := if key == '.' then "0." else [key];
        shouldResetDisplay := false;
        if finishedExpression != "" {
          finishedExpression := "";
          currentExpression := "";
          prevValue := None;
          operation := None;
        }
      } else {
        if key == '.' && '.' in display {
          return;
        }
        display := display + [key];
      }
    }

    method HandleBackspace()
      requires Valid()
      modifies this
      ensures Valid()
      ensures Snapshot() == Engine.HandleBackspace(old(Snapshot()))
    {
      EngineLaws.InvHandleBackspace(Snapshot());
      if shouldResetDisplay {
        return;
      }
      if |display| == 1 || (|display| == 2 && display[0] == '-') {
        display := "0";
      } else {
        display := if display == "" then "" else display[..|display| - 1];
      }
    }

    method HandleOperation(op: Op)
      requires Valid()
      modifies this
      ensures Valid()
      ensures Snapshot() == Engine.HandleOperation(platform, old(Snapshot()), op)
    {
      EngineLaws.InvHandleOperation(platform, Snapshot(), op);
      var currentNum := platform.parseFloat(display);
      if finishedExpression != "" {
        finishedExpression := "";
        currentExpression := display + OpToken(op);
        prevValue := Some(currentNum);
        operation := Some(op);
        shouldResetDisplay := true;
        lastOperand := None;
        lastOperation := None;
        return;
      }
      if prevValue == None {
        prevValue := Some(currentNum);
        currentExpression := platform.toString(currentNum) + OpToken(op);
      } else if operation.Some? && !shouldResetDisplay {
        var result := ComputeResult(platform, prevValue.value, currentNum, operation);
        prevValue := Some(result);
        display := platform.toString(result);
        currentExpression := currentExpression + platform.toString(currentNum) + OpToken(op);
      } else if operation.Some? && shouldResetDisplay {
        currentExpression := Engine.DropLast3(currentExpression) + OpToken(op);
      }
      operation := Some(op);
      shouldResetDisplay := true;
      lastOperand := None;
      lastOperation := None;
    }

    method HandleEqual() returns (reported: Option<Calculation>)
      requires Valid()
      modifies this
      ensures Valid()
      ensures Engine.Outcome(Snapshot(), reported) == Engine.HandleEqual(platform, old(Snapshot()))
    {
      EngineLaws.InvHandleEqual(platform, Snapshot());
      var currentNum := platform.parseFloat(display);
      if operation.None? && lastOperation.Some? && lastOperand.Some? {
        var result := ComputeResult(platform, currentNum, lastOperand.value, lastOperation);
        var expression := platform.toString(currentNum) + OpToken(lastOperation.value) + platform.toString(lastOperand.value);
        finishedExpression := expression + " =";
        display := platform.toString(result);
        reported := Some(Calculation(expression, platform.toString(result)));
        shouldResetDisplay := true;
        return;
      }
      if prevValue.None? || operation.None? {
        return None;
      }
      var result := ComputeResult(platform, prevValue.value, currentNum, operation);
      var resultStr := platform.toString(result);
      if '.' in resultStr {
        var rounded := platform.parseFloat(platform.toFixed(result, 10));
        resultStr := platform.toString(rounded);
      }
      finishedExpression := currentExpression + platform.toString(currentNum) + " =";
      reported := Some(Calculation(currentExpression + platform.toString(currentNum), resultStr));
      display := resultStr;
      lastOperand := Some(currentNum);
      lastOperation := operation;
      prevValue := None;
      operation := None;
      shouldResetDisplay := true;
      currentExpression := "";
    }

    method Clear()
      modifies this
      ensures Valid()
      ensures Snapshot() == Engine.Clear()
    {
      display := "0";
      prevValue := None;
      operation := None;
      lastOperand := None;
      lastOperation := None;
      shouldResetDisplay := false;
      currentExpression := "";
      finishedExpression := "";
    }

    /** The switch of handleScientific: the value and history label of a known key. */
    method ScientificKey(kind: string, val: Num) returns (known: bool, result: Num, tag: string)
      ensures known == Engine.IsScientific(kind)
      ensures known ==> result == Engine.ScientificValue(platform, kind, val)
      ensures known ==> tag == Engine.ScientificLabel(platform, kind, val)
    {
      var shown := platform.toString(val);
      known := true;
      if kind == "sqrt" {
        result, tag := platform.sqrt(val), "\U{221A}(" + shown + ")";
      } else if kind == "sqr" {
        result, tag := platform.ieee(Mul, val, val), "(" + shown + ")\U{00B2}";
      } else if kind == "sin" {
        result, tag := platform.sin(val), "sin(" + shown + ")";
      } else if kind == "cos" {
        result, tag := platform.cos(val), "cos(" + shown + ")";
      } else if kind == "tan" {
        result, tag := platform.tan(val), "tan(" + shown + ")";
      } else if kind == "log" {
        result, tag := platform.log10(val), "log(" + shown + ")";
      } else if kind == "ln" {
        result, tag := platform.ln(val), "ln(" + shown + ")";
      } else if kind == "pi" {
        result, tag := platform.pi, "\U{03C0}";
      } else if kind == "e" {
        result, tag := platform.e, "e";
      } else {
        known, result, tag := false, Zero, "";
      }
    }

    method HandleScientific(kind: string) returns (reported: Option<Calculation>)
      requires Valid()
      modifies this
      ensures Valid()
      ensures Engine.Outcome(Snapshot(), reported) == Engine.HandleScientific(platform, old(Snapshot()), kind)
    {
      EngineLaws.InvHandleScientific(platform, Snapshot(), kind);
      var val := platform.parseFloat(display);
      var known, result, tag := ScientificKey(kind, val);
      if !known {
        return None;
      }
      var resultStr := platform.toString(platform.number(platform.toFixed(result, 8)));
      finishedExpression := tag + " =";
      display := resultStr;
      reported := Some(Calculation(tag, resultStr));
      shouldResetDisplay := true;
      prevValue := None;
      operation := None;
      currentExpression := "";
    }

    method HandleNegate()
      requires Valid()
      modifies this
      ensures Valid()
      ensures Snapshot() == Engine.HandleNegate(platform, old(Snapshot()))
    {
      display := platform.toString(platform.ieee(Mul, platform.parseFloat(display), Finite(-1.0)));
    }

    method Percent()
      requires Valid()
      modifies this
      ensures Valid()
      ensures Snapshot() == Engine.Percent(platform, old(Snapshot()))
    {
      display := platform.toString(platform.ieee(Div, platform.parseFloat(display), Finite(100.0)));
    }

    /** The selectedCalculation effect, run when a history entry is passed in. */
    method LoadSelected(c: Calculation)
      modifies this
      ensures Valid()
      ensures Snapshot() == Engine.LoadSelected(old(Snapshot()), c)
    {
      EngineLaws.InvLoadSelected(Snapshot(), c);
      display := c.result;
      finishedExpression := c.expression + " =";
      currentExpression := "";
      prevValue := None;
      operation := None;
      lastOperation := None;
      lastOperand := None;
      shouldResetDisplay := true;
    }
  }
}
