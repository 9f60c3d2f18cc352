/**
 * The calculator's expression buffer (App.js, the `displayValue` state and
 * `handleTap`): every key press rewrites one string, and `=` hands the
 * formatted buffer to an external evaluator.
 */
module Calculator {
  import opened Wrappers
  import opened Parentheses
  import opened Formatter

  /** The external evaluator: the formatted expression to the string form of
      its value, or `None` when evaluation throws. */
  type Evaluator = string -> Option<string>

  /** The labels on the keypad. */
  const Keypad: set<string> :=
    {"AC", "C", ")", "⌫",
     "sin", "Cos", "tan", "ln",
     "log", "√", "/", "*",
     "1", "2", "3", "-",
     "4", "5", "6", "+",
     "7", "8", "9", ".",
     "0", "="}

  /** The labels that the key handler appends as `name(`. */
  const FunctionNames: set<string> := {"sin", "cos", "tan", "ln", "log"}

  /** The labels the key handler treats specially; every other label is
      appended as it is. */
  const SpecialLabels: set<string> := {"AC", "C", "=", "⌫", "√", ")"} + FunctionNames

  /** The buffer without its last character; the empty buffer stays empty. */
  function DropLast(s: string): (r: string)
    ensures s == [] ==> r == []
    ensures s != [] ==> r + [s[|s| - 1]] == s
  {
    if s == [] then [] else s[..|s| - 1]
  }

  /** The buffer after `=`: the evaluator's result on the formatted buffer,
      or the literal `Error` when it fails. */
  function Evaluate(s: string, evaluate: Evaluator): (r: string)
    ensures evaluate(FormatExpression(s)).Some? ==> r == evaluate(FormatExpression(s)).value
    ensures evaluate(FormatExpression(s)).None? ==> r == "Error"
  {
    match evaluate(FormatExpression(s))
    case Some(v) => v
    case None => "Error"
  }

  /** The keys whose effect is to append text to the buffer. */
  predicate Appends(key: string)
  {
    key !in {"AC", "C", "⌫", "=", ")"}
  }

  /** The buffer after the key labelled `key` is pressed on buffer `b`. Apart
      from `AC` and `=`, no key changes anything but the end of the buffer:
      all but its last character survive, and an appending key keeps all of
      it. */
  function Step(b: string, key: string, evaluate: Evaluator): (r: string)
    ensures key != "AC" && key != "=" ==> DropLast(b) <= r
    ensures Appends(key) ==> b <= r
  {
    if key == "AC" then ""
    else if key == "C" then DropLast(b)
    else if key == "=" then Evaluate(b, evaluate)
    else if key == "⌫" then DropLast(b)
    else if key == "√" then b + "sqrt("
    else if key == "sin" then b + "sin("
    else if key == "cos" then b + "cos("
    else if key == "tan" then b + "tan("
    else if key == "ln" then b + "ln("
    else if key == "log" then b + "log("
    else if key == ")" then
      (if CountOpen(b) > CountClose(b) then b + ")" else b)
    else b + key
  }

  /** The buffer after a sequence of key presses. A sequence of appending
      keys only ever extends the buffer. */
  function Run(b: string, keys: seq<string>, evaluate: Evaluator): (r: string)
    ensures (forall i :: 0 <= i < |keys| ==> Appends(keys[i])) ==> b <= r
    decreases |keys|
  {
    if keys == [] then b
    else Run(Step(b, keys[0], evaluate), keys[1..], evaluate)
  }

  /** The calculator screen: one buffer, rewritten by each key press. */
  class App {
    var displayValue: string

    /** The buffer starts empty. */
    constructor ()
      ensures displayValue == ""
    {
      displayValue := "";
    }

    /** Handles one key press. */
    method HandleTap(value: string, evaluate: Evaluator)
      modifies this
      ensures displayValue == Step(old(displayValue), value, evaluate)
      ensures value != "=" && PrefixBalanced(old(displayValue))
              && (value == ")" || PrefixBalanced(value))
              ==> PrefixBalanced(displayValue)
    {
      ghost var before := displayValue;
      if value == "AC" {
        displayValue := "";
      } else if value == "C" {
        if |displayValue| > 0 {
          displayValue := displayValue[..|displayValue| - 1];
        }
      } else if value == "=" {
        match evaluate(FormatExpression(displayValue)) {
          case Some(v) => displayValue := v;
          case None => displayValue := "Error";
        }
      } else if value == "⌫" {
        if |displayValue| > 0 {
          displayValue := displayValue[..|displayValue| - 1];
        }
      } else if value == "√" {
        displayValue := displayValue + "sqrt(";
      } else if value == "sin" {
        displayValue := displayValue + "sin(";
      } else if value == "cos" {
        displayValue := displayValue + "cos(";
      } else if value == "tan" {
        displayValue := displayValue + "tan(";
      } else if value == "ln" {
        displayValue := displayValue + "ln(";
      } else if value == "log" {
        displayValue := displayValue + "log(";
      } else if value == ")" {
        if CountOpen(displayValue) > CountClose(displayValue) {
          displayValue := displayValue + ")";
        }
      } else {
        displayValue := displayValue + value;
      }
      if value != "=" && PrefixBalanced(before) && (value == ")" || PrefixBalanced(value)) {
        StepKeepsPrefixBalanced(before, value, evaluate);
      }
    }
  }

  // ---------------------------------------------------------------------
  // One key press

  /** `AC` empties the buffer, whatever it held. */
  lemma StepAllClear(b: string, evaluate: Evaluator)
    ensures Step(b, "AC", evaluate) == ""
  {
  }

  /** `C` and `⌫` both remove exactly the last character; on the empty buffer
      they do nothing. */
  lemma StepClearLast(b: string, key: string, evaluate: Evaluator)
    requires key == "C" || key == "⌫"
    ensures Step(b, "C", evaluate) == Step(b, "⌫", evaluate)
    ensures b == [] ==> Step(b, key, evaluate) == []
    ensures b != [] ==> Step(b, key, evaluate) + [b[|b| - 1]] == b
  {
  }

  /** `)` is appended exactly when the buffer has more `(` than `)`, and
      otherwise the buffer is unchanged. */
  lemma StepCloseParen(b: string, evaluate: Evaluator)
    ensures Step(b, ")", evaluate) == b + ")" <==> CountOpen(b) > CountClose(b)
    ensures CountOpen(b) <= CountClose(b) ==> Step(b, ")", evaluate) == b
  {
    if CountOpen(b) <= CountClose(b) {
      assert |b + ")"| != |b|;
    }
  }

  /** A function key appends its name and an opening parenthesis. */
  lemma StepFunctionKey(b: string, name: string, evaluate: Evaluator)
    requires name in FunctionNames
    ensures Step(b, name, evaluate) == b + name + "("
  {
    assert name == "sin" || name == "cos" || name == "tan" || name == "ln" || name == "log";
  }

  /** The radical key appends `sqrt(`, never `√(`. */
  lemma StepRadicalKey(b: string, evaluate: Evaluator)
    ensures Step(b, "√", evaluate) == b + "sqrt("
  {
  }

  /** Any label outside the special ones is appended verbatim; among them is
      the keypad's `Cos` label, which differs in case from `cos`. */
  lemma StepVerbatim(b: string, key: string, evaluate: Evaluator)
    requires key !in SpecialLabels
    ensures Step(b, key, evaluate) == b + key
  {
  }

  /** The keypad's `Cos` key appends the three letters `Cos`, with no
      parenthesis. */
  lemma StepCosKey(b: string, evaluate: Evaluator)
    ensures Step(b, "Cos", evaluate) == b + "Cos"
  {
    StepVerbatim(b, "Cos", evaluate);
  }

  /** Every appending key keeps the old buffer as a prefix, and a non-empty
      label makes the buffer strictly longer. */
  lemma StepAppendExtends(b: string, key: string, evaluate: Evaluator)
    requires Appends(key)
    ensures b <= Step(b, key, evaluate)
    ensures key != "" ==> |Step(b, key, evaluate)| > |b|
  {
  }

  /** `=` leaves either the evaluator's result or exactly `Error`, and
      nothing else. */
  lemma StepEvaluate(b: string, evaluate: Evaluator)
    ensures var outcome := evaluate(FormatExpression(b));
            var r := Step(b, "=", evaluate);
            (outcome.Some? && r == outcome.value) || (outcome.None? && r == "Error")
  {
  }

  /** A key other than `=` keeps the buffer never over-closed, provided the
      label itself is never over-closed or is the guarded `)`. */
  lemma StepKeepsPrefixBalanced(b: string, key: string, evaluate: Evaluator)
    requires PrefixBalanced(b)
    requires key != "="
    requires key == ")" || PrefixBalanced(key)
    ensures PrefixBalanced(Step(b, key, evaluate))
  {
    if key == "AC" {
      StepAllClear(b, evaluate);
    } else if key == "C" || key == "⌫" {
      ClearLastKeepsBalanced(b, key, evaluate);
    } else if key == ")" {
      CloseParenKeepsBalanced(b, evaluate);
    } else if key == "√" {
      RadicalKeepsBalanced(b, evaluate);
    } else if key in FunctionNames {
      FunctionKeyKeepsBalanced(b, key, evaluate);
    } else {
      StepVerbatim(b, key, evaluate);
      PrefixBalancedAppend(b, key);
    }
  }

  /** `C` and `⌫` keep the buffer never over-closed. */
  lemma ClearLastKeepsBalanced(b: string, key: string, evaluate: Evaluator)
    requires PrefixBalanced(b)
    requires key == "C" || key == "⌫"
    ensures PrefixBalanced(Step(b, key, evaluate))
  {
    StepClearLast(b, key, evaluate);
    if b != [] {
      PrefixBalancedDropLast(b);
    }
  }

  /** The guarded `)` keeps the buffer never over-closed. */
  lemma CloseParenKeepsBalanced(b: string, evaluate: Evaluator)
    requires PrefixBalanced(b)
    ensures PrefixBalanced(Step(b, ")", evaluate))
  {
    StepCloseParen(b, evaluate);
    if CountOpen(b) > CountClose(b) {
      PrefixBalancedClose(b);
    }
  }

  /** The radical key keeps the buffer never over-closed. */
  lemma RadicalKeepsBalanced(b: string, evaluate: Evaluator)
    requires PrefixBalanced(b)
    ensures PrefixBalanced(Step(b, "√", evaluate))
  {
    StepRadicalKey(b, evaluate);
    var tail := "sqrt(";
    assert ')' !in tail;
    AppendNoClose(b, tail);
  }

  /** A function key keeps the buffer never over-closed. */
  lemma FunctionKeyKeepsBalanced(b: string, key: string, evaluate: Evaluator)
    requires PrefixBalanced(b)
    requires key in FunctionNames
    ensures PrefixBalanced(Step(b, key, evaluate))
  {
    StepFunctionKey(b, key, evaluate);
    var tail := key + "(";
    assert key == "sin" || key == "cos" || key == "tan" || key == "ln" || key == "log";
    assert ')' !in tail;
    assert b + key + "(" == b + tail;
    AppendNoClose(b, tail);
  }

  // ---------------------------------------------------------------------
  // The keypad

  /** Keypad keys other than `=` keep the buffer never over-closed. */
  lemma KeypadKeepsPrefixBalanced(b: string, key: string, evaluate: Evaluator)
    requires PrefixBalanced(b)
    requires key in Keypad && key != "="
    ensures PrefixBalanced(Step(b, key, evaluate))
  {
    if key != ")" {
      assert ')' !in key;
      NoCloseBalanced(key);
    }
    StepKeepsPrefixBalanced(b, key, evaluate);
  }

  /** No keypad key other than `=` puts a radical sign or `^` into the
      buffer, so the two rewrites of the formatter never fire on typed
      input. */
  lemma KeypadTypesNoRewritable(b: string, key: string, evaluate: Evaluator)
    requires '√' !in b && '^' !in b
    requires key in Keypad && key != "="
    ensures var r := Step(b, key, evaluate);
            '√' !in r && '^' !in r
  {
    var r := Step(b, key, evaluate);
    if key == "AC" {
    } else if key == "C" || key == "⌫" {
      StepClearLast(b, key, evaluate);
      assert forall i :: 0 <= i < |r| ==> r[i] == b[i];
    } else if key == ")" {
      StepCloseParen(b, evaluate);
    } else if key == "√" {
      StepRadicalKey(b, evaluate);
    } else if key in FunctionNames {
      StepFunctionKey(b, key, evaluate);
      assert '√' !in key && '^' !in key;
    } else {
      StepVerbatim(b, key, evaluate);
      assert '√' !in key && '^' !in key;
    }
  }

  /** From a buffer that is never over-closed and holds neither a radical
      sign nor `^`, any run of keypad keys without `=` leaves a buffer with
      the same three properties. */
  lemma {:induction false} KeypadRun(b: string, keys: seq<string>, evaluate: Evaluator)
    requires PrefixBalanced(b) && '√' !in b && '^' !in b
    requires forall i :: 0 <= i < |keys| ==> keys[i] in Keypad && keys[i] != "="
    ensures var r := Run(b, keys, evaluate);
            PrefixBalanced(r) && '√' !in r && '^' !in r
    decreases |keys|
  {
    if keys != [] {
      KeypadKeepsPrefixBalanced(b, keys[0], evaluate);
      KeypadTypesNoRewritable(b, keys[0], evaluate);
      KeypadRun(Step(b, keys[0], evaluate), keys[1..], evaluate);
    }
  }

  /** On a buffer that is never over-closed and holds neither a radical sign
      nor `^`, formatting only appends the missing `)`, and its output is
      balanced. */
  lemma FormatTyped(b: string)
    requires PrefixBalanced(b) && '√' !in b && '^' !in b
    ensures var f := FormatExpression(b);
            CountClose(b) <= CountOpen(b)
            && f == b + Closers(CountOpen(b) - CountClose(b))
            && CountOpen(f) == CountClose(f)
  {
    NoRadicalParenWithoutRadical(b);
    RewrittenIdentity(b);
    FormatShape(b);
    FormatCounts(b);
  }

  /** What `=` hands to the evaluator after the keypad keys `keys`, none of
      them `=`, are typed on an empty buffer, giving `b`: the buffer itself followed by exactly
      the missing `)`, and the result is balanced. */
  lemma KeypadFormat(keys: seq<string>, evaluate: Evaluator, b: string)
    requires forall i :: 0 <= i < |keys| ==> keys[i] in Keypad && keys[i] != "="
    requires b == Run("", keys, evaluate)
    ensures CountClose(b) <= CountOpen(b)
    ensures FormatExpression(b) == b + Closers(CountOpen(b) - CountClose(b))
    ensures CountOpen(FormatExpression(b)) == CountClose(FormatExpression(b))
  {
    KeypadRun("", keys, evaluate);
    FormatTyped(b);
  }

  // ---------------------------------------------------------------------
  // A worked example

  /** Pressing `sin` and then `0` on an empty buffer gives `sin(0`. */
  lemma SinZeroTyped(evaluate: Evaluator)
    ensures Run("", ["sin", "0"], evaluate) == "sin(0"
  {
  }

  /** `sin(0` holds one `(` and no `)`. */
  lemma SinZeroCounts(b: string)
    requires b == "sin(0"
    ensures Count('(', b) == 1 && Count(')', b) == 0
  {
    assert b == "sin" + ['('] + "0";
    CountAppend('(', "sin" + ['('], "0");
    CountAppend('(', "sin", ['(']);
    CountAppend(')', "sin" + ['('], "0");
    CountAppend(')', "sin", ['(']);
    CountSingle('(', '(');
    CountSingle(')', '(');
    assert '(' !in "sin" && ')' !in "sin" && '(' !in "0" && ')' !in "0";
  }

  /** `sin(0` is never over-closed and holds neither a radical sign nor `^`. */
  lemma SinZeroClean(b: string)
    requires b == "sin(0"
    ensures PrefixBalanced(b) && '√' !in b && '^' !in b
  {
    assert ')' !in b;
    NoCloseBalanced(b);
  }

  /** The formatter closes `sin(0` to `sin(0)`. */
  lemma SinZeroFormatted(b: string)
    requires b == "sin(0"
    ensures FormatExpression(b) == "sin(0)"
  {
    SinZeroClean(b);
    SinZeroCounts(b);
    FormatTyped(b);
    assert Closers(1) == ")";
  }
}
