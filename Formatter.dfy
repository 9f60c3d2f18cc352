/**
 * The rewriting pass run on the buffer before evaluation (App.js,
 * formatExpression): the radical `√(` becomes `sqrt(`, the power sign `^`
 * becomes `**`, and missing closing parentheses are appended.
 */
module Formatter {
  import opened Parentheses

  /** `s` contains the radical sign immediately followed by `(`. */
  predicate HasRadicalParen(s: string)
  {
    exists i :: 0 <= i < |s| - 1 && s[i] == '√' && s[i + 1] == '('
  }

  /** Global replacement of `√(` by `sqrt(`, scanning left to right (the
      pattern cannot overlap itself, so this is what a global regular
      expression replace does). */
  function ReplaceRadical(s: string): (r: string)
    ensures |r| >= |s|
    ensures s != [] ==> r != [] && (r[0] == '(' <==> s[0] == '(')
  {
    if |s| >= 2 && s[0] == '√' && s[1] == '(' then "sqrt(" + ReplaceRadical(s[2..])
    else if s == [] then []
    else [s[0]] + ReplaceRadical(s[1..])
  }

  /** Global replacement of `^` by `**`. */
  function ReplacePower(s: string): (r: string)
    ensures |r| == |s| + Count('^', s)
    ensures s != [] ==> r != [] && (r[0] == '(' <==> s[0] == '(')
  {
    if s == [] then []
    else (if s[0] == '^' then "**" else [s[0]]) + ReplacePower(s[1..])
  }

  /** The two textual rewrites, in the order the source applies them. The
      result holds neither `^` nor `√(`, and the counts of `(` and `)` taken
      on it are those of the buffer. */
  function Rewritten(s: string): (r: string)
    ensures CountOpen(r) == CountOpen(s) && CountClose(r) == CountClose(s)
    ensures '^' !in r && !HasRadicalParen(r)
  {
    ReplaceRadicalCounts(s);
    ReplacePowerCounts(ReplaceRadical(s));
    ReplaceRadicalRemovesPattern(s);
    ReplacePowerKeepsNoRadical(ReplaceRadical(s));
    ReplacePowerRemovesCaret(ReplaceRadical(s));
    ReplacePower(ReplaceRadical(s))
  }

  /** `n` closing parentheses. */
  function Closers(n: nat): (r: string)
    ensures |r| == n
    ensures forall i :: 0 <= i < n ==> r[i] == ')'
  {
    if n == 0 then [] else ")" + Closers(n - 1)
  }

  /** The string handed to the evaluator: the rewritten buffer, followed by
      as many `)` as it has unmatched `(`. It extends the rewritten buffer
      with closing parentheses only. */
  function FormatExpression(s: string): (r: string)
    ensures Rewritten(s) <= r
    ensures forall i :: |Rewritten(s)| <= i < |r| ==> r[i] == ')'
  {
    var formatted := Rewritten(s);
    var openCount := CountOpen(formatted);
    var closeCount := CountClose(formatted);
    if openCount > closeCount then formatted + Closers(openCount - closeCount)
    else formatted
  }

  // ---------------------------------------------------------------------
  // Occurrences of the radical pattern

  /** A concatenation has no `√(` when neither part has one and none
      straddles the seam. */
  lemma NoRadicalParenConcat(a: string, b: string)
    requires !HasRadicalParen(a) && !HasRadicalParen(b)
    requires a == [] || b == [] || a[|a| - 1] != '√' || b[0] != '('
    ensures !HasRadicalParen(a + b)
  {
    forall i | 0 <= i < |a + b| - 1
      ensures !((a + b)[i] == '√' && (a + b)[i + 1] == '(')
    {
      if i + 1 < |a| {
        assert (a + b)[i] == a[i] && (a + b)[i + 1] == a[i + 1];
      } else if i >= |a| {
        assert (a + b)[i] == b[i - |a|] && (a + b)[i + 1] == b[i - |a| + 1];
      }
    }
  }

  /** A string without the radical sign has no `√(`. */
  lemma NoRadicalParenWithoutRadical(s: string)
    requires '√' !in s
    ensures !HasRadicalParen(s)
  {
  }

  /** An occurrence in a suffix is an occurrence in the whole string. */
  lemma RadicalParenSuffix(s: string, j: nat)
    requires j <= |s|
    ensures HasRadicalParen(s[j..]) ==> HasRadicalParen(s)
  {
    if HasRadicalParen(s[j..]) {
      var i :| 0 <= i < |s[j..]| - 1 && s[j..][i] == '√' && s[j..][i + 1] == '(';
      assert s[i + j] == '√' && s[i + j + 1] == '(';
    }
  }

  // ---------------------------------------------------------------------
  // ReplaceRadical

  /** After the radical rewrite no `√(` is left. */
  lemma {:induction false} ReplaceRadicalRemovesPattern(s: string)
    ensures !HasRadicalParen(ReplaceRadical(s))
  {
    if |s| >= 2 && s[0] == '√' && s[1] == '(' {
      ReplaceRadicalRemovesPattern(s[2..]);
      NoRadicalParenWithoutRadical("sqrt(");
      NoRadicalParenConcat("sqrt(", ReplaceRadical(s[2..]));
    } else if s != [] {
      ReplaceRadicalRemovesPattern(s[1..]);
      NoRadicalParenConcat([s[0]], ReplaceRadical(s[1..]));
    }
  }

  /** A string without `√(` is left unchanged by the radical rewrite. */
  lemma {:induction false} ReplaceRadicalIdentity(s: string)
    requires !HasRadicalParen(s)
    ensures ReplaceRadical(s) == s
  {
    if s != [] {
      RadicalParenSuffix(s, 1);
      if |s| >= 2 {
        assert !(s[0] == '√' && s[1] == '(');
      }
      ReplaceRadicalIdentity(s[1..]);
      assert s == [s[0]] + s[1..];
    }
  }

  /** `√(` and `sqrt(` hold the same parentheses. */
  lemma RadicalTokenCount(c: char)
    requires c == '(' || c == ')'
    ensures Count(c, "√(") == Count(c, "sqrt(")
  {
    assert "√(" == "√" + "(" && "sqrt(" == "sqrt" + "(";
    CountAppend(c, "√", "(");
    CountAppend(c, "sqrt", "(");
    assert c !in "√" && c !in "sqrt";
  }

  /** Helper for `ReplaceRadicalCounts`: the radical rewrite keeps the number
      of each parenthesis. */
  lemma {:induction false} ReplaceRadicalCount(c: char, s: string)
    requires c == '(' || c == ')'
    ensures Count(c, ReplaceRadical(s)) == Count(c, s)
  {
    if |s| >= 2 && s[0] == '√' && s[1] == '(' {
      var rest := s[2..];
      ReplaceRadicalCount(c, rest);
      assert s == "√(" + rest;
      CountAppend(c, "√(", rest);
      CountAppend(c, "sqrt(", ReplaceRadical(rest));
      RadicalTokenCount(c);
    } else if s != [] {
      ReplaceRadicalCount(c, s[1..]);
    }
  }

  /** The radical rewrite keeps the number of `(` and of `)`. */
  lemma ReplaceRadicalCounts(s: string)
    ensures CountOpen(ReplaceRadical(s)) == CountOpen(s)
    ensures CountClose(ReplaceRadical(s)) == CountClose(s)
  {
    ReplaceRadicalCount('(', s);
    ReplaceRadicalCount(')', s);
  }

  // ---------------------------------------------------------------------
  // ReplacePower

  /** After the power rewrite no `^` is left. */
  lemma {:induction false} ReplacePowerRemovesCaret(s: string)
    ensures '^' !in ReplacePower(s)
  {
    if s != [] {
      ReplacePowerRemovesCaret(s[1..]);
    }
  }

  /** A string without `^` is left unchanged by the power rewrite. */
  lemma {:induction false} ReplacePowerIdentity(s: string)
    requires '^' !in s
    ensures ReplacePower(s) == s
  {
    if s != [] {
      assert s[0] != '^';
      assert '^' !in s[1..];
      ReplacePowerIdentity(s[1..]);
      assert s == [s[0]] + s[1..];
    }
  }

  /** Helper for `ReplacePowerCounts`: the power rewrite keeps the number of
      each parenthesis. */
  lemma {:induction false} ReplacePowerCount(c: char, s: string)
    requires c == '(' || c == ')'
    ensures Count(c, ReplacePower(s)) == Count(c, s)
  {
    if s != [] {
      var head := if s[0] == '^' then "**" else [s[0]];
      ReplacePowerCount(c, s[1..]);
      CountAppend(c, head, ReplacePower(s[1..]));
      assert Count(c, head) == Count(c, [s[0]]) by {
        assert "**"[1..] == "*";
      }
    }
  }

  /** The power rewrite keeps the number of `(` and of `)`. */
  lemma ReplacePowerCounts(s: string)
    ensures CountOpen(ReplacePower(s)) == CountOpen(s)
    ensures CountClose(ReplacePower(s)) == CountClose(s)
  {
    ReplacePowerCount('(', s);
    ReplacePowerCount(')', s);
  }

  /** The power rewrite introduces no `√(`. */
  lemma {:induction false} ReplacePowerKeepsNoRadical(s: string)
    requires !HasRadicalParen(s)
    ensures !HasRadicalParen(ReplacePower(s))
  {
    if s != [] {
      var head := if s[0] == '^' then "**" else [s[0]];
      RadicalParenSuffix(s, 1);
      ReplacePowerKeepsNoRadical(s[1..]);
      if s[0] == '^' {
        NoRadicalParenWithoutRadical(head);
      }
      if |s| >= 2 {
        assert !(s[0] == '√' && s[1] == '(');
      }
      NoRadicalParenConcat(head, ReplacePower(s[1..]));
    }
  }

  // ---------------------------------------------------------------------
  // FormatExpression

  /** A string with neither `^` nor `√(` is its own rewrite. */
  lemma RewrittenIdentity(s: string)
    requires '^' !in s && !HasRadicalParen(s)
    ensures Rewritten(s) == s
  {
    ReplaceRadicalIdentity(s);
    ReplacePowerIdentity(s);
  }

  /** The formatted string is the rewritten buffer followed by exactly
      `open - close` closing parentheses when the buffer has more `(` than
      `)`, and by nothing otherwise. */
  lemma FormatShape(s: string)
    ensures var f := FormatExpression(s);
            var pad := if CountOpen(s) > CountClose(s) then CountOpen(s) - CountClose(s) else 0;
            f == Rewritten(s) + Closers(pad)
  {
  }

  /** The formatted string has as many `(` as the buffer and as many `)` as
      the larger of the two counts; so it is balanced exactly when the buffer
      was not over-closed. */
  lemma FormatCounts(s: string)
    ensures CountOpen(FormatExpression(s)) == CountOpen(s)
    ensures CountClose(FormatExpression(s))
            == if CountOpen(s) > CountClose(s) then CountOpen(s) else CountClose(s)
    ensures CountOpen(FormatExpression(s)) == CountClose(FormatExpression(s))
            <==> CountClose(s) <= CountOpen(s)
  {
    var f := Rewritten(s);
    var pad := if CountOpen(s) > CountClose(s) then CountOpen(s) - CountClose(s) else 0;
    FormatShape(s);
    ClosersCounts(pad);
    CountAppend('(', f, Closers(pad));
    CountAppend(')', f, Closers(pad));
  }

  /** `Closers(n)` holds `n` closing and no opening parentheses. */
  lemma {:induction false} ClosersCounts(n: nat)
    ensures CountOpen(Closers(n)) == 0
    ensures CountClose(Closers(n)) == n
  {
    if n > 0 {
      ClosersCounts(n - 1);
      CountAppend('(', ")", Closers(n - 1));
      CountAppend(')', ")", Closers(n - 1));
    }
  }

  /** The formatted string contains neither `^` nor `√(`. */
  lemma FormatClean(s: string)
    ensures '^' !in FormatExpression(s)
    ensures !HasRadicalParen(FormatExpression(s))
  {
    var f := Rewritten(s);
    if CountOpen(f) > CountClose(f) {
      var c := Closers(CountOpen(f) - CountClose(f));
      assert '^' !in c && '√' !in c;
      NoRadicalParenWithoutRadical(c);
      NoRadicalParenConcat(f, c);
    }
  }

  /** Formatting twice is formatting once. */
  lemma FormatIdempotent(s: string)
    ensures FormatExpression(FormatExpression(s)) == FormatExpression(s)
  {
    var f := FormatExpression(s);
    FormatClean(s);
    RewrittenIdentity(f);
    FormatCounts(s);
  }
}
