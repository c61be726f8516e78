/** Worked inputs for convert_equation, each pinned to its exact output. */
module Examples {
  import opened Chars
  import opened CaretStep
  import opened ImplicitMultiplication
  import opened WordBoundarySub
  import opened Equation

  /** The composition read off its steps. */
  lemma ConvertBySteps(s: string, s1: string, s2: string, t: string)
    requires ReplaceCaret(s) == s1 && InsertMul(s1) == s2 && PrefixCalls(s2, FunctionNames) == t
    ensures ConvertEquation(s) == t
  {
    ExpRuleIsDead(s);
  }

  /** One call of `name`, after a non-word character, with no other occurrence of its
      first letter. */
  lemma PrefixCallOnce(a: string, name: string, b: string)
    requires IsName(name) && name[0] !in a && name[0] !in b
    requires a == [] || !IsWordChar(a[|a| - 1])
    ensures PrefixCall(a + name + "(" + b, name) == a + "np." + name + "(" + b
  {
    assert (name + "(")[0] == name[0];
    SubSingleMatch(a, name + "(", "np." + name + "(", b);
    assert a + name + "(" + b == a + (name + "(") + b;
    assert a + "np." + name + "(" + b == a + ("np." + name + "(") + b;
  }

  /** When the caret step leaves no digit before a letter and none of the letters s, c, t, l,
      no later rule changes anything. */
  lemma ConvertAfterCaret(s: string, s1: string)
    requires ReplaceCaret(s) == s1 && NoDigitLetter(s1)
    requires 's' !in s1 && 'c' !in s1 && 't' !in s1 && 'l' !in s1
    ensures ConvertEquation(s) == s1
  {
    InsertMulIdentity(s1);
    NoFunctionUnchanged(s1);
    ConvertBySteps(s, s1, s1, s1);
  }

  /** The last four function rewrites leave alone a string lacking the letters c, t, l, q. */
  lemma AfterSinUnchanged(t: string)
    requires 'c' !in t && 't' !in t && 'l' !in t && 'q' !in t
    ensures PrefixCalls(t, FunctionNames[1..]) == t
  {
    FunctionNamesAreNames();
    var ns := FunctionNames[1..];
    assert ns[0] == "cos" && ns[1..][0] == "tan" && ns[2..][0] == "log" && ns[3..][0] == "sqrt" && ns[4..] == [];
    assert ns[1..][1..] == ns[2..] && ns[2..][1..] == ns[3..] && ns[3..][1..] == ns[4..];
    PrefixCallMissingLetter(t, "cos", 'c');
    PrefixCallMissingLetter(t, "tan", 't');
    PrefixCallMissingLetter(t, "log", 'l');
    PrefixCallMissingLetter(t, "sqrt", 'q');
    assert PrefixCalls(t, ns[3..]) == t;
    assert PrefixCalls(t, ns[2..]) == t;
  }

  /** Once `sin(` has been rewritten, a result lacking c, t, l, q passes the remaining rules. */
  lemma SinThenRest(s: string, t: string)
    requires PrefixCall(s, "sin") == t && 'c' !in t && 't' !in t && 'l' !in t && 'q' !in t
    ensures PrefixCalls(s, FunctionNames) == t
  {
    assert FunctionNames[0] == "sin";
    AfterSinUnchanged(t);
  }

  /** All five function rewrites leave alone a string lacking the letters s, c, t, l. */
  lemma NoFunctionUnchanged(t: string)
    requires 's' !in t && 'c' !in t && 't' !in t && 'l' !in t
    ensures PrefixCalls(t, FunctionNames) == t
  {
    FunctionNamesAreNames();
    var ns := FunctionNames;
    assert ns[0] == "sin" && ns[1..][0] == "cos" && ns[2..][0] == "tan" && ns[3..][0] == "log" && ns[4..][0] == "sqrt" && ns[5..] == [];
    assert ns[1..][1..] == ns[2..] && ns[2..][1..] == ns[3..] && ns[3..][1..] == ns[4..] && ns[4..][1..] == ns[5..];
    PrefixCallMissingLetter(t, "sin", 's');
    PrefixCallMissingLetter(t, "cos", 'c');
    PrefixCallMissingLetter(t, "tan", 't');
    PrefixCallMissingLetter(t, "log", 'l');
    PrefixCallMissingLetter(t, "sqrt", 's');
    assert PrefixCalls(t, ns[4..]) == t;
    assert PrefixCalls(t, ns[3..]) == t;
    assert PrefixCalls(t, ns[2..]) == t;
    assert PrefixCalls(t, ns[1..]) == t;
  }

  lemma CaretExampleStep()
    ensures ReplaceCaret("x^2") == "x**2"
  {
    CaretBetween("x", "2");
    assert "x" + "^" + "2" == "x^2" && "x" + "**" + "2" == "x**2";
  }

  lemma CaretExample()
    ensures ConvertEquation("x^2") == "x**2"
  {
    CaretExampleStep();
    assert NoDigitLetter("x**2");
    ConvertAfterCaret("x^2", "x**2");
  }

  lemma ImplicitMulExample()
    ensures ConvertEquation("4x") == "4*x"
  {
    NoFunctionUnchanged("4*x");
    ConvertBySteps("4x", "4x", "4*x", "4*x");
  }

  /** The scan resumes after each match, so a letter followed by a digit is left alone. */
  lemma ImplicitMulTwiceExample()
    ensures InsertMul("4x5y") == "4*x5*y"
  {
  }

  /** `asin(x)`, `sinx` and `sin x` hold no qualifying `sin(`. */
  lemma FunctionRuleSkips()
    ensures PrefixCall("asin(x)", "sin") == "asin(x)"
    ensures PrefixCall("sinx", "sin") == "sinx"
    ensures PrefixCall("sin x", "sin") == "sin x"
  {
  }

  /** A `.` is not a word character, so a string already written as `np.sin(` is prefixed once
      more: the rewrite is a single pass, not an idempotent normalisation. */
  lemma PrefixAgainExample()
    ensures PrefixCall("np.sin(x)", "sin") == "np.np.sin(x)"
  {
    FunctionNamesAreNames();
    PrefixCallOnce("np.", "sin", "x)");
    assert "np." + "sin" + "(" + "x)" == "np.sin(x)";
    assert "np." + "np." + "sin" + "(" + "x)" == "np.np.sin(x)";
  }

  lemma ParenthesisedSinCaret()
    ensures ReplaceCaret("(sin(x))") == "(sin(x))"
  {
    CaretIdentity("(sin(x))");
  }

  lemma ParenthesisedSinMul()
    ensures InsertMul("(sin(x))") == "(sin(x))"
  {
    assert NoDigitLetter("(sin(x))");
    InsertMulIdentity("(sin(x))");
  }

  lemma ParenthesisedSinPrefix()
    ensures PrefixCall("(sin(x))", "sin") == "(np.sin(x))"
  {
    FunctionNamesAreNames();
    PrefixCallOnce("(", "sin", "x))");
    assert "(" + "sin" + "(" + "x))" == "(sin(x))";
    assert "(" + "np." + "sin" + "(" + "x))" == "(np.sin(x))";
  }

  lemma ParenthesisedSinCalls()
    ensures PrefixCalls("(sin(x))", FunctionNames) == "(np.sin(x))"
  {
    ParenthesisedSinPrefix();
    SinThenRest("(sin(x))", "(np.sin(x))");
  }

  /** A `sin(` after a parenthesis sits at a word boundary. */
  lemma FunctionRuleExample()
    ensures ConvertEquation("(sin(x))") == "(np.sin(x))"
  {
    ParenthesisedSinCaret();
    ParenthesisedSinMul();
    ParenthesisedSinCalls();
    ConvertBySteps("(sin(x))", "(sin(x))", "(sin(x))", "(np.sin(x))");
  }

  lemma DigitSinCaret()
    ensures ReplaceCaret("2sin(x)") == "2sin(x)"
  {
    CaretIdentity("2sin(x)");
  }

  lemma DigitSinMul()
    ensures InsertMul("2sin(x)") == "2*sin(x)"
  {
    var s := "2sin(x)";
    assert DigitLetterAt(s, 0);
    assert s[2..] == "in(x)";
    assert NoDigitLetter("in(x)");
    InsertMulIdentity("in(x)");
    assert InsertMul(s) == [s[0], '*', s[1]] + InsertMul(s[2..]);
  }

  lemma DigitSinPrefix()
    ensures PrefixCall("2*sin(x)", "sin") == "2*np.sin(x)"
  {
    FunctionNamesAreNames();
    PrefixCallOnce("2*", "sin", "x)");
    assert "2*" + "sin" + "(" + "x)" == "2*sin(x)";
    assert "2*" + "np." + "sin" + "(" + "x)" == "2*np.sin(x)";
  }

  lemma DigitSinCalls()
    ensures PrefixCalls("2*sin(x)", FunctionNames) == "2*np.sin(x)"
  {
    DigitSinPrefix();
    SinThenRest("2*sin(x)", "2*np.sin(x)");
  }

  /** The `*` written by the implicit-multiplication step puts `sin(` at a word boundary;
      in the input `2sin(x)` it was not. */
  lemma MulThenFunctionExample()
    ensures ConvertEquation("2sin(x)") == "2*np.sin(x)"
  {
    DigitSinCaret();
    DigitSinMul();
    DigitSinCalls();
    ConvertBySteps("2sin(x)", "2sin(x)", "2*sin(x)", "2*np.sin(x)");
  }

  lemma ExpCaret()
    ensures ReplaceCaret("e^(x+1)") == "e**(x+1)"
  {
    CaretBetween("e", "(x+1)");
    assert "e" + "^" + "(x+1)" == "e^(x+1)" && "e" + "**" + "(x+1)" == "e**(x+1)";
  }

  lemma ExpNoDigitLetter()
    ensures NoDigitLetter("e**(x+1)")
  {
    assert !DigitLetterAt("e**(x+1)", 0);
  }

  /** With the `e^` rule unreachable, `e^(x+1)` comes out with a bare `e`, not `np.exp`. */
  lemma ExpExample()
    ensures ConvertEquation("e^(x+1)") == "e**(x+1)"
  {
    ExpCaret();
    ExpNoDigitLetter();
    ConvertAfterCaret("e^(x+1)", "e**(x+1)");
  }

  lemma DigitParenCaret()
    ensures ReplaceCaret("2(x+1)") == "2(x+1)"
  {
    CaretIdentity("2(x+1)");
  }

  lemma DigitParenMul()
    ensures InsertMul("2(x+1)") == "2(x+1)"
  {
    assert NoDigitLetter("2(x+1)");
    InsertMulIdentity("2(x+1)");
  }

  lemma DigitParenCalls()
    ensures PrefixCalls("2(x+1)", FunctionNames) == "2(x+1)"
  {
    NoFunctionUnchanged("2(x+1)");
  }

  /** The digit/letter rule does not cover a digit before a parenthesis. */
  lemma DigitParenExample()
    ensures ConvertEquation("2(x+1)") == "2(x+1)"
  {
    DigitParenCaret();
    DigitParenMul();
    DigitParenCalls();
    ConvertBySteps("2(x+1)", "2(x+1)", "2(x+1)", "2(x+1)");
  }
}
