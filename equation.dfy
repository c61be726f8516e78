/** convert_equation: the fixed chain of eight rewrites that turns an informal one-variable
    expression into Python/NumPy syntax, and the empty-input guard of input_eq around it. */
module Equation {
  import opened Chars
  import opened Subsequences
  import opened CaretStep
  import opened ImplicitMultiplication
  import opened WordBoundarySub

  /** The functions that receive an `np.` prefix, in the order in which they are rewritten. */
  const FunctionNames: seq<string> := ["sin", "cos", "tan", "log", "sqrt"]

  predicate IsName(name: string) {
    |name| > 0 && forall k | 0 <= k < |name| :: IsLetter(name[k])
  }

  /** `re.sub(r'\bNAME\(', 'np.NAME(', s)`. */
  function PrefixCall(s: string, name: string): string {
    SubAtWordStart(s, name + "(", "np." + name + "(")
  }

  /** The function rewrites applied one after the other, in the order of `names`. */
  function PrefixCalls(s: string, names: seq<string>): string
    decreases |names|
  {
    if names == [] then s else PrefixCalls(PrefixCall(s, names[0]), names[1..])
  }

  /** `re.sub(r'\be\^', 'np.exp', s)`. */
  function ExpRewrite(s: string): string {
    SubAtWordStart(s, "e^", "np.exp")
  }

  /** The rewrites that precede the `e^` rule: caret, implicit multiplication, functions. */
  function RewriteBeforeExp(s: string): string {
    PrefixCalls(InsertMul(ReplaceCaret(s)), FunctionNames)
  }

  function ConvertEquation(s: string): string {
    ExpRewrite(RewriteBeforeExp(s))
  }

  /** The converted equation of input_eq: left empty when nothing was entered. */
  function ConvertedInput(raw: string): string {
    if raw != "" then ConvertEquation(raw) else ""
  }

  /** input_eq hands the converted equation to the evaluator only when it is not empty. */
  predicate Evaluates(raw: string) {
    ConvertedInput(raw) != ""
  }

  lemma FunctionNamesAreNames()
    ensures forall n | n in FunctionNames :: IsName(n) && '^' !in n
  {
  }

  lemma NamePatternWordPrefixed(name: string)
    requires IsName(name)
    ensures WordPrefixed(name + "(")
  {
    assert forall k | 0 <= k < |name| :: (name + "(")[k] == name[k];
  }

  /** The `np.` prefix is written in front of each qualifying occurrence of `NAME(`. */
  lemma PrefixCallRewritesEach(s: string, name: string, j: nat)
    requires IsName(name) && MatchAt(s, name + "(", j)
    ensures var p, r := j + 3 * QualifyingBetween(s, name + "(", 0, j), PrefixCall(s, name);
      p + |name| + 4 <= |r| && r[p..p + |name| + 4] == "np." + name + "("
    ensures var e := j + |name| + 1;
      e + 3 * QualifyingBetween(s, name + "(", 0, e) == j + 3 * QualifyingBetween(s, name + "(", 0, j) + |name| + 4
  {
    NamePatternWordPrefixed(name);
    SubImage(s, name + "(", "np." + name + "(", 0, j);
    SubMatchNext(s, name + "(", "np." + name + "(", 0, j);
  }

  /** Every other character is copied: it comes out shifted by 3 per earlier qualifying
      occurrence, and the next character follows it directly. */
  lemma PrefixCallCopiesOthers(s: string, name: string, k: nat)
    requires IsName(name) && k < |s| && Copied(s, name + "(", 0, k)
    ensures var p, r := k + 3 * QualifyingBetween(s, name + "(", 0, k), PrefixCall(s, name);
      p < |r| && r[p] == s[k]
    ensures (k + 1) + 3 * QualifyingBetween(s, name + "(", 0, k + 1) == k + 3 * QualifyingBetween(s, name + "(", 0, k) + 1
  {
    NamePatternWordPrefixed(name);
    SubCopyImage(s, name + "(", "np." + name + "(", 0, k);
  }

  /** Each qualifying occurrence receives exactly one `np.` prefix. */
  lemma PrefixCallLength(s: string, name: string)
    requires IsName(name)
    ensures |PrefixCall(s, name)| == |s| + 3 * Qualifying(s, name + "(")
  {
    NamePatternWordPrefixed(name);
    SubLength(s, name + "(", "np." + name + "(", 0);
  }

  /** The string is left unchanged exactly when no `NAME(` sits at the start of the string or
      after a non-word character. */
  lemma PrefixCallUnchangedIff(s: string, name: string)
    requires IsName(name)
    ensures PrefixCall(s, name) == s <==> forall k | 0 <= k < |s| :: !MatchAt(s, name + "(", k)
  {
    NamePatternWordPrefixed(name);
    SubUnchangedIff(s, name + "(", "np." + name + "(");
    QualifyingZero(s, name + "(", 0, |s|);
  }

  /** A string lacking one of the letters of `NAME` holds no `NAME(` and is left unchanged. */
  lemma PrefixCallMissingLetter(s: string, name: string, c: char)
    requires IsName(name) && c in name && c !in s
    ensures PrefixCall(s, name) == s
  {
    var m :| 0 <= m < |name| && name[m] == c;
    forall k | 0 <= k < |s| ensures !MatchAt(s, name + "(", k) {
      if k + |name| + 1 <= |s| {
        assert s[k..k + |name| + 1][m] == s[k + m];
        assert (name + "(")[m] == c;
      }
    }
    PrefixCallUnchangedIff(s, name);
  }

  /** A function rewrite only inserts characters. */
  lemma PrefixCallKeepsInput(s: string, name: string)
    ensures IsSubseq(s, PrefixCall(s, name))
  {
    var pat := name + "(";
    SubseqRefl(pat);
    SubseqPrepend(pat, "np.", pat);
    assert "np." + name + "(" == "np." + pat;
    SubKeepsInput(s, pat, "np." + name + "(", 0);
    assert s[0..] == s;
  }

  lemma PrefixCallAbsent(s: string, name: string, c: char)
    requires c !in s && c !in name && c !in "np.("
    ensures c !in PrefixCall(s, name)
  {
    assert s[0..] == s;
    SubAbsent(s, name + "(", "np." + name + "(", 0, c);
  }

  /** The number of `np.` prefixes the function rewrites insert, each counted on the string
      that its own rewrite receives. */
  function FunctionOccurrences(s: string, names: seq<string>): nat
    decreases |names|
  {
    if names == [] then 0
    else Qualifying(s, names[0] + "(") + FunctionOccurrences(PrefixCall(s, names[0]), names[1..])
  }

  lemma {:induction false} PrefixCallsLength(s: string, names: seq<string>)
    requires forall n | n in names :: IsName(n)
    ensures |PrefixCalls(s, names)| == |s| + 3 * FunctionOccurrences(s, names)
    decreases |names|
  {
    if names != [] {
      PrefixCallLength(s, names[0]);
      PrefixCallsLength(PrefixCall(s, names[0]), names[1..]);
    }
  }

  lemma {:induction false} PrefixCallsKeepInput(s: string, names: seq<string>)
    ensures IsSubseq(s, PrefixCalls(s, names))
    decreases |names|
  {
    if names == [] {
      SubseqRefl(s);
    } else {
      PrefixCallKeepsInput(s, names[0]);
      PrefixCallsKeepInput(PrefixCall(s, names[0]), names[1..]);
      SubseqTrans(s, PrefixCall(s, names[0]), PrefixCalls(s, names));
    }
  }

  lemma {:induction false} PrefixCallsAbsent(s: string, names: seq<string>, c: char)
    requires c !in s && c !in "np.(" && forall n | n in names :: c !in n
    ensures c !in PrefixCalls(s, names)
    decreases |names|
  {
    if names != [] {
      PrefixCallAbsent(s, names[0], c);
      PrefixCallsAbsent(PrefixCall(s, names[0]), names[1..], c);
    }
  }

  /** The rewrites before the `e^` rule leave no `^` behind. */
  lemma NoCaretBeforeExp(s: string)
    ensures '^' !in RewriteBeforeExp(s)
  {
    InsertMulAbsent(ReplaceCaret(s), '^');
    FunctionNamesAreNames();
    PrefixCallsAbsent(InsertMul(ReplaceCaret(s)), FunctionNames, '^');
  }

  /** The `e^` rule can only change a string that holds a `^`. */
  lemma ExpRewriteNeedsCaret(t: string)
    requires '^' !in t
    ensures ExpRewrite(t) == t
  {
    forall k | 0 <= k < |t| ensures !MatchAt(t, "e^", k) {
      if k + 2 <= |t| {
        assert t[k..k + 2][1] == t[k + 1];
      }
    }
    QualifyingZero(t, "e^", 0, |t|);
    SubIdentity(t, "e^", "np.exp", 0);
    assert t[0..] == t;
  }

  /** The `e^` rewrite is dead code: on the output of the earlier rewrites it never matches. */
  lemma ExpRuleIsDead(s: string)
    ensures ExpRewrite(RewriteBeforeExp(s)) == RewriteBeforeExp(s)
  {
    NoCaretBeforeExp(s);
    ExpRewriteNeedsCaret(RewriteBeforeExp(s));
  }

  lemma ConvertNoCaret(s: string)
    ensures '^' !in ConvertEquation(s)
  {
    ExpRuleIsDead(s);
    NoCaretBeforeExp(s);
  }

  /** No character other than `^` is deleted or reordered. */
  lemma ConvertKeepsCharacters(s: string)
    ensures IsSubseq(Remove(s, '^'), ConvertEquation(s))
  {
    var s1 := ReplaceCaret(s);
    var s2 := InsertMul(s1);
    CaretKeepsOthers(s);
    InsertMulKeepsInput(s1);
    PrefixCallsKeepInput(s2, FunctionNames);
    SubseqTrans(Remove(s, '^'), s1, s2);
    SubseqTrans(Remove(s, '^'), s2, RewriteBeforeExp(s));
    ExpRuleIsDead(s);
  }

  lemma AdjacenciesCons(s: string)
    requires s != []
    ensures Adjacencies(s) == (if DigitLetterAt(s, 0) then 1 else 0) + Adjacencies(s[1..])
  {
    AdjacenciesBeforeTail(s, |s| - 1);
  }

  /** Replacing carets neither creates nor removes a digit/letter adjacency. */
  lemma {:induction false} CaretKeepsAdjacencies(s: string)
    ensures Adjacencies(ReplaceCaret(s)) == Adjacencies(s)
  {
    if s != [] {
      var rest := ReplaceCaret(s[1..]);
      CaretKeepsAdjacencies(s[1..]);
      AdjacenciesCons(s);
      if s[0] == '^' {
        assert ReplaceCaret(s) == "**" + rest;
        AdjacenciesCons("**" + rest);
        assert ("**" + rest)[1..] == "*" + rest;
        AdjacenciesCons("*" + rest);
        assert ("*" + rest)[1..] == rest;
      } else {
        assert ReplaceCaret(s) == [s[0]] + rest;
        AdjacenciesCons([s[0]] + rest);
        assert ([s[0]] + rest)[1..] == rest;
        if |s| > 1 {
          assert rest[0] == if s[1] == '^' then '*' else s[1];
        }
      }
    }
  }

  /** The output is longer than the input by one character per `^`, one per digit/letter
      adjacency, and three per rewritten function occurrence. */
  lemma ConvertLength(s: string)
    ensures |ConvertEquation(s)| == |s| + Count(s, '^') + Adjacencies(s)
      + 3 * FunctionOccurrences(InsertMul(ReplaceCaret(s)), FunctionNames)
  {
    CaretKeepsAdjacencies(s);
    FunctionNamesAreNames();
    PrefixCallsLength(InsertMul(ReplaceCaret(s)), FunctionNames);
    ExpRuleIsDead(s);
  }

  lemma ConvertEmpty()
    ensures ConvertEquation("") == ""
  {
  }

  /** The converted input is empty exactly when nothing was entered, so the guard of input_eq
      changes nothing and the evaluator is reached for every non-empty input. */
  lemma ConvertedInputGuard(raw: string)
    ensures ConvertedInput(raw) == ConvertEquation(raw)
    ensures Evaluates(raw) <==> raw != ""
  {
    if raw == "" {
      ConvertEmpty();
    } else {
      ConvertLength(raw);
    }
  }

  lemma {:induction false} NoDigitLetterConcat(x: string, y: string)
    requires NoDigitLetter(x) && NoDigitLetter(y)
    requires x != [] && y != [] ==> !(IsDigit(x[|x| - 1]) && IsLetter(y[0]))
    ensures NoDigitLetter(x + y)
  {
    forall i | 0 <= i < |x + y| ensures !DigitLetterAt(x + y, i) {
      if i + 1 < |x| {
        assert DigitLetterAt(x + y, i) == DigitLetterAt(x, i);
      } else if i >= |x| {
        assert DigitLetterAt(x + y, i) == DigitLetterAt(y, i - |x|);
      }
    }
  }

  /** A word-boundary substitution whose pattern starts with a word character and whose
      replacement holds no digit creates no digit/letter adjacency. */
  lemma {:induction false} SubKeepsNoDigitLetter(s: string, pat: string, repl: string, i: nat)
    requires |pat| > 0 && IsWordChar(pat[0]) && i <= |s|
    requires NoDigitLetter(s) && forall k | 0 <= k < |repl| :: !IsDigit(repl[k])
    ensures NoDigitLetter(SubFrom(s, pat, repl, i))
    decreases |s| - i
  {
    if i < |s| {
      if MatchAt(s, pat, i) {
        var rest := SubFrom(s, pat, repl, i + |pat|);
        SubKeepsNoDigitLetter(s, pat, repl, i + |pat|);
        NoDigitLetterConcat(repl, rest);
      } else {
        var rest := SubFrom(s, pat, repl, i + 1);
        SubKeepsNoDigitLetter(s, pat, repl, i + 1);
        if i + 1 < |s| && IsDigit(s[i]) {
          assert !MatchAt(s, pat, i + 1) by {
            if i + 1 + |pat| <= |s| {
              assert s[i + 1..i + 1 + |pat|][0] == s[i + 1];
            }
          }
          assert rest[0] == s[i + 1];
          assert !DigitLetterAt(s, i);
        }
        NoDigitLetterConcat([s[i]], rest);
      }
    }
  }

  lemma {:induction false} PrefixCallsKeepNoDigitLetter(s: string, names: seq<string>)
    requires NoDigitLetter(s) && forall n | n in names :: IsName(n)
    ensures NoDigitLetter(PrefixCalls(s, names))
    decreases |names|
  {
    if names != [] {
      var name := names[0];
      assert name in names && IsName(name);
      var repl := "np." + name + "(";
      forall k | 0 <= k < |repl| ensures !IsDigit(repl[k]) {
        if 3 <= k < 3 + |name| {
          assert repl[k] == name[k - 3];
        }
      }
      assert (name + "(")[0] == name[0];
      SubKeepsNoDigitLetter(s, name + "(", repl, 0);
      PrefixCallsKeepNoDigitLetter(PrefixCall(s, name), names[1..]);
    }
  }

  /** In the final output no digit is immediately followed by an ASCII letter: the function
      rewrites never undo the work of the implicit-multiplication step. */
  lemma ConvertNoDigitLetter(s: string)
    ensures NoDigitLetter(ConvertEquation(s))
  {
    InsertMulNoDigitLetter(ReplaceCaret(s));
    FunctionNamesAreNames();
    PrefixCallsKeepNoDigitLetter(InsertMul(ReplaceCaret(s)), FunctionNames);
    ExpRuleIsDead(s);
  }
}
