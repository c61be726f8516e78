/** Step 1 of convert_equation: caret exponentiation becomes Python's `**`. */
module CaretStep {
  import opened Chars
  import opened Subsequences

  /** `equation.replace('^', '**')`: every `^` becomes `**`, the output holds no `^`,
      and it is longer than the input by one character per `^`. */
  function ReplaceCaret(s: string): (r: string)
    ensures |r| == |s| + Count(s, '^')
    ensures '^' !in r
  {
    if s == [] then []
    else (if s[0] == '^' then "**" else [s[0]]) + ReplaceCaret(s[1..])
  }

  /** Where the image of `s[i]` starts in `ReplaceCaret(s)`: shifted by one per earlier `^`. */
  function CaretImageIndex(s: string, i: nat): nat
    requires i <= |s|
  {
    i + Count(s[..i], '^')
  }

  /** The input is laid out in the output in order: the image of `s[i]` starts where the image
      of `s[i - 1]` ends, a `^` occupies two `*`, any other character is copied, and the last
      image ends at the end of the output. */
  lemma {:induction false} CaretImage(s: string, i: nat)
    requires i < |s|
    ensures var p, r := CaretImageIndex(s, i), ReplaceCaret(s);
      && (s[i] == '^' ==> p + 1 < |r| && r[p] == '*' && r[p + 1] == '*')
      && (s[i] != '^' ==> p < |r| && r[p] == s[i])
      && CaretImageIndex(s, i + 1) == p + (if s[i] == '^' then 2 else 1)
  {
    var r, rest := ReplaceCaret(s), ReplaceCaret(s[1..]);
    var head: string := if s[0] == '^' then "**" else [s[0]];
    assert r == head + rest;
    assert s[..i + 1] == s[..i] + [s[i]];
    CountAppend(s[..i], [s[i]], '^');
    if i > 0 {
      CaretImage(s[1..], i - 1);
      assert s[..i][1..] == s[1..][..i - 1];
      assert CaretImageIndex(s, i) == |head| + CaretImageIndex(s[1..], i - 1);
    }
  }

  /** The step works character by character: it distributes over concatenation. */
  lemma {:induction false} ReplaceCaretAppend(a: string, b: string)
    ensures ReplaceCaret(a + b) == ReplaceCaret(a) + ReplaceCaret(b)
  {
    if a == [] {
      assert a + b == b;
    } else {
      assert (a + b)[0] == a[0] && (a + b)[1..] == a[1..] + b;
      ReplaceCaretAppend(a[1..], b);
    }
  }

  lemma ReplaceCaretSingle(c: char)
    ensures ReplaceCaret([c]) == if c == '^' then "**" else [c]
  {
    assert [c][1..] == [];
  }

  /** A single `^` between caret-free strings becomes `**`. */
  lemma CaretBetween(a: string, b: string)
    requires '^' !in a && '^' !in b
    ensures ReplaceCaret(a + "^" + b) == a + "**" + b
  {
    ReplaceCaretAppend(a + ['^'], b);
    ReplaceCaretAppend(a, ['^']);
    ReplaceCaretSingle('^');
    CaretIdentity(a);
    CaretIdentity(b);
  }

  /** A string without `^` is left unchanged, so the step is idempotent. */
  lemma {:induction false} CaretIdentity(s: string)
    requires '^' !in s
    ensures ReplaceCaret(s) == s
  {
    if s != [] {
      assert s == [s[0]] + s[1..];
      CaretIdentity(s[1..]);
    }
  }

  lemma CaretIdempotent(s: string)
    ensures ReplaceCaret(ReplaceCaret(s)) == ReplaceCaret(s)
  {
    CaretIdentity(ReplaceCaret(s));
  }

  /** Only `^` is lost: the input without its carets is a subsequence of the output. */
  lemma {:induction false} CaretKeepsOthers(s: string)
    ensures IsSubseq(Remove(s, '^'), ReplaceCaret(s))
  {
    if s != [] {
      CaretKeepsOthers(s[1..]);
      if s[0] == '^' {
        SubseqConcat([], "**", Remove(s[1..], '^'), ReplaceCaret(s[1..]));
      } else {
        SubseqRefl([s[0]]);
        SubseqConcat([s[0]], [s[0]], Remove(s[1..], '^'), ReplaceCaret(s[1..]));
      }
    }
  }
}
