/** Step 2 of convert_equation: implicit multiplication between a digit and a letter. */
module ImplicitMultiplication {
  import opened Chars
  import opened Subsequences

  /** The pattern `(\d)([a-zA-Z])` matches at position `i`. */
  predicate DigitLetterAt(s: string, i: int) {
    0 <= i && i + 1 < |s| && IsDigit(s[i]) && IsLetter(s[i + 1])
  }

  /** Number of digit/letter adjacencies that start before position `i`. */
  function AdjacenciesBefore(s: string, i: nat): nat
    requires i <= |s|
  {
    if i == 0 then 0 else AdjacenciesBefore(s, i - 1) + (if DigitLetterAt(s, i - 1) then 1 else 0)
  }

  function Adjacencies(s: string): nat {
    AdjacenciesBefore(s, |s|)
  }

  predicate NoDigitLetter(s: string) {
    forall i | 0 <= i < |s| :: !DigitLetterAt(s, i)
  }

  /** Counting from the first character: the adjacency at 0 plus those of the tail. */
  lemma {:induction false} AdjacenciesBeforeTail(s: string, i: nat)
    requires i < |s|
    ensures AdjacenciesBefore(s, i + 1) == (if DigitLetterAt(s, 0) then 1 else 0) + AdjacenciesBefore(s[1..], i)
  {
    if i > 0 {
      AdjacenciesBeforeTail(s, i - 1);
      assert DigitLetterAt(s[1..], i - 1) == DigitLetterAt(s, i);
    }
  }

  /** `re.sub(r'(\d)([a-zA-Z])', r'\1*\2', s)`: a leftmost, non-overlapping scan that writes
      `*` between each matched digit and letter and resumes after the letter. The output is
      longer by exactly one character per adjacency and starts with the input's first character. */
  function InsertMul(s: string): (r: string)
    ensures |r| == |s| + Adjacencies(s)
    ensures s != [] ==> r != [] && r[0] == s[0]
  {
    if |s| < 2 then
      assert |s| == 1 ==> AdjacenciesBefore(s, 1) == AdjacenciesBefore(s, 0);
      s
    else if DigitLetterAt(s, 0) then
      AdjacenciesBeforeTail(s, |s| - 1);
      AdjacenciesBeforeTail(s[1..], |s| - 2);
      assert s[1..][1..] == s[2..];
      [s[0], '*', s[1]] + InsertMul(s[2..])
    else
      AdjacenciesBeforeTail(s, |s| - 1);
      [s[0]] + InsertMul(s[1..])
  }

  /** After the step no digit is immediately followed by an ASCII letter. */
  lemma {:induction false} InsertMulNoDigitLetter(s: string)
    ensures NoDigitLetter(InsertMul(s))
  {
    var r := InsertMul(s);
    if |s| >= 2 {
      if DigitLetterAt(s, 0) {
        var rest := InsertMul(s[2..]);
        InsertMulNoDigitLetter(s[2..]);
        assert r == [s[0], '*', s[1]] + rest;
        forall i | 0 <= i < |r| ensures !DigitLetterAt(r, i) {
          if 3 <= i {
            assert DigitLetterAt(r, i) == DigitLetterAt(rest, i - 3);
          }
        }
      } else {
        var rest := InsertMul(s[1..]);
        InsertMulNoDigitLetter(s[1..]);
        assert r == [s[0]] + rest;
        forall i | 0 <= i < |r| ensures !DigitLetterAt(r, i) {
          if 1 <= i {
            assert DigitLetterAt(r, i) == DigitLetterAt(rest, i - 1);
          }
        }
      }
    }
  }

  /** Where the image of `s[i]` sits in `InsertMul(s)`: shifted by one per earlier adjacency. */
  function MulImageIndex(s: string, i: nat): nat
    requires i <= |s|
  {
    i + AdjacenciesBefore(s, i)
  }

  /** The step only inserts `*`: each input character is copied, in order, to its image
      position; an inserted `*` follows the digit of each adjacency and nothing else lies
      between consecutive images; the last image ends at the end of the output. So deleting
      the inserted `*`s gives back the input exactly. */
  lemma MulImage(s: string, i: nat)
    requires i < |s|
    ensures var p, r := MulImageIndex(s, i), InsertMul(s);
      && p < |r| && r[p] == s[i]
      && (DigitLetterAt(s, i) ==> p + 1 < |r| && r[p + 1] == '*')
      && (if i + 1 < |s| then MulImageIndex(s, i + 1) else |r|) == p + (if DigitLetterAt(s, i) then 2 else 1)
  {
    MulImageAt(s, i);
  }

  lemma {:induction false} MulImageAt(s: string, i: nat)
    requires i < |s|
    ensures MulImageIndex(s, i) < |InsertMul(s)| && InsertMul(s)[MulImageIndex(s, i)] == s[i]
    ensures DigitLetterAt(s, i) ==> MulImageIndex(s, i) + 1 < |InsertMul(s)| && InsertMul(s)[MulImageIndex(s, i) + 1] == '*'
    decreases |s|
  {
    if |s| >= 2 {
      if DigitLetterAt(s, 0) {
        MulImageAfterAdjacency(s, i);
      } else {
        MulImageAfterOther(s, i);
      }
    }
  }

  /** `MulImageAt` when the scan matches at the first position. */
  lemma {:induction false} MulImageAfterAdjacency(s: string, i: nat)
    requires i < |s| && DigitLetterAt(s, 0)
    ensures MulImageIndex(s, i) < |InsertMul(s)| && InsertMul(s)[MulImageIndex(s, i)] == s[i]
    ensures DigitLetterAt(s, i) ==> MulImageIndex(s, i) + 1 < |InsertMul(s)| && InsertMul(s)[MulImageIndex(s, i) + 1] == '*'
    decreases |s|, 0
  {
    var rest := InsertMul(s[2..]);
    assert InsertMul(s) == [s[0], '*', s[1]] + rest;
    assert AdjacenciesBefore(s, 1) == 1;
    if i == 1 {
      assert MulImageIndex(s, 1) == 2;
    } else if i >= 2 {
      MulImageAt(s[2..], i - 2);
      AdjacenciesBeforeTail(s, i - 1);
      AdjacenciesBeforeTail(s[1..], i - 2);
      assert s[1..][1..] == s[2..];
      assert MulImageIndex(s, i) == 3 + MulImageIndex(s[2..], i - 2);
      assert DigitLetterAt(s, i) == DigitLetterAt(s[2..], i - 2);
    }
  }

  /** `MulImageAt` when the scan does not match at the first position. */
  lemma {:induction false} MulImageAfterOther(s: string, i: nat)
    requires i < |s| && 2 <= |s| && !DigitLetterAt(s, 0)
    ensures MulImageIndex(s, i) < |InsertMul(s)| && InsertMul(s)[MulImageIndex(s, i)] == s[i]
    ensures DigitLetterAt(s, i) ==> MulImageIndex(s, i) + 1 < |InsertMul(s)| && InsertMul(s)[MulImageIndex(s, i) + 1] == '*'
    decreases |s|, 0
  {
    var rest := InsertMul(s[1..]);
    assert InsertMul(s) == [s[0]] + rest;
    if i >= 1 {
      MulImageAt(s[1..], i - 1);
      AdjacenciesBeforeTail(s, i - 1);
      assert MulImageIndex(s, i) == 1 + MulImageIndex(s[1..], i - 1);
      assert DigitLetterAt(s, i) == DigitLetterAt(s[1..], i - 1);
    }
  }

  /** A string with no digit/letter adjacency is left unchanged; with InsertMulNoDigitLetter
      this makes the step idempotent. */
  lemma {:induction false} InsertMulIdentity(s: string)
    requires NoDigitLetter(s)
    ensures InsertMul(s) == s
  {
    if |s| >= 2 {
      assert !DigitLetterAt(s, 0);
      forall i | 0 <= i < |s[1..]| ensures !DigitLetterAt(s[1..], i) {
        assert DigitLetterAt(s[1..], i) == DigitLetterAt(s, i + 1);
      }
      InsertMulIdentity(s[1..]);
      assert s == [s[0]] + s[1..];
    }
  }

  lemma InsertMulIdempotent(s: string)
    ensures InsertMul(InsertMul(s)) == InsertMul(s)
  {
    InsertMulNoDigitLetter(s);
    InsertMulIdentity(InsertMul(s));
  }

  /** The input is a subsequence of the output. */
  lemma {:induction false} InsertMulKeepsInput(s: string)
    ensures IsSubseq(s, InsertMul(s))
  {
    if |s| < 2 {
      SubseqRefl(s);
    } else if DigitLetterAt(s, 0) {
      var tail, rest := s[2..], InsertMul(s[2..]);
      InsertMulKeepsInput(tail);
      SubseqCons(s[1], tail, rest);
      SubseqPrepend([s[1]] + tail, ['*'], [s[1]] + rest);
      SubseqCons(s[0], [s[1]] + tail, ['*'] + ([s[1]] + rest));
      assert [s[0]] + ([s[1]] + tail) == s;
      assert [s[0]] + (['*'] + ([s[1]] + rest)) == InsertMul(s);
    } else {
      InsertMulKeepsInput(s[1..]);
      SubseqCons(s[0], s[1..], InsertMul(s[1..]));
      assert [s[0]] + s[1..] == s;
    }
  }

  /** A character other than `*` occurs in the output only if it occurs in the input. */
  lemma {:induction false} InsertMulAbsent(s: string, c: char)
    requires c != '*' && c !in s
    ensures c !in InsertMul(s)
  {
    if |s| >= 2 {
      if DigitLetterAt(s, 0) {
        InsertMulAbsent(s[2..], c);
      } else {
        InsertMulAbsent(s[1..], c);
      }
    }
  }
}
