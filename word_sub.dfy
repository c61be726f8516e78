/** The five function rules and the `e^` rule of convert_equation:
    `re.sub(r'\b' + pattern, replacement, s)` for a literal pattern. Python's `\b` at a
    position holds when exactly one of the characters on either side of it is a word
    character, the outside of the string counting as non-word. */
module WordBoundarySub {
  import opened Chars
  import opened Subsequences

  predicate WordBoundary(s: string, i: int)
    requires 0 <= i <= |s|
  {
    (i > 0 && IsWordChar(s[i - 1])) != (i < |s| && IsWordChar(s[i]))
  }

  /** `\b` followed by the literal `pat` matches `s` at position `i`. */
  predicate MatchAt(s: string, pat: string, i: int) {
    0 <= i && i + |pat| <= |s| && WordBoundary(s, i) && s[i..i + |pat|] == pat
  }

  /** Every character of `pat` but the last is a word character: this holds of `sin(`,
      `cos(`, `tan(`, `log(`, `sqrt(` and `e^`, and it keeps two matches from overlapping. */
  predicate WordPrefixed(pat: string) {
    forall k | 0 <= k < |pat| - 1 :: IsWordChar(pat[k])
  }

  /** The number of positions in `[lo, hi)` at which the pattern qualifies. */
  function QualifyingBetween(s: string, pat: string, lo: nat, hi: nat): nat
    requires lo <= hi
    decreases hi - lo
  {
    if lo == hi then 0 else (if MatchAt(s, pat, lo) then 1 else 0) + QualifyingBetween(s, pat, lo + 1, hi)
  }

  function Qualifying(s: string, pat: string): nat {
    QualifyingBetween(s, pat, 0, |s|)
  }

  /** The scan of `re.sub` from position `i` on: at a match the replacement is written and the
      scan resumes after the match; otherwise one character is copied. `\b` looks at the
      original string, also at a character that precedes `i`. */
  function SubFrom(s: string, pat: string, repl: string, i: nat): string
    requires |pat| > 0 && i <= |s|
    decreases |s| - i
  {
    if i == |s| then []
    else if MatchAt(s, pat, i) then repl + SubFrom(s, pat, repl, i + |pat|)
    else [s[i]] + SubFrom(s, pat, repl, i + 1)
  }

  function SubAtWordStart(s: string, pat: string, repl: string): string
    requires |pat| > 0
  {
    SubFrom(s, pat, repl, 0)
  }

  /** Two qualifying occurrences of a word-prefixed pattern never overlap. */
  lemma NoOverlap(s: string, pat: string, i: int, j: int)
    requires WordPrefixed(pat) && MatchAt(s, pat, i) && i < j < i + |pat|
    ensures !MatchAt(s, pat, j)
  {
    assert s[j - 1] == s[i..i + |pat|][j - 1 - i] == pat[j - 1 - i];
    assert IsWordChar(s[j - 1]) && IsWordChar(pat[0]);
    assert j + |pat| <= |s| ==> s[j..j + |pat|][0] == s[j];
  }

  /** No qualifying occurrence in `[lo, hi)` exactly when their count is zero. */
  lemma {:induction false} QualifyingZero(s: string, pat: string, lo: nat, hi: nat)
    requires lo <= hi
    ensures QualifyingBetween(s, pat, lo, hi) == 0 <==> forall k | lo <= k < hi :: !MatchAt(s, pat, k)
    decreases hi - lo
  {
    if lo < hi {
      QualifyingZero(s, pat, lo + 1, hi);
    }
  }

  /** Counting from a later start when nothing qualifies in between. */
  lemma {:induction false} QualifyingSkip(s: string, pat: string, lo: nat, mid: nat, hi: nat)
    requires lo <= mid <= hi
    requires forall k | lo <= k < mid :: !MatchAt(s, pat, k)
    ensures QualifyingBetween(s, pat, lo, hi) == QualifyingBetween(s, pat, mid, hi)
    decreases mid - lo
  {
    if lo < mid {
      QualifyingSkip(s, pat, lo + 1, mid, hi);
    }
  }

  /** After a match at `i` the next possible match is at `i + |pat|`. */
  lemma QualifyingAfterMatch(s: string, pat: string, i: nat, hi: nat)
    requires |pat| > 0 && WordPrefixed(pat) && MatchAt(s, pat, i) && i + |pat| <= hi
    ensures QualifyingBetween(s, pat, i, hi) == 1 + QualifyingBetween(s, pat, i + |pat|, hi)
  {
    forall k | i + 1 <= k < i + |pat| ensures !MatchAt(s, pat, k) {
      NoOverlap(s, pat, i, k);
    }
    QualifyingSkip(s, pat, i + 1, i + |pat|, hi);
  }

  /** Distributivity, kept apart so that the solver need not find it inside larger proofs. */
  lemma MulStep(d: int, q: nat)
    ensures d * (1 + q) == d + d * q
  {
  }

  lemma MulNonZero(d: int, q: nat)
    requires d != 0 && q != 0
    ensures d * q != 0
  {
  }

  /** Every qualifying occurrence is replaced exactly once: the length changes by
      `|repl| - |pat|` per qualifying position of the input. */
  lemma {:induction false} SubLength(s: string, pat: string, repl: string, i: nat)
    requires |pat| > 0 && WordPrefixed(pat) && i <= |s|
    ensures |SubFrom(s, pat, repl, i)| == |s| - i + (|repl| - |pat|) * QualifyingBetween(s, pat, i, |s|)
    decreases |s| - i
  {
    if i < |s| {
      var d := |repl| - |pat|;
      if MatchAt(s, pat, i) {
        var rest := SubFrom(s, pat, repl, i + |pat|);
        assert SubFrom(s, pat, repl, i) == repl + rest;
        SubLength(s, pat, repl, i + |pat|);
        QualifyingAfterMatch(s, pat, i, |s|);
        MulStep(d, QualifyingBetween(s, pat, i + |pat|, |s|));
      } else {
        var rest := SubFrom(s, pat, repl, i + 1);
        assert SubFrom(s, pat, repl, i) == [s[i]] + rest;
        assert QualifyingBetween(s, pat, i, |s|) == QualifyingBetween(s, pat, i + 1, |s|);
        SubLength(s, pat, repl, i + 1);
      }
    }
  }

  /** Where the output of the qualifying occurrence at `j` starts: shifted by `|repl| - |pat|`
      per earlier qualifying occurrence. */
  function SubImageIndex(s: string, pat: string, repl: string, i: nat, j: nat): int
    requires i <= j
  {
    (j - i) + (|repl| - |pat|) * QualifyingBetween(s, pat, i, j)
  }

  /** Each qualifying occurrence at `j` comes out as `repl` at its image position. */
  lemma {:induction false} SubImage(s: string, pat: string, repl: string, i: nat, j: nat)
    requires |pat| > 0 && WordPrefixed(pat) && i <= j && MatchAt(s, pat, j)
    ensures 0 <= SubImageIndex(s, pat, repl, i, j)
    ensures SubImageIndex(s, pat, repl, i, j) + |repl| <= |SubFrom(s, pat, repl, i)|
    ensures SubFrom(s, pat, repl, i)[SubImageIndex(s, pat, repl, i, j)..SubImageIndex(s, pat, repl, i, j) + |repl|] == repl
    decreases |s| - i, 1
  {
    if i < j {
      if MatchAt(s, pat, i) {
        SubImageAfterMatch(s, pat, repl, i, j);
      } else {
        SubImageAfterCopy(s, pat, repl, i, j);
      }
    }
  }

  lemma SliceOfSuffix(x: string, rest: string, p: nat, n: nat)
    requires p + n <= |rest|
    ensures (x + rest)[|x| + p..|x| + p + n] == rest[p..p + n]
  {
  }

  lemma SubImageIndexAfterMatch(s: string, pat: string, repl: string, i: nat, j: nat)
    requires |pat| > 0 && WordPrefixed(pat) && MatchAt(s, pat, i) && i + |pat| <= j
    ensures SubImageIndex(s, pat, repl, i, j) == |repl| + SubImageIndex(s, pat, repl, i + |pat|, j)
  {
    QualifyingAfterMatch(s, pat, i, j);
    MulStep(|repl| - |pat|, QualifyingBetween(s, pat, i + |pat|, j));
  }

  /** `SubImage` when the scan matches at `i`, before `j`. */
  lemma {:induction false} SubImageAfterMatch(s: string, pat: string, repl: string, i: nat, j: nat)
    requires |pat| > 0 && WordPrefixed(pat) && i < j && MatchAt(s, pat, j) && MatchAt(s, pat, i)
    ensures 0 <= SubImageIndex(s, pat, repl, i, j)
    ensures SubImageIndex(s, pat, repl, i, j) + |repl| <= |SubFrom(s, pat, repl, i)|
    ensures SubFrom(s, pat, repl, i)[SubImageIndex(s, pat, repl, i, j)..SubImageIndex(s, pat, repl, i, j) + |repl|] == repl
    decreases |s| - i, 0
  {
    if j < i + |pat| {
      NoOverlap(s, pat, i, j);
    }
    var rest := SubFrom(s, pat, repl, i + |pat|);
    assert SubFrom(s, pat, repl, i) == repl + rest;
    SubImage(s, pat, repl, i + |pat|, j);
    var p' := SubImageIndex(s, pat, repl, i + |pat|, j);
    SubImageIndexAfterMatch(s, pat, repl, i, j);
    SliceOfSuffix(repl, rest, p', |repl|);
  }

  /** `SubImage` when the scan copies the character at `i`. */
  lemma {:induction false} SubImageAfterCopy(s: string, pat: string, repl: string, i: nat, j: nat)
    requires |pat| > 0 && WordPrefixed(pat) && i < j && MatchAt(s, pat, j) && !MatchAt(s, pat, i)
    ensures 0 <= SubImageIndex(s, pat, repl, i, j)
    ensures SubImageIndex(s, pat, repl, i, j) + |repl| <= |SubFrom(s, pat, repl, i)|
    ensures SubFrom(s, pat, repl, i)[SubImageIndex(s, pat, repl, i, j)..SubImageIndex(s, pat, repl, i, j) + |repl|] == repl
    decreases |s| - i, 0
  {
    var rest := SubFrom(s, pat, repl, i + 1);
    assert SubFrom(s, pat, repl, i) == [s[i]] + rest;
    SubImage(s, pat, repl, i + 1, j);
    var p' := SubImageIndex(s, pat, repl, i + 1, j);
    assert SubImageIndex(s, pat, repl, i, j) == 1 + p';
    SliceOfSuffix([s[i]], rest, p', |repl|);
  }

  /** The qualifying count over `[lo, hi)` is the sum of the counts over `[lo, mid)` and
      `[mid, hi)`. */
  lemma {:induction false} QualifyingSplit(s: string, pat: string, lo: nat, mid: nat, hi: nat)
    requires lo <= mid <= hi
    ensures QualifyingBetween(s, pat, lo, hi) == QualifyingBetween(s, pat, lo, mid) + QualifyingBetween(s, pat, mid, hi)
    decreases mid - lo
  {
    if lo < mid {
      QualifyingSplit(s, pat, lo + 1, mid, hi);
    }
  }

  /** The image of the text right after a qualifying occurrence follows its replacement. */
  lemma SubMatchNext(s: string, pat: string, repl: string, i: nat, j: nat)
    requires |pat| > 0 && WordPrefixed(pat) && i <= j && MatchAt(s, pat, j)
    ensures SubImageIndex(s, pat, repl, i, j + |pat|) == SubImageIndex(s, pat, repl, i, j) + |repl|
  {
    QualifyingSplit(s, pat, i, j, j + |pat|);
    QualifyingAfterMatch(s, pat, j, j + |pat|);
    MulStep(|repl| - |pat|, QualifyingBetween(s, pat, i, j));
  }

  /** Position `k` lies inside no qualifying occurrence that starts at or after `i`, so the
      scan from `i` copies the character there. */
  predicate Copied(s: string, pat: string, i: nat, k: nat) {
    forall j | i <= j <= k && MatchAt(s, pat, j) :: j + |pat| <= k
  }

  /** Each copied character comes out at its image position, and the image of the next
      position follows it directly. */
  lemma {:induction false} SubCopyImage(s: string, pat: string, repl: string, i: nat, k: nat)
    requires |pat| > 0 && WordPrefixed(pat) && i <= k < |s| && Copied(s, pat, i, k)
    ensures 0 <= SubImageIndex(s, pat, repl, i, k) < |SubFrom(s, pat, repl, i)|
    ensures SubFrom(s, pat, repl, i)[SubImageIndex(s, pat, repl, i, k)] == s[k]
    ensures SubImageIndex(s, pat, repl, i, k + 1) == SubImageIndex(s, pat, repl, i, k) + 1
    decreases |s| - i, 1
  {
    if i == k {
      assert !MatchAt(s, pat, i);
      assert QualifyingBetween(s, pat, i, i) == 0 && QualifyingBetween(s, pat, i, i + 1) == 0;
      assert SubFrom(s, pat, repl, i) == [s[i]] + SubFrom(s, pat, repl, i + 1);
    } else if MatchAt(s, pat, i) {
      SubCopyImageAfterMatch(s, pat, repl, i, k);
    } else {
      SubCopyImageAfterCopy(s, pat, repl, i, k);
    }
  }

  /** `SubCopyImage` when the scan matches at `i`, before `k`. */
  lemma {:induction false} SubCopyImageAfterMatch(s: string, pat: string, repl: string, i: nat, k: nat)
    requires |pat| > 0 && WordPrefixed(pat) && i < k < |s| && Copied(s, pat, i, k) && MatchAt(s, pat, i)
    ensures 0 <= SubImageIndex(s, pat, repl, i, k) < |SubFrom(s, pat, repl, i)|
    ensures SubFrom(s, pat, repl, i)[SubImageIndex(s, pat, repl, i, k)] == s[k]
    ensures SubImageIndex(s, pat, repl, i, k + 1) == SubImageIndex(s, pat, repl, i, k) + 1
    decreases |s| - i, 0
  {
    assert i + |pat| <= k;
    var rest := SubFrom(s, pat, repl, i + |pat|);
    assert SubFrom(s, pat, repl, i) == repl + rest;
    assert Copied(s, pat, i + |pat|, k);
    SubCopyImage(s, pat, repl, i + |pat|, k);
    SubImageIndexAfterMatch(s, pat, repl, i, k);
    SubImageIndexAfterMatch(s, pat, repl, i, k + 1);
    var p' := SubImageIndex(s, pat, repl, i + |pat|, k);
    assert (repl + rest)[|repl| + p'] == rest[p'];
  }

  /** `SubCopyImage` when the scan copies the character at `i`, before `k`. */
  lemma {:induction false} SubCopyImageAfterCopy(s: string, pat: string, repl: string, i: nat, k: nat)
    requires |pat| > 0 && WordPrefixed(pat) && i < k < |s| && Copied(s, pat, i, k) && !MatchAt(s, pat, i)
    ensures 0 <= SubImageIndex(s, pat, repl, i, k) < |SubFrom(s, pat, repl, i)|
    ensures SubFrom(s, pat, repl, i)[SubImageIndex(s, pat, repl, i, k)] == s[k]
    ensures SubImageIndex(s, pat, repl, i, k + 1) == SubImageIndex(s, pat, repl, i, k) + 1
    decreases |s| - i, 0
  {
    var rest := SubFrom(s, pat, repl, i + 1);
    assert SubFrom(s, pat, repl, i) == [s[i]] + rest;
    assert Copied(s, pat, i + 1, k);
    SubCopyImage(s, pat, repl, i + 1, k);
    assert QualifyingBetween(s, pat, i, k) == QualifyingBetween(s, pat, i + 1, k);
    assert QualifyingBetween(s, pat, i, k + 1) == QualifyingBetween(s, pat, i + 1, k + 1);
    var p' := SubImageIndex(s, pat, repl, i + 1, k);
    assert ([s[i]] + rest)[1 + p'] == rest[p'];
  }

  /** The image of the end of the string is the end of the output. */
  lemma SubImageEnd(s: string, pat: string, repl: string, i: nat)
    requires |pat| > 0 && WordPrefixed(pat) && i <= |s|
    ensures |SubFrom(s, pat, repl, i)| == SubImageIndex(s, pat, repl, i, |s|)
  {
    SubLength(s, pat, repl, i);
  }

  /** With nothing qualifying the substitution leaves the string as it is. */
  lemma {:induction false} SubIdentity(s: string, pat: string, repl: string, i: nat)
    requires |pat| > 0 && i <= |s| && QualifyingBetween(s, pat, i, |s|) == 0
    ensures SubFrom(s, pat, repl, i) == s[i..]
    decreases |s| - i
  {
    if i < |s| {
      SubIdentity(s, pat, repl, i + 1);
      assert s[i..] == [s[i]] + s[i + 1..];
    }
  }

  /** A stretch without the first character of the pattern is copied unchanged. */
  lemma {:induction false} SubCopyRange(s: string, pat: string, repl: string, i: nat, j: nat)
    requires |pat| > 0 && i <= j <= |s| && pat[0] !in s[i..j]
    ensures SubFrom(s, pat, repl, i) == s[i..j] + SubFrom(s, pat, repl, j)
    decreases j - i
  {
    if i < j {
      assert s[i..j] == [s[i]] + s[i + 1..j];
      if i + |pat| <= |s| {
        assert s[i..i + |pat|][0] == s[i];
      }
      SubCopyRange(s, pat, repl, i + 1, j);
    }
  }

  /** A single occurrence at a word start, with the surrounding text free of the pattern's
      first character, is the only thing replaced. */
  lemma SubSingleMatch(a: string, pat: string, repl: string, b: string)
    requires |pat| > 0 && IsWordChar(pat[0]) && pat[0] !in a && pat[0] !in b
    requires a == [] || !IsWordChar(a[|a| - 1])
    ensures SubAtWordStart(a + pat + b, pat, repl) == a + repl + b
  {
    var s := a + pat + b;
    var m := |a| + |pat|;
    assert s[0..|a|] == a && s[|a|..m] == pat && s[m..|s|] == b;
    SubCopyRange(s, pat, repl, 0, |a|);
    assert s[|a|] == pat[0];
    assert |a| > 0 ==> s[|a| - 1] == a[|a| - 1];
    assert WordBoundary(s, |a|);
    assert MatchAt(s, pat, |a|);
    SubCopyRange(s, pat, repl, m, |s|);
    assert SubFrom(s, pat, repl, |a|) == repl + b;
  }

  /** When the replacement has a different length, the string is left unchanged exactly
      when nothing in it qualifies. */
  lemma SubUnchangedIff(s: string, pat: string, repl: string)
    requires |pat| > 0 && WordPrefixed(pat) && |repl| != |pat|
    ensures SubAtWordStart(s, pat, repl) == s <==> Qualifying(s, pat) == 0
  {
    SubLength(s, pat, repl, 0);
    if Qualifying(s, pat) == 0 {
      SubIdentity(s, pat, repl, 0);
      assert s[0..] == s;
    } else {
      MulNonZero(|repl| - |pat|, Qualifying(s, pat));
      assert |SubAtWordStart(s, pat, repl)| != |s|;
    }
  }

  /** When the pattern is a subsequence of the replacement, the input is a subsequence of the
      output: the substitution only inserts characters. */
  lemma {:induction false} SubKeepsInput(s: string, pat: string, repl: string, i: nat)
    requires |pat| > 0 && i <= |s| && IsSubseq(pat, repl)
    ensures IsSubseq(s[i..], SubFrom(s, pat, repl, i))
    decreases |s| - i
  {
    if i < |s| {
      if MatchAt(s, pat, i) {
        SubKeepsInput(s, pat, repl, i + |pat|);
        assert s[i..] == pat + s[i + |pat|..];
        SubseqConcat(pat, repl, s[i + |pat|..], SubFrom(s, pat, repl, i + |pat|));
      } else {
        SubKeepsInput(s, pat, repl, i + 1);
        assert s[i..] == [s[i]] + s[i + 1..];
        SubseqRefl([s[i]]);
        SubseqConcat([s[i]], [s[i]], s[i + 1..], SubFrom(s, pat, repl, i + 1));
      }
    }
  }

  /** A character found in neither the input nor the replacement is not in the output. */
  lemma {:induction false} SubAbsent(s: string, pat: string, repl: string, i: nat, c: char)
    requires |pat| > 0 && i <= |s| && c !in s[i..] && c !in repl
    ensures c !in SubFrom(s, pat, repl, i)
    decreases |s| - i
  {
    if i < |s| {
      assert s[i..] == [s[i]] + s[i + 1..];
      if MatchAt(s, pat, i) {
        assert s[i + |pat|..] == s[i..][|pat|..];
        SubAbsent(s, pat, repl, i + |pat|, c);
      } else {
        SubAbsent(s, pat, repl, i + 1, c);
      }
    }
  }
}
