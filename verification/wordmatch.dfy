/** The regular expression `^\s*+(?:\S++\s*+){1,n}` that `Str::words` runs
    with the `u` modifier. All its quantifiers are possessive or greedy with
    nothing after them, so the match is the leading white space followed by
    as many "word plus trailing white space" units as exist, up to `n`. The
    lemmas characterise the match by word counts alone. Positions are
    indices into the subject, so that no slicing is needed. */
module WordMatch {
  import opened Wrappers
  import opened Chars

  /** A word (a maximal run of non-space characters) starts at `k`. */
  predicate StartsWord(s: string, k: nat)
    requires k < |s|
  {
    !IsSpace(s[k]) && (k == 0 || IsSpace(s[k - 1]))
  }

  /** The number of words that start before position `j`. */
  function WordsBefore(s: string, j: nat): nat
    requires j <= |s|
  {
    if j == 0 then 0 else WordsBefore(s, j - 1) + (if StartsWord(s, j - 1) then 1 else 0)
  }

  /** The number of words of `s`. */
  function WordCount(s: string): nat {
    WordsBefore(s, |s|)
  }

  /** End of the run, starting at `i`, of characters that are white space
      (`space`) or not white space (`!space`). */
  function Span(s: string, i: nat, space: bool): (j: nat)
    requires i <= |s|
    ensures i <= j <= |s|
    ensures forall k :: i <= k < j ==> IsSpace(s[k]) == space
    ensures j < |s| ==> IsSpace(s[j]) != space
    decreases |s| - i
  {
    if i == |s| || IsSpace(s[i]) != space then i else Span(s, i + 1, space)
  }

  /** End of the unit `\S++\s*+` that starts at the word at `i`: the word and
      the white space after it. */
  function UnitEnd(s: string, i: nat): (t: nat)
    requires i < |s| && !IsSpace(s[i])
    ensures i < t <= |s|
    ensures t < |s| ==> IsSpace(s[t - 1]) && !IsSpace(s[t])
  {
    Span(s, Span(s, i, false), true)
  }

  /** End of the text `(?:\S++\s*+){1,n}` consumes from position `i`,
      taking one unit after another until `n` are taken or none is left. */
  function TakeWords(s: string, i: nat, n: nat): (k: nat)
    requires i <= |s|
    ensures i <= k <= |s|
    decreases n
  {
    if n == 0 || i == |s| || IsSpace(s[i]) then i
    else TakeWords(s, UnitEnd(s, i), n - 1)
  }

  /** The largest bound PCRE accepts in a `{m,n}` quantifier. */
  const MaxRepeat: nat := 65535

  /** `preg_match` of the whole expression: the length of the match, or
      `None` when there is none. For `n == 0` the quantifier `{1,0}` is out
      of order, and for `n` above `MaxRepeat` it is too big: either way the
      pattern does not compile and `preg_match` fails, which also leaves no
      match. */
  function MatchWords(s: string, n: nat): Option<nat> {
    if n == 0 || n > MaxRepeat then None
    else
      var lead := Span(s, 0, true);
      if lead == |s| then None else Some(TakeWords(s, lead, n))
  }

  /** No word starts in `[a, b)`, so the count does not change over it. */
  lemma {:induction false} NoStartsBetween(s: string, a: nat, b: nat)
    requires a <= b <= |s|
    requires forall k :: a <= k < b ==> !StartsWord(s, k)
    ensures WordsBefore(s, b) == WordsBefore(s, a)
    decreases b
  {
    if a < b {
      NoStartsBetween(s, a, b - 1);
    }
  }

  /** Counting words is monotone in the position. */
  lemma {:induction false} WordsBeforeMonotone(s: string, a: nat, b: nat)
    requires a <= b <= |s|
    ensures WordsBefore(s, a) <= WordsBefore(s, b)
    decreases b
  {
    if a < b {
      WordsBeforeMonotone(s, a, b - 1);
    }
  }

  /** The words before `j` are the words of the prefix that ends at `j`. */
  lemma {:induction false} WordsBeforePrefix(s: string, j: nat, m: nat)
    requires j <= m <= |s|
    ensures WordsBefore(s[..m], j) == WordsBefore(s, j)
    decreases j
  {
    if j > 0 {
      WordsBeforePrefix(s, j - 1, m);
      assert s[..m][j - 1] == s[j - 1];
      if j > 1 {
        assert s[..m][j - 2] == s[j - 2];
      }
    }
  }

  lemma WordCountPrefix(s: string, m: nat)
    requires m <= |s|
    ensures WordCount(s[..m]) == WordsBefore(s, m)
  {
    WordsBeforePrefix(s, m, m);
  }

  /** A unit holds exactly one word start: the one at its beginning. */
  lemma UnitWords(s: string, i: nat)
    requires i < |s| && StartsWord(s, i)
    ensures WordsBefore(s, UnitEnd(s, i)) == WordsBefore(s, i) + 1
  {
    var w := Span(s, i, false);
    var t := UnitEnd(s, i);
    assert forall k :: i + 1 <= k < w ==> !StartsWord(s, k) by {
      forall k | i + 1 <= k < w ensures !StartsWord(s, k) {
        assert !IsSpace(s[k - 1]);
      }
    }
    NoStartsBetween(s, i + 1, w);
    NoStartsBetween(s, w, t);
  }

  /** From the start of a word (or the end of the text), the units taken
      hold exactly `min(n, words left)` words, and the match stops either
      at the end or right before a word that follows white space. */
  lemma {:induction false} TakeWordsCount(s: string, i: nat, n: nat)
    requires i <= |s|
    requires i == |s| || StartsWord(s, i)
    ensures var k := TakeWords(s, i, n);
      var left := WordCount(s) - WordsBefore(s, i);
      && WordsBefore(s, i) <= WordCount(s)
      && WordsBefore(s, k) - WordsBefore(s, i) == (if n < left then n else left)
      && (k == |s| || (n == 0 && k == i) || (i < k && IsSpace(s[k - 1]) && !IsSpace(s[k])))
    decreases n
  {
    WordsBeforeMonotone(s, i, |s|);
    if n != 0 && i < |s| {
      var t := UnitEnd(s, i);
      assert TakeWords(s, i, n) == TakeWords(s, t, n - 1);
      assert t == |s| || StartsWord(s, t);
      UnitWords(s, i);
      TakeWordsCount(s, t, n - 1);
    }
  }

  /** The match, when there is one, ends at a position before which
      `min(n, words)` words start, and at the end of the text or right
      before a word that follows white space; there is none exactly when
      the quantifier does not compile (`n` is 0 or above `MaxRepeat`) or
      the text has no word. */
  lemma {:induction false} MatchWordsCorrect(s: string, n: nat)
    ensures MatchWords(s, n).None? <==> n == 0 || n > MaxRepeat || WordCount(s) == 0
    ensures MatchWords(s, n).Some? ==>
      && 0 < MatchWords(s, n).value <= |s|
      && WordsBefore(s, MatchWords(s, n).value) == (if n < WordCount(s) then n else WordCount(s))
      && (MatchWords(s, n).value == |s| ||
          (IsSpace(s[MatchWords(s, n).value - 1]) && !IsSpace(s[MatchWords(s, n).value])))
  {
    var lead := Span(s, 0, true);
    NoStartsBetween(s, 0, lead);
    if lead < |s| {
      assert StartsWord(s, lead);
      WordsBeforeMonotone(s, lead + 1, |s|);
      if n != 0 && n <= MaxRepeat {
        TakeWordsCount(s, lead, n);
      }
    }
  }

  /** Cutting right before a word that follows white space leaves at least
      one word behind the cut. */
  lemma CutBeforeWord(s: string, m: nat)
    requires 0 < m < |s|
    requires IsSpace(s[m - 1]) && !IsSpace(s[m])
    ensures WordCount(s) > WordsBefore(s, m)
  {
    assert StartsWord(s, m);
    WordsBeforeMonotone(s, m + 1, |s|);
  }
}
