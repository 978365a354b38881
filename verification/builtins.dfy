/** The PHP library functions the helper classes are built from, on strings
    of code points. Each is stated by what it computes, so that the helper
    classes can be reasoned about without unfolding these bodies. */
module Builtins {
  import opened Wrappers
  import opened Chars

  /** `n` occurs in `h` starting at position `k`. */
  predicate OccursAt(h: string, n: string, k: nat) {
    k + |n| <= |h| && h[k..k + |n|] == n
  }

  /** `n` occurs somewhere in `h`. */
  ghost predicate Occurs(h: string, n: string) {
    exists k: nat :: OccursAt(h, n, k)
  }

  /** `strpos($h, $n)`: the first position at which `n` occurs in `h`, or
      `None` (PHP's `false`) when it occurs nowhere. */
  function IndexOf(h: string, n: string): (r: Option<nat>)
    ensures r.Some? ==> OccursAt(h, n, r.value)
    ensures r.Some? ==> forall k: nat :: k < r.value ==> !OccursAt(h, n, k)
    ensures r.None? <==> !Occurs(h, n)
  {
    IndexFrom(h, n, 0)
  }

  function IndexFrom(h: string, n: string, k: nat): (r: Option<nat>)
    requires k <= |h|
    ensures r.Some? ==> k <= r.value && OccursAt(h, n, r.value)
    ensures r.Some? ==> forall j: nat :: k <= j < r.value ==> !OccursAt(h, n, j)
    ensures r.None? ==> forall j: nat :: k <= j ==> !OccursAt(h, n, j)
    decreases |h| - k
  {
    if OccursAt(h, n, k) then Some(k)
    else if k == |h| then None
    else IndexFrom(h, n, k + 1)
  }

  /** `substr($h, -strlen($n))` as `endsWith` uses it: the last `|n|`
      characters of `h`; the whole of `h` when `n` is empty (the start
      offset is then 0) or longer than `h` (a negative start beyond the
      beginning is clamped to 0). */
  function TailFor(h: string, n: string): (r: string)
    ensures |n| == 0 || |n| > |h| ==> r == h
    ensures 0 < |n| <= |h| ==> |r| == |n| && h == h[..|h| - |n|] + r
  {
    if |n| == 0 || |n| > |h| then h else h[|h| - |n|..]
  }

  /** `str_replace($search, $replace, $subject)` for one search string:
      every occurrence, found left to right without overlap, is replaced
      literally; an empty search string leaves the subject unchanged. The
      lemmas `StrReplaceFirst`, `StrReplaceAbsent` and `StrReplaceSelf`
      below state what it does for a non-empty search string. */
  function StrReplace(s: string, search: string, rep: string): (r: string)
    ensures search == [] ==> r == s
    decreases |s|
  {
    if search == [] || s == [] then s
    else if OccursAt(s, search, 0) then rep + StrReplace(s[|search|..], search, rep)
    else [s[0]] + StrReplace(s[1..], search, rep)
  }

  /** An occurrence in the tail is an occurrence one place further on. */
  lemma OccursTail(s: string, n: string, j: nat)
    requires s != []
    ensures OccursAt(s[1..], n, j) <==> OccursAt(s, n, j + 1)
  {
    if j + 1 + |n| <= |s| {
      assert s[1..][j..j + |n|] == s[j + 1..j + 1 + |n|];
    }
  }

  /** Past a position where `n` does not occur, the first occurrence in the
      tail is the first occurrence, one place earlier. */
  lemma IndexOfTail(s: string, n: string, k: nat)
    requires IndexOf(s, n) == Some(k) && k > 0
    ensures IndexOf(s[1..], n) == Some(k - 1)
  {
    OccursTail(s, n, k - 1);
    var r := IndexOf(s[1..], n);
    if r != Some(k - 1) {
      if r.Some? && r.value < k - 1 {
        OccursTail(s, n, r.value);
      }
    }
  }

  /** A first character that does not start an occurrence is kept. */
  lemma StrReplaceKeep(s: string, search: string, rep: string)
    requires search != [] && s != [] && !OccursAt(s, search, 0)
    ensures StrReplace(s, search, rep) == [s[0]] + StrReplace(s[1..], search, rep)
  {
  }

  /** Re-associating a kept first character with the kept text after it. */
  lemma ConsSplit(s: string, k: nat, x: string, t: string, mid: string, after: string)
    requires 0 < k <= |s|
    requires x == [s[0]] + t && t == s[1..][..k - 1] + mid + after
    ensures x == s[..k] + mid + after
  {
    assert s[..k] == [s[0]] + s[1..][..k - 1];
  }

  /** `str_replace` is literal, leftmost and non-overlapping: the text
      before the first occurrence is kept, that occurrence is replaced, and
      the search resumes right after it. */
  lemma {:induction false} StrReplaceFirst(s: string, search: string, rep: string, k: nat)
    requires search != [] && IndexOf(s, search) == Some(k)
    ensures StrReplace(s, search, rep) == s[..k] + rep + StrReplace(s[k + |search|..], search, rep)
    decreases k
  {
    if k > 0 {
      var t := s[1..];
      IndexOfTail(s, search, k);
      StrReplaceFirst(t, search, rep, k - 1);
      assert t[k - 1 + |search|..] == s[k + |search|..];
      StrReplaceKeep(s, search, rep);
      ConsSplit(s, k, StrReplace(s, search, rep), StrReplace(t, search, rep), rep,
        StrReplace(s[k + |search|..], search, rep));
    } else {
      assert OccursAt(s, search, 0) && s != [];
      assert s[..k] + rep == rep;
    }
  }

  /** A subject in which the search string does not occur comes back
      unchanged. */
  lemma {:induction false} StrReplaceAbsent(s: string, search: string, rep: string)
    requires !Occurs(s, search)
    ensures StrReplace(s, search, rep) == s
    decreases |s|
  {
    if search != [] && s != [] {
      assert !OccursAt(s, search, 0);
      assert !Occurs(s[1..], search) by {
        forall k: nat | OccursAt(s[1..], search, k) ensures OccursAt(s, search, k + 1) {
          assert s[1..][k..k + |search|] == s[k + 1..k + 1 + |search|];
        }
      }
      StrReplaceAbsent(s[1..], search, rep);
      assert s == [s[0]] + s[1..];
    }
  }

  /** Replacing a string by itself changes nothing. */
  lemma {:induction false} StrReplaceSelf(s: string, search: string)
    ensures StrReplace(s, search, search) == s
    decreases |s|
  {
    if search != [] && s != [] {
      if OccursAt(s, search, 0) {
        StrReplaceSelf(s[|search|..], search);
        assert s == s[..|search|] + s[|search|..];
      } else {
        StrReplaceSelf(s[1..], search);
        assert s == [s[0]] + s[1..];
      }
    }
  }

  /** `rtrim($s)`: drops the trailing run of `trim`'s default characters. */
  function RTrim(s: string): (r: string)
    ensures r <= s
    ensures forall i :: |r| <= i < |s| ==> IsTrimSpace(s[i])
    ensures r == [] || !IsTrimSpace(r[|r| - 1])
  {
    if s == [] || !IsTrimSpace(s[|s| - 1]) then s else RTrim(s[..|s| - 1])
  }

  /** Length of the leading run of `c` in `s`. */
  function LeadingRun(s: string, c: char): (n: nat)
    ensures n <= |s|
    ensures forall i :: 0 <= i < n ==> s[i] == c
    ensures n < |s| ==> s[n] != c
  {
    if s == [] || s[0] != c then 0 else 1 + LeadingRun(s[1..], c)
  }

  /** Length of the trailing run of `c` in `s`. */
  function TrailingRun(s: string, c: char): (n: nat)
    ensures n <= |s|
    ensures forall i :: |s| - n <= i < |s| ==> s[i] == c
    ensures n < |s| ==> s[|s| - n - 1] != c
  {
    if s == [] || s[|s| - 1] != c then 0 else 1 + TrailingRun(s[..|s| - 1], c)
  }

  /** `r` is what is left of `s` at position `k` once a leading and a
      trailing run of `c` are taken off. */
  predicate TrimmedAt(s: string, r: string, c: char, k: nat) {
    && OccursAt(s, r, k)
    && (forall i :: 0 <= i < k ==> s[i] == c)
    && (forall i :: k + |r| <= i < |s| ==> s[i] == c)
  }

  /** `trim($s, $c)` for a one-character list: `s` is a run of `c`, then
      the result, then a run of `c`, and the result neither starts nor ends
      with `c`. */
  function TrimChar(s: string, c: char): (r: string)
    ensures exists k: nat :: TrimmedAt(s, r, c, k)
    ensures r == [] || (r[0] != c && r[|r| - 1] != c)
    ensures s == [] || (s[0] != c && s[|s| - 1] != c) ==> r == s
  {
    var a := LeadingRun(s, c);
    if a == |s| then
      assert TrimmedAt(s, [], c, 0);
      []
    else
      var b := TrailingRun(s, c);
      assert s[|s| - b - 1] != c;
      assert TrimmedAt(s, s[a..|s| - b], c, a);
      s[a..|s| - b]
  }

  /** `strtolower`: ASCII letters lower-cased, everything else kept. */
  function StrToLower(s: string): (r: string)
    ensures |r| == |s|
    ensures forall i :: 0 <= i < |s| ==> r[i] == ToLower(s[i])
  {
    if s == [] then [] else [ToLower(s[0])] + StrToLower(s[1..])
  }

  /** `ctype_lower`: non-empty and made of 'a'..'z' only. */
  predicate CtypeLower(s: string) {
    |s| > 0 && forall i :: 0 <= i < |s| ==> IsLower(s[i])
  }

  /** `ucwords`: the first character and every character that follows a
      word delimiter are upper-cased. */
  function Ucwords(s: string): (r: string)
    ensures |r| == |s|
    ensures forall i :: 0 <= i < |s| ==>
      r[i] == if i == 0 || IsWordDelimiter(s[i - 1]) then ToUpper(s[i]) else s[i]
  {
    UcwordsFrom(s, true)
  }

  function UcwordsFrom(s: string, up: bool): (r: string)
    ensures |r| == |s|
    ensures |s| > 0 ==> r[0] == if up then ToUpper(s[0]) else s[0]
    ensures forall i :: 0 < i < |s| ==>
      r[i] == if IsWordDelimiter(s[i - 1]) then ToUpper(s[i]) else s[i]
  {
    if s == [] then []
    else
      var rest := UcwordsFrom(s[1..], IsWordDelimiter(s[0]));
      [if up then ToUpper(s[0]) else s[0]] + rest
  }

  /** `lcfirst`: the first character lower-cased. */
  function Lcfirst(s: string): (r: string)
    ensures |r| == |s|
    ensures |s| > 0 ==> r[0] == ToLower(s[0]) && r[1..] == s[1..]
  {
    if s == [] then [] else [ToLower(s[0])] + s[1..]
  }

  /** How many characters `mb_substr($s, 0, $n)` keeps of a text of `len`
      characters: the first `n`, or, for a negative `n`, all but the last
      `-n`. */
  function Kept(len: nat, n: int): nat {
    if 0 <= n then (if n < len then n else len)
    else if len + n < 0 then 0 else len + n
  }

  /** `mb_substr($s, 0, $n)`. */
  function MbPrefix(s: string, n: int): (r: string)
    ensures r <= s
    ensures |r| == Kept(|s|, n)
  {
    if 0 <= n then (if n < |s| then s[..n] else s)
    else if |s| + n < 0 then [] else s[..|s| + n]
  }

  /** `explode($sep, $s, 2)`: `s` split at the first occurrence of `sep`
      into at most two pieces. */
  function ExplodeFirst(s: string, sep: char): (r: seq<string>)
    ensures sep !in s ==> r == [s]
    ensures sep in s ==> |r| == 2 && sep !in r[0] && s == r[0] + [sep] + r[1]
  {
    if s == [] then [s]
    else if s[0] == sep then [[], s[1..]]
    else
      var rest := ExplodeFirst(s[1..], sep);
      assert s == [s[0]] + s[1..];
      if |rest| == 1 then [s] else [[s[0]] + rest[0], rest[1]]
  }

  /** `s` with every `c` removed. */
  function DropChar(s: string, c: char): (r: string)
    ensures c !in r
    ensures forall i :: 0 <= i < |r| ==> r[i] in s
  {
    if s == [] then []
    else (if s[0] == c then [] else [s[0]]) + DropChar(s[1..], c)
  }

  lemma {:induction false} DropCharNone(s: string, c: char)
    requires c !in s
    ensures DropChar(s, c) == s
    decreases |s|
  {
    if s != [] {
      DropCharNone(s[1..], c);
      assert s == [s[0]] + s[1..];
    }
  }

  lemma {:induction false} DropCharAppend(a: string, b: string, c: char)
    ensures DropChar(a + b, c) == DropChar(a, c) + DropChar(b, c)
    decreases |a|
  {
    if a == [] {
      assert a + b == b;
    } else {
      assert (a + b)[0] == a[0] && (a + b)[1..] == a[1..] + b;
      DropCharAppend(a[1..], b, c);
    }
  }

  /** Lower-casing and removing a character that is not a letter commute. */
  lemma {:induction false} DropCharLower(s: string, c: char)
    requires !IsLetter(c)
    ensures DropChar(StrToLower(s), c) == StrToLower(DropChar(s, c))
    decreases |s|
  {
    if s != [] {
      DropCharLower(s[1..], c);
      var l := StrToLower(s);
      assert l[0] == ToLower(s[0]) && l[1..] == StrToLower(s[1..]);
      assert ToLower(s[0]) == c <==> s[0] == c;
      StrToLowerAppend(if s[0] == c then [] else [s[0]], DropChar(s[1..], c));
    }
  }

  /** `str_replace` of one character by one character works position by
      position. */
  lemma {:induction false} StrReplaceCharByChar(s: string, c: char, d: char)
    ensures |StrReplace(s, [c], [d])| == |s|
    ensures forall i :: 0 <= i < |s| ==> StrReplace(s, [c], [d])[i] == if s[i] == c then d else s[i]
    decreases |s|
  {
    if s != [] {
      StrReplaceCharByChar(s[1..], c, d);
      if s[0] == c {
        assert OccursAt(s, [c], 0);
      } else {
        assert !OccursAt(s, [c], 0);
      }
    }
  }

  /** `str_replace` of one character by nothing deletes that character. */
  lemma {:induction false} StrReplaceCharByNothing(s: string, c: char)
    ensures StrReplace(s, [c], []) == DropChar(s, c)
    decreases |s|
  {
    if s != [] {
      StrReplaceCharByNothing(s[1..], c);
      if s[0] == c {
        assert OccursAt(s, [c], 0);
      } else {
        assert !OccursAt(s, [c], 0);
      }
    }
  }

  /** `preg_replace('![class]+!u', rep, s)`: every maximal run of characters
      of the class is replaced by `rep`; the other characters stay. */
  function ReplaceRuns(s: string, P: char -> bool, rep: string): (r: string)
    ensures forall i :: 0 <= i < |r| ==> r[i] in rep || (!P(r[i]) && r[i] in s)
    ensures s != [] && !P(s[0]) ==> r != [] && r[0] == s[0]
    ensures (forall i :: 0 <= i < |s| ==> !P(s[i])) ==> r == s
    ensures |rep| == 1 && P(rep[0]) ==>
      && (forall i :: 0 <= i < |r| && P(r[i]) ==> r[i] == rep[0])
      && (forall i :: 0 <= i < |r| - 1 ==> !(P(r[i]) && P(r[i + 1])))
  {
    ScanChars(s, P, rep, false);
    ScanNone(s, P, rep, false);
    ScanSingle(s, P, rep, false);
    Scan(s, P, rep, false)
  }

  /** The replacement as the pattern is matched left to right, one
      character at a time: `inRun` says that the previous character
      belonged to a run whose `rep` is already written. */
  function Scan(s: string, P: char -> bool, rep: string, inRun: bool): string {
    if s == [] then []
    else if P(s[0]) then (if inRun then [] else rep) + Scan(s[1..], P, rep, true)
    else [s[0]] + Scan(s[1..], P, rep, false)
  }

  lemma {:induction false} ScanChars(s: string, P: char -> bool, rep: string, inRun: bool)
    ensures forall i :: 0 <= i < |Scan(s, P, rep, inRun)| ==>
      Scan(s, P, rep, inRun)[i] in rep || (!P(Scan(s, P, rep, inRun)[i]) && Scan(s, P, rep, inRun)[i] in s)
    decreases |s|
  {
    if s != [] {
      var t := s[1..];
      ScanChars(t, P, rep, P(s[0]));
      var r, rt := Scan(s, P, rep, inRun), Scan(t, P, rep, P(s[0]));
      var head := if P(s[0]) then (if inRun then [] else rep) else [s[0]];
      assert r == head + rt;
      forall i | 0 <= i < |r| ensures r[i] in rep || (!P(r[i]) && r[i] in s) {
        if i >= |head| {
          assert r[i] == rt[i - |head|];
          if rt[i - |head|] !in rep {
            var j :| 0 <= j < |t| && t[j] == r[i];
            assert s[j + 1] == r[i];
          }
        }
      }
    }
  }

  lemma {:induction false} ScanNone(s: string, P: char -> bool, rep: string, inRun: bool)
    ensures s != [] && !P(s[0]) ==> Scan(s, P, rep, inRun) != [] && Scan(s, P, rep, inRun)[0] == s[0]
    ensures (forall i :: 0 <= i < |s| ==> !P(s[i])) ==> Scan(s, P, rep, inRun) == s
    decreases |s|
  {
    if s != [] {
      ScanNone(s[1..], P, rep, false);
      assert s == [s[0]] + s[1..];
    }
  }

  lemma {:induction false} ScanSingle(s: string, P: char -> bool, rep: string, inRun: bool)
    ensures |rep| == 1 && P(rep[0]) ==>
      && (forall i :: 0 <= i < |Scan(s, P, rep, inRun)| && P(Scan(s, P, rep, inRun)[i]) ==>
            Scan(s, P, rep, inRun)[i] == rep[0])
      && (forall i :: 0 <= i < |Scan(s, P, rep, inRun)| - 1 ==>
            !(P(Scan(s, P, rep, inRun)[i]) && P(Scan(s, P, rep, inRun)[i + 1])))
      && (inRun && Scan(s, P, rep, inRun) != [] ==> !P(Scan(s, P, rep, inRun)[0]))
    decreases |s|
  {
    if s != [] && |rep| == 1 && P(rep[0]) {
      var t := s[1..];
      ScanSingle(t, P, rep, P(s[0]));
      var r, rt := Scan(s, P, rep, inRun), Scan(t, P, rep, P(s[0]));
      var head := if P(s[0]) then (if inRun then [] else rep) else [s[0]];
      assert r == head + rt;
    }
  }

  /** Replacing each run by one character of the class changes nothing when
      every run already is that single character. */
  lemma ReplaceRunsSingletons(s: string, P: char -> bool, c: char)
    requires P(c)
    requires forall i :: 0 <= i < |s| && P(s[i]) ==> s[i] == c
    requires forall i :: 0 <= i < |s| - 1 ==> !(P(s[i]) && P(s[i + 1]))
    ensures ReplaceRuns(s, P, [c]) == s
  {
    ScanSingletons(s, P, c, false);
  }

  lemma {:induction false} ScanSingletons(s: string, P: char -> bool, c: char, inRun: bool)
    requires P(c)
    requires forall i :: 0 <= i < |s| && P(s[i]) ==> s[i] == c
    requires forall i :: 0 <= i < |s| - 1 ==> !(P(s[i]) && P(s[i + 1]))
    requires inRun ==> s == [] || !P(s[0])
    ensures Scan(s, P, [c], inRun) == s
    decreases |s|
  {
    if s != [] {
      ScanSingletons(s[1..], P, c, P(s[0]));
      assert s == [s[0]] + s[1..];
    }
  }

  /** A non-empty run of the class becomes exactly `rep`. */
  lemma ReplaceRunsRun(s: string, P: char -> bool, rep: string)
    requires s != [] && forall i :: 0 <= i < |s| ==> P(s[i])
    ensures ReplaceRuns(s, P, rep) == rep
  {
    ScanInRun(s[1..], P, rep);
  }

  /** Inside a run, the rest of the run adds nothing. */
  lemma {:induction false} ScanInRun(s: string, P: char -> bool, rep: string)
    requires forall i :: 0 <= i < |s| ==> P(s[i])
    ensures Scan(s, P, rep, true) == []
    decreases |s|
  {
    if s != [] {
      ScanInRun(s[1..], P, rep);
    }
  }

  /** No run reaches across a boundary with a character outside the class
      on one side, so runs are replaced piece by piece. Together with
      `ReplaceRunsRun` and the identity on text without the class, this
      fixes the result: characters outside the class are kept in order and
      each maximal run becomes `rep`. */
  lemma ReplaceRunsAppend(a: string, b: string, P: char -> bool, rep: string)
    requires a == [] || b == [] || !P(a[|a| - 1]) || !P(b[0])
    ensures ReplaceRuns(a + b, P, rep) == ReplaceRuns(a, P, rep) + ReplaceRuns(b, P, rep)
  {
    ScanAppend(a, b, P, rep, false);
    if b != [] && !P(b[0]) {
      assert Scan(b, P, rep, true) == Scan(b, P, rep, false);
    }
  }

  /** A last character outside the class stays last. */
  lemma ReplaceRunsLast(s: string, P: char -> bool, rep: string)
    requires s != [] && !P(s[|s| - 1])
    ensures ReplaceRuns(s, P, rep) != [] && ReplaceRuns(s, P, rep)[|ReplaceRuns(s, P, rep)| - 1] == s[|s| - 1]
  {
    ScanLast(s, P, rep, false);
  }

  lemma {:induction false} ScanLast(s: string, P: char -> bool, rep: string, inRun: bool)
    requires s != [] && !P(s[|s| - 1])
    ensures Scan(s, P, rep, inRun) != [] && Scan(s, P, rep, inRun)[|Scan(s, P, rep, inRun)| - 1] == s[|s| - 1]
    decreases |s|
  {
    if |s| == 1 {
      assert Scan(s, P, rep, inRun) == [s[0]] + Scan([], P, rep, false);
    } else {
      ScanLast(s[1..], P, rep, P(s[0]));
    }
  }

  /** A text with a character of the class gets the replacement. */
  lemma ReplaceRunsEmits(s: string, P: char -> bool, rep: string, i: nat)
    requires i < |s| && P(s[i])
    ensures forall k :: 0 <= k < |rep| ==> rep[k] in ReplaceRuns(s, P, rep)
  {
    ScanEmits(s, P, rep, i);
  }

  lemma {:induction false} ScanEmits(s: string, P: char -> bool, rep: string, i: nat)
    requires i < |s| && P(s[i])
    ensures forall k :: 0 <= k < |rep| ==> rep[k] in Scan(s, P, rep, false)
    decreases i
  {
    if !P(s[0]) {
      ScanEmits(s[1..], P, rep, i - 1);
      assert Scan(s, P, rep, false) == [s[0]] + Scan(s[1..], P, rep, false);
    } else {
      assert Scan(s, P, rep, false) == rep + Scan(s[1..], P, rep, true);
    }
  }

  /** Every character outside the class is kept. */
  lemma ReplaceRunsKeepsOther(s: string, P: char -> bool, rep: string, i: nat)
    requires i < |s| && !P(s[i])
    ensures s[i] in ReplaceRuns(s, P, rep)
  {
    ScanKeepsOther(s, P, rep, false, i);
  }

  lemma {:induction false} ScanKeepsOther(s: string, P: char -> bool, rep: string, inRun: bool, i: nat)
    requires i < |s| && !P(s[i])
    ensures s[i] in Scan(s, P, rep, inRun)
    decreases i
  {
    var head := if P(s[0]) then (if inRun then [] else rep) else [s[0]];
    assert Scan(s, P, rep, inRun) == head + Scan(s[1..], P, rep, P(s[0]));
    if i > 0 {
      ScanKeepsOther(s[1..], P, rep, P(s[0]), i - 1);
    }
  }

  /** Whether a scan that started in state `inRun` is inside a run after
      reading `a`. */
  function After(a: string, P: char -> bool, inRun: bool): bool {
    if a == [] then inRun else P(a[|a| - 1])
  }

  /** Scanning `a + b` is scanning `a` and then `b`, from the state in
      which `a` left the scan. */
  lemma {:induction false} ScanAppend(a: string, b: string, P: char -> bool, rep: string, inRun: bool)
    ensures Scan(a + b, P, rep, inRun) == Scan(a, P, rep, inRun) + Scan(b, P, rep, After(a, P, inRun))
    decreases |a|
  {
    if a == [] {
      assert a + b == b;
    } else {
      var t := a[1..];
      var head := if P(a[0]) then (if inRun then [] else rep) else [a[0]];
      var x, y := Scan(t, P, rep, P(a[0])), Scan(b, P, rep, After(a, P, inRun));
      assert Scan(a, P, rep, inRun) == head + x;
      assert Scan(a + b, P, rep, inRun) == head + Scan(t + b, P, rep, P(a[0])) by {
        assert (a + b)[0] == a[0] && (a + b)[1..] == t + b;
      }
      assert After(t, P, P(a[0])) == After(a, P, inRun);
      ScanAppend(t, b, P, rep, P(a[0]));
      ConcatAssoc(head, x, y);
    }
  }

  lemma ConcatAssoc(a: string, b: string, c: string)
    ensures a + (b + c) == (a + b) + c
  {
  }

  /** The characters of `s` in class `Q`, in order. */
  function Keep(s: string, Q: char -> bool): (r: string)
    ensures forall i :: 0 <= i < |r| ==> Q(r[i])
    ensures |r| <= |s|
  {
    if s == [] then [] else (if Q(s[0]) then [s[0]] else []) + Keep(s[1..], Q)
  }

  lemma {:induction false} KeepAppend(a: string, b: string, Q: char -> bool)
    ensures Keep(a + b, Q) == Keep(a, Q) + Keep(b, Q)
    decreases |a|
  {
    if a == [] {
      assert a + b == b;
    } else {
      assert (a + b)[0] == a[0] && (a + b)[1..] == a[1..] + b;
      KeepAppend(a[1..], b, Q);
    }
  }

  lemma {:induction false} KeepNone(s: string, Q: char -> bool)
    requires forall i :: 0 <= i < |s| ==> !Q(s[i])
    ensures Keep(s, Q) == []
    decreases |s|
  {
    if s != [] {
      KeepNone(s[1..], Q);
    }
  }

  /** Replacing runs of characters outside `Q` by a text without
      characters of `Q` keeps the characters of `Q`, in order. */
  lemma ReplaceRunsKeep(s: string, P: char -> bool, rep: string, Q: char -> bool)
    requires forall i :: 0 <= i < |s| && P(s[i]) ==> !Q(s[i])
    requires forall i :: 0 <= i < |rep| ==> !Q(rep[i])
    ensures Keep(ReplaceRuns(s, P, rep), Q) == Keep(s, Q)
  {
    KeepNone(rep, Q);
    ScanKeep(s, P, rep, Q, false);
  }

  lemma {:induction false} ScanKeep(s: string, P: char -> bool, rep: string, Q: char -> bool, inRun: bool)
    requires forall i :: 0 <= i < |s| && P(s[i]) ==> !Q(s[i])
    requires Keep(rep, Q) == []
    ensures Keep(Scan(s, P, rep, inRun), Q) == Keep(s, Q)
    decreases |s|
  {
    if s != [] {
      var t := s[1..];
      ScanKeep(t, P, rep, Q, P(s[0]));
      var head := if P(s[0]) then (if inRun then [] else rep) else [s[0]];
      KeepAppend(head, Scan(t, P, rep, P(s[0])), Q);
    }
  }

  /** Trimming a character outside `Q` keeps the characters of `Q`. */
  lemma TrimCharKeep(s: string, c: char, Q: char -> bool)
    requires !Q(c)
    ensures Keep(TrimChar(s, c), Q) == Keep(s, Q)
  {
    var r := TrimChar(s, c);
    var k: nat :| TrimmedAt(s, r, c, k);
    var pre, post := s[..k], s[k + |r|..];
    assert forall i :: 0 <= i < |pre| ==> pre[i] == c;
    assert forall i :: 0 <= i < |post| ==> post[i] == c by {
      forall i | 0 <= i < |post| ensures post[i] == c {
        assert post[i] == s[k + |r| + i];
      }
    }
    assert s == pre + r + post;
    KeepAround(pre, r, post, c, Q);
  }

  lemma KeepAround(pre: string, r: string, post: string, c: char, Q: char -> bool)
    requires !Q(c)
    requires forall i :: 0 <= i < |pre| ==> pre[i] == c
    requires forall i :: 0 <= i < |post| ==> post[i] == c
    ensures Keep(pre + r + post, Q) == Keep(r, Q)
  {
    KeepNone(pre, Q);
    KeepNone(post, Q);
    KeepAppend(pre + r, post, Q);
    KeepAppend(pre, r, Q);
  }

  /** Lower-casing commutes with keeping a class that lower-casing maps to
      itself. */
  lemma {:induction false} StrToLowerKeep(s: string, Q: char -> bool)
    requires forall i :: 0 <= i < |s| ==> (Q(ToLower(s[i])) <==> Q(s[i]))
    ensures Keep(StrToLower(s), Q) == StrToLower(Keep(s, Q))
    decreases |s|
  {
    if s != [] {
      StrToLowerKeep(s[1..], Q);
      var l := StrToLower(s);
      assert l[0] == ToLower(s[0]) && l[1..] == StrToLower(s[1..]);
      StrToLowerAppend(if Q(s[0]) then [s[0]] else [], Keep(s[1..], Q));
    }
  }

  /** Dropping `c` from a text of `c` and characters of `Q` keeps exactly
      the characters of `Q`. */
  lemma {:induction false} DropCharKeep(s: string, c: char, Q: char -> bool)
    requires !Q(c)
    requires forall i :: 0 <= i < |s| ==> s[i] == c || Q(s[i])
    ensures DropChar(s, c) == Keep(s, Q)
    decreases |s|
  {
    if s != [] {
      DropCharKeep(s[1..], c, Q);
    }
  }

  /** `strtolower` distributes over concatenation. */
  lemma StrToLowerAppend(a: string, b: string)
    ensures StrToLower(a + b) == StrToLower(a) + StrToLower(b)
  {
    var l, r := StrToLower(a + b), StrToLower(a) + StrToLower(b);
    assert |l| == |r|;
    forall i | 0 <= i < |l| ensures l[i] == r[i] {
      if i < |a| {
        assert (a + b)[i] == a[i];
      } else {
        assert (a + b)[i] == b[i - |a|];
      }
    }
  }

  /** The value of a decimal digit. */
  function DigitValue(c: char): (d: nat)
    requires IsDigit(c)
    ensures d < 10 && d == c as int - '0' as int
  {
    c as int - '0' as int
  }

  /** The group reference `preg_replace` reads in a replacement string at
      `i`, if any: `\n`, `$n` or `${n}` with one or two decimal digits.
      The result holds the group number and the position after the
      reference. */
  function BackRefAt(rep: string, i: nat): (r: Option<(nat, nat)>)
    requires i < |rep|
    ensures r.Some? ==> i + 2 <= r.value.1 <= |rep| && r.value.0 < 100
    ensures r.Some? ==> (rep[i] == '\\' || rep[i] == '$') && (IsDigit(rep[i + 1]) || rep[i + 1] == '{')
  {
    if rep[i] != '\\' && rep[i] != '$' then None
    else
      var brace := rep[i] == '$' && i + 1 < |rep| && rep[i + 1] == '{';
      var j := if brace then i + 2 else i + 1;
      if j >= |rep| || !IsDigit(rep[j]) then None
      else
        var two := j + 1 < |rep| && IsDigit(rep[j + 1]);
        var n := if two then 10 * DigitValue(rep[j]) + DigitValue(rep[j + 1]) else DigitValue(rep[j]);
        var k := if two then j + 2 else j + 1;
        if !brace then Some((n, k))
        else if k < |rep| && rep[k] == '}' then Some((n, k + 1))
        else None
  }

  /** The text `preg_replace` writes for one match: the replacement string
      with every group reference replaced by that group, or by nothing when
      the pattern has no such group, and a backslash that is not a
      reference escaping a following backslash or `$`. */
  function Expand(rep: string, groups: seq<string>): string {
    ExpandFrom(rep, groups, 0)
  }

  function ExpandFrom(rep: string, groups: seq<string>, i: nat): string
    requires i <= |rep|
    decreases |rep| - i
  {
    if i == |rep| then []
    else if BackRefAt(rep, i).Some? then
      var n := BackRefAt(rep, i).value.0;
      (if n < |groups| then groups[n] else []) + ExpandFrom(rep, groups, BackRefAt(rep, i).value.1)
    else if rep[i] == '\\' && i + 1 < |rep| && (rep[i + 1] == '\\' || rep[i + 1] == '$') then
      [rep[i + 1]] + ExpandFrom(rep, groups, i + 2)
    else [rep[i]] + ExpandFrom(rep, groups, i + 1)
  }

  /** A stretch of the replacement without `$` or `\\` is copied as it is. */
  lemma {:induction false} ExpandSkip(rep: string, groups: seq<string>, i: nat, j: nat)
    requires i <= j <= |rep|
    requires forall k :: i <= k < j ==> rep[k] != '$' && rep[k] != '\\'
    ensures ExpandFrom(rep, groups, i) == rep[i..j] + ExpandFrom(rep, groups, j)
    decreases j - i
  {
    if i < j {
      assert BackRefAt(rep, i).None?;
      ExpandSkip(rep, groups, i + 1, j);
      assert rep[i..j] == [rep[i]] + rep[i + 1..j];
      ConcatAssoc([rep[i]], rep[i + 1..j], ExpandFrom(rep, groups, j));
    }
  }

  /** A replacement without `$` or `\\` is written literally. */
  lemma ExpandLiteral(rep: string, groups: seq<string>)
    requires forall k :: 0 <= k < |rep| ==> rep[k] != '$' && rep[k] != '\\'
    ensures Expand(rep, groups) == rep
  {
    ExpandSkip(rep, groups, 0, |rep|);
    assert rep[0..|rep|] == rep;
  }
}
