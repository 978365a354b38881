/** The string helper class `BComp\Helper\Str`: substring predicates,
    wildcard matching, truncation, callback parsing and case conversion.
    Strings are sequences of code points; a single needle is passed as a
    one-element list, which is what PHP's `(array)` cast makes of it. */
module Str {
  import opened Wrappers
  import opened Chars
  import opened Builtins
  import Glob
  import WordMatch

  predicate IsSuffix(n: string, h: string) {
    |n| <= |h| && h[|h| - |n|..] == n
  }

  // ---------------------------------------------------------------------
  // Substring predicates
  // ---------------------------------------------------------------------

  /** `Str::contains`: some non-empty needle occurs in the haystack. */
  function Contains(haystack: string, needles: seq<string>): (r: bool)
    ensures r <==> exists i :: 0 <= i < |needles| && needles[i] != [] && Occurs(haystack, needles[i])
  {
    if needles == [] then false
    else if needles[0] != [] && IndexOf(haystack, needles[0]).Some? then true
    else
      assert forall i :: 0 < i < |needles| ==> needles[i] == needles[1..][i - 1];
      Contains(haystack, needles[1..])
  }

  /** `Str::startsWith`: some non-empty needle is a prefix of the haystack. */
  function StartsWith(haystack: string, needles: seq<string>): (r: bool)
    ensures r <==> exists i :: 0 <= i < |needles| && needles[i] != [] && needles[i] <= haystack
  {
    if needles == [] then false
    else if needles[0] != [] && IndexOf(haystack, needles[0]) == Some(0) then true
    else
      assert forall i :: 0 < i < |needles| ==> needles[i] == needles[1..][i - 1];
      StartsWith(haystack, needles[1..])
  }

  /** `Str::endsWith`: some needle is a suffix of the haystack. The empty
      needle is not excluded: it compares equal to the whole haystack, so it
      matches the empty haystack only. */
  function EndsWith(haystack: string, needles: seq<string>): (r: bool)
    ensures r <==> exists i ::
      && 0 <= i < |needles|
      && IsSuffix(needles[i], haystack)
      && (needles[i] != [] || haystack == [])
  {
    if needles == [] then false
    else if needles[0] == TailFor(haystack, needles[0]) then true
    else
      assert forall i :: 0 < i < |needles| ==> needles[i] == needles[1..][i - 1];
      EndsWith(haystack, needles[1..])
  }

  // ---------------------------------------------------------------------
  // Wildcard matching
  // ---------------------------------------------------------------------

  /** `Str::is`: the value equals the pattern, or is spelled out by the
      pattern with each `*` replaced by a run without line feeds. */
  function Is(pattern: string, value: string): (r: bool)
    ensures r <==> pattern == value || Glob.Matches(pattern, value)
  {
    Glob.RegexMatchCorrect(pattern, value);
    pattern == value || Glob.RegexMatch(pattern, value)
  }

  /** The early equality test of `Str::is` changes no answer: the compiled
      expression already matches every pattern against itself, each `*`
      standing for a literal `*`. */
  lemma {:induction false} IsShortcutRedundant(pattern: string)
    ensures Glob.RegexMatch(pattern, pattern)
    ensures Is(pattern, pattern)
    decreases |pattern|
  {
    if pattern != [] {
      IsShortcutRedundant(pattern[1..]);
      if pattern[0] == '*' {
        Glob.StarAbsorbs(pattern, "*", pattern[1..]);
        assert "*" + pattern[1..] == pattern;
      }
    }
  }

  /** A pattern without `*` matches its own text and nothing else. */
  lemma IsLiteral(pattern: string, value: string)
    requires '*' !in pattern
    ensures Is(pattern, value) <==> pattern == value
  {
    StarFree(pattern);
    Glob.MatchesLiteral(pattern, value);
  }

  lemma {:induction false} StarFree(p: string)
    requires '*' !in p
    ensures Glob.StarCount(p) == 0
    decreases |p|
  {
    if p != [] {
      assert p[0] != '*';
      assert '*' !in p[1..] by {
        forall i | 0 <= i < |p[1..]| ensures p[1..][i] != '*' {
          assert p[1..][i] == p[i + 1];
        }
      }
      StarFree(p[1..]);
    }
  }

  /** A lone `*` matches exactly the values without a line feed. */
  lemma IsStar(value: string)
    ensures Is("*", value) <==> '\n' !in value
  {
    var p := "*";
    assert Glob.StarCount(p) == 1 by {
      assert p[1..] == [];
    }
    if '\n' !in value {
      assert Glob.Instantiate(p, [value]) == value by {
        assert p[1..] == [];
        assert Glob.Instantiate(p[1..], []) == [];
        assert value + [] == value;
      }
      assert Glob.Matches(p, value);
    }
    if Glob.Matches(p, value) {
      var fills: seq<string> :|
        && |fills| == Glob.StarCount(p)
        && (forall j :: 0 <= j < |fills| ==> Glob.LineFree(fills[j]))
        && Glob.Instantiate(p, fills) == value;
      assert p[1..] == [];
      assert Glob.Instantiate(p[1..], fills[1..]) == [];
      assert value == fills[0] + [];
    }
  }

  /** A leading `*` followed by a literal matches every value that ends in
      that literal after a run without line feeds. */
  lemma IsStarThenLiteral(lit: string, pre: string)
    requires '*' !in lit
    requires '\n' !in pre
    ensures Is("*" + lit, pre + lit)
  {
    var p := "*" + lit;
    assert p[1..] == lit;
    StarFree(lit);
    Glob.InstantiateLiteral(lit);
    var fills := [pre];
    assert fills[1..] == [];
    assert Glob.Instantiate(p, fills) == pre + lit;
    assert Glob.LineFree(fills[0]);
  }

  /** `Str::is('*.php', 'myFile.php')` holds; `Str::is('php', 'myFile.php')`
      does not. */
  lemma IsExamples()
    ensures Is("*.php", "myFile.php")
    ensures !Is("php", "myFile.php")
  {
    IsStarThenLiteral(".php", "myFile");
    assert "*" + ".php" == "*.php";
    assert "myFile" + ".php" == "myFile.php";
    IsLiteral("php", "myFile.php");
  }

  // ---------------------------------------------------------------------
  // Length and truncation
  // ---------------------------------------------------------------------

  /** `Str::length`: the number of code points. */
  function Length(value: string): nat {
    |value|
  }

  /** `Str::limit`: a value of at most `limit` characters is returned as it
      is; a longer one is cut to the characters `mb_substr` keeps, stripped
      of trailing white space, and followed by `end`. */
  function Limit(value: string, limit: int, end: string): (r: string)
    ensures Length(value) <= limit ==> r == value
    ensures Length(value) > limit ==>
      && |end| <= |r| && r[|r| - |end|..] == end
      && r[..|r| - |end|] <= value
      && |r| - |end| <= Kept(|value|, limit)
      && (forall i :: |r| - |end| <= i < Kept(|value|, limit) ==> IsTrimSpace(value[i]))
      && (|r| == |end| || !IsTrimSpace(r[|r| - |end| - 1]))
    ensures 0 <= limit ==> |r| <= limit + |end|
  {
    if Length(value) <= limit then value
    else
      var body := RTrim(MbPrefix(value, limit));
      assert (body + end)[..|body|] == body;
      body + end
  }

  /** `Str::limit("abcdef", 3)` is "abc..." and `Str::limit("abc", 3)` is
      "abc". */
  lemma LimitExamples()
    ensures Limit("abcdef", 3, "...") == "abc..."
    ensures Limit("abc", 3, "...") == "abc"
  {
    assert MbPrefix("abcdef", 3) == "abc";
    assert RTrim("abc") == "abc";
  }

  /** `Str::words`: with no word, or when the first `count` words reach the
      end, the value is returned as it is; otherwise it is cut right before
      word `count + 1`, stripped of trailing white space and followed by
      `end`. A `count` of 0 or above 65535 makes the pattern invalid and
      also returns the value. */
  function Words(value: string, count: nat, end: string): (r: string)
    ensures count == 0 || count > WordMatch.MaxRepeat || WordMatch.WordCount(value) <= count ==> r == value
    ensures 0 < count <= WordMatch.MaxRepeat && count < WordMatch.WordCount(value) ==>
      exists m ::
        && 0 < m < |value|
        && WordMatch.WordsBefore(value, m) == count
        && WordMatch.WordCount(value[..m]) == count
        && IsSpace(value[m - 1]) && !IsSpace(value[m])
        && r == RTrim(value[..m]) + end
  {
    WordMatch.MatchWordsCorrect(value, count);
    match WordMatch.MatchWords(value, count)
    case None => value
    case Some(m) =>
      if m == |value| then
        assert value[..m] == value;
        value
      else
        WordMatch.CutBeforeWord(value, m);
        WordMatch.WordCountPrefix(value, m);
        RTrim(value[..m]) + end
  }

  // ---------------------------------------------------------------------
  // Callbacks
  // ---------------------------------------------------------------------

  /** `Str::parseCallback`: "Class@method" is split at its first `@`;
      without `@` the default method is paired with the whole text. */
  function ParseCallback(callback: string, default: string): (r: seq<string>)
    ensures |r| == 2
    ensures '@' in callback ==> '@' !in r[0] && r[0] + "@" + r[1] == callback
    ensures '@' !in callback ==> r == [callback, default]
  {
    OccursChar(callback, '@');
    assert "@" != [];
    if Contains(callback, ["@"]) then ExplodeFirst(callback, '@') else [callback, default]
  }

  lemma OccursChar(s: string, c: char)
    ensures Occurs(s, [c]) <==> c in s
  {
    if c in s {
      var k :| 0 <= k < |s| && s[k] == c;
      assert OccursAt(s, [c], k);
    }
    if Occurs(s, [c]) {
      var k: nat :| OccursAt(s, [c], k);
      assert s[k] == s[k..k + 1][0];
    }
  }

  /** Splitting at the first `@` is undone by joining with `@`, and joining
      a class without `@` to a method is undone by splitting. */
  lemma ParseCallbackRoundTrip(cls: string, meth: string, default: string)
    requires '@' !in cls
    ensures ParseCallback(cls + "@" + meth, default) == [cls, meth]
  {
    var s := cls + "@" + meth;
    assert s[|cls|] == '@';
    var r := ParseCallback(s, default);
    FirstSplitUnique(r[0], r[1], cls, meth);
  }

  lemma {:induction false} FirstSplitUnique(a: string, b: string, c: string, d: string)
    requires '@' !in a && '@' !in c
    requires a + "@" + b == c + "@" + d
    ensures a == c && b == d
    decreases |a|
  {
    var s := a + "@" + b;
    assert |a| == |c| by {
      assert s[|a|] == '@';
      assert s[|c|] == '@';
    }
    assert a == s[..|a|] == c;
    assert b == s[|a| + 1..] == d;
  }

  /** `Str::parseCallback('Class@methodName', 'defaultMethod')` is
      ["Class", "methodName"]; without `@` the default is used. */
  lemma ParseCallbackExamples()
    ensures ParseCallback("Class@methodName", "defaultMethod") == ["Class", "methodName"]
    ensures ParseCallback("ClassName", "defaultMethod") == ["ClassName", "defaultMethod"]
  {
    assert "Class@methodName" == "Class" + "@" + "methodName";
    ParseCallbackRoundTrip("Class", "methodName", "defaultMethod");
  }

  // ---------------------------------------------------------------------
  // Slugs
  // ---------------------------------------------------------------------

  /** The character `slug` turns into the separator: `_` when the separator
      is `-`, and `-` otherwise. */
  function Flip(sep: char): char {
    if sep == '-' then '_' else '-'
  }

  function FlipClass(sep: char): char -> bool {
    c => c == Flip(sep)
  }

  /** The characters `[^sep\pL\pN\s]` that `slug` removes. */
  function JunkClass(sep: char): char -> bool {
    c => !(c == sep || IsLetter(c) || IsDigit(c) || IsSpace(c))
  }

  /** The characters `[sep\s]` that `slug` collapses into one separator. */
  function GapClass(sep: char): char -> bool {
    c => c == sep || IsSpace(c)
  }

  /** A slug: lower-case letters and digits, in pieces joined by single
      separators, with no separator at either end. */
  predicate IsSlug(s: string, sep: char) {
    && (forall i :: 0 <= i < |s| ==> s[i] == sep || IsLower(s[i]) || IsDigit(s[i]))
    && (forall i :: 0 <= i < |s| - 1 ==> !(s[i] == sep && s[i + 1] == sep))
    && (s == [] || (s[0] != sep && s[|s| - 1] != sep))
  }

  /** `Str::slug` with a one-character separator: runs of the flipped dash
      become the separator, the text is lower-cased, everything but the
      separator, letters, digits and white space is removed, runs of
      separators and white space become one separator, and separators are
      trimmed from both ends. The result is always a slug. */
  function Slug(title: string, sep: char): (r: string)
    ensures IsSlug(r, sep)
  {
    var joined := SlugJoined(title, sep);
    TrimmedSlug(joined, TrimChar(joined, sep), sep);
    TrimChar(joined, sep)
  }

  /** The stages of `slug` before the trimming: separators, lower-case
      letters and digits, with no two separators adjacent. */
  function SlugJoined(title: string, sep: char): (joined: string)
    ensures forall i :: 0 <= i < |joined| ==> joined[i] == sep || IsLower(joined[i]) || IsDigit(joined[i])
    ensures forall i :: 0 <= i < |joined| - 1 ==> !(joined[i] == sep && joined[i + 1] == sep)
  {
    var lower := StrToLower(ReplaceRuns(title, FlipClass(sep), [sep]));
    var kept := ReplaceRuns(lower, JunkClass(sep), []);
    SlugStages(lower, sep);
    ReplaceRuns(kept, GapClass(sep), [sep])
  }

  /** What each stage of `slug` leaves: no capital after lower-casing, only
      separators, lower-case letters, digits and white space after the
      removal, and after the collapse only separators, lower-case letters
      and digits, with no two separators adjacent. */
  lemma SlugStages(lower: string, sep: char)
    requires forall i :: 0 <= i < |lower| ==> !IsUpper(lower[i])
    ensures var joined := ReplaceRuns(ReplaceRuns(lower, JunkClass(sep), []), GapClass(sep), [sep]);
      && (forall i :: 0 <= i < |joined| ==> joined[i] == sep || IsLower(joined[i]) || IsDigit(joined[i]))
      && (forall i :: 0 <= i < |joined| - 1 ==> !(joined[i] == sep && joined[i + 1] == sep))
  {
    var kept := ReplaceRuns(lower, JunkClass(sep), []);
    var joined := ReplaceRuns(kept, GapClass(sep), [sep]);
    assert forall i :: 0 <= i < |kept| ==> kept[i] == sep || IsLower(kept[i]) || IsDigit(kept[i]) || IsSpace(kept[i]) by {
      forall i | 0 <= i < |kept|
        ensures kept[i] == sep || IsLower(kept[i]) || IsDigit(kept[i]) || IsSpace(kept[i])
      {
        assert !JunkClass(sep)(kept[i]) && kept[i] in lower;
      }
    }
    forall i | 0 <= i < |joined|
      ensures joined[i] == sep || IsLower(joined[i]) || IsDigit(joined[i])
    {
      if joined[i] != sep {
        assert !GapClass(sep)(joined[i]) && joined[i] in kept;
      }
    }
  }

  /** Trimming the separator off a text without adjacent separators leaves
      a slug. */
  lemma TrimmedSlug(joined: string, r: string, sep: char)
    requires forall i :: 0 <= i < |joined| ==> joined[i] == sep || IsLower(joined[i]) || IsDigit(joined[i])
    requires forall i :: 0 <= i < |joined| - 1 ==> !(joined[i] == sep && joined[i + 1] == sep)
    requires r == TrimChar(joined, sep)
    ensures IsSlug(r, sep)
  {
    var k: nat :| TrimmedAt(joined, r, sep, k);
    forall i | 0 <= i < |r| ensures r[i] == joined[k + i] {
    }
  }

  /** A slug is its own slug, for a separator that lower-casing leaves
      alone. */
  lemma SlugFixesSlugs(y: string, sep: char)
    requires IsSlug(y, sep)
    requires !IsUpper(sep)
    ensures Slug(y, sep) == y
  {
    SlugJoinedFixesSlugs(y, sep);
  }

  lemma SlugJoinedFixesSlugs(y: string, sep: char)
    requires IsSlug(y, sep)
    requires !IsUpper(sep)
    ensures SlugJoined(y, sep) == y
  {
    assert forall i :: 0 <= i < |y| ==> !FlipClass(sep)(y[i]);
    assert ReplaceRuns(y, FlipClass(sep), [sep]) == y;
    assert StrToLower(y) == y;
    assert forall i :: 0 <= i < |y| ==> !JunkClass(sep)(y[i]);
    assert ReplaceRuns(y, JunkClass(sep), []) == y;
    forall i | 0 <= i < |y| && y[i] != sep ensures !GapClass(sep)(y[i]) {
      AlnumNotSpace(y[i]);
    }
    ReplaceRunsSingletons(y, GapClass(sep), sep);
  }

  /** Lower-casing after flipping dashes leaves only the separator and
      lower-cased characters of the title. */
  lemma LowerFlipped(title: string, sep: char)
    requires !IsUpper(sep)
    ensures var lower := StrToLower(ReplaceRuns(title, FlipClass(sep), [sep]));
      forall i :: 0 <= i < |lower| ==> lower[i] == sep || lower[i] in StrToLower(title)
  {
    var low := StrToLower(title);
    var flipped := ReplaceRuns(title, FlipClass(sep), [sep]);
    var lower := StrToLower(flipped);
    forall i | 0 <= i < |lower| ensures lower[i] == sep || lower[i] in low {
      if flipped[i] != sep {
        var j :| 0 <= j < |title| && title[j] == flipped[i];
        assert low[j] == lower[i];
      }
    }
  }

  /** Replacing runs by nothing or by the separator brings in no character
      but the separator. */
  lemma RunsFrom(s: string, P: char -> bool, rep: string, sep: char, low: string)
    requires rep == [] || rep == [sep]
    requires forall i :: 0 <= i < |s| ==> s[i] == sep || s[i] in low
    ensures forall i :: 0 <= i < |ReplaceRuns(s, P, rep)| ==>
      ReplaceRuns(s, P, rep)[i] == sep || ReplaceRuns(s, P, rep)[i] in low
  {
  }

  /** Every character of a slug other than the separator is a lower-cased
      character of the title: `slug` invents nothing. */
  lemma SlugFromTitle(title: string, sep: char)
    requires !IsUpper(sep)
    ensures forall i :: 0 <= i < |Slug(title, sep)| && Slug(title, sep)[i] != sep ==>
      Slug(title, sep)[i] in StrToLower(title)
  {
    var low := StrToLower(title);
    var lower := StrToLower(ReplaceRuns(title, FlipClass(sep), [sep]));
    LowerFlipped(title, sep);
    var kept := ReplaceRuns(lower, JunkClass(sep), []);
    RunsFrom(lower, JunkClass(sep), [], sep, low);
    var joined := ReplaceRuns(kept, GapClass(sep), [sep]);
    RunsFrom(kept, GapClass(sep), [sep], sep, low);
    assert joined == SlugJoined(title, sep);
    TrimFrom(joined, sep, low);
  }

  /** Trimming brings in no character. */
  lemma TrimFrom(joined: string, sep: char, low: string)
    requires forall i :: 0 <= i < |joined| ==> joined[i] == sep || joined[i] in low
    ensures forall i :: 0 <= i < |TrimChar(joined, sep)| && TrimChar(joined, sep)[i] != sep ==>
      TrimChar(joined, sep)[i] in low
  {
    var r := TrimChar(joined, sep);
    var k: nat :| TrimmedAt(joined, r, sep, k);
    forall i | 0 <= i < |r| && r[i] != sep ensures r[i] in low {
      assert r[i] == joined[k + i];
    }
  }

  /** `slug` keeps every letter and digit of the title, lower-cased and in
      the title's order, and adds nothing else but separators: removing
      the separators from the slug leaves exactly the lower-cased title's
      letters and digits. */
  lemma SlugKeepsAlnums(title: string, sep: char)
    requires !IsAlnum(sep)
    ensures DropChar(Slug(title, sep), sep) == Keep(StrToLower(title), IsAlnum)
  {
    var flipped := ReplaceRuns(title, FlipClass(sep), [sep]);
    var lower := StrToLower(flipped);
    var kept := ReplaceRuns(lower, JunkClass(sep), []);
    var joined := ReplaceRuns(kept, GapClass(sep), [sep]);
    assert joined == SlugJoined(title, sep);
    ReplaceRunsKeep(title, FlipClass(sep), [sep], IsAlnum);
    StrToLowerKeep(flipped, IsAlnum);
    StrToLowerKeep(title, IsAlnum);
    ReplaceRunsKeep(lower, JunkClass(sep), [], IsAlnum);
    forall i | 0 <= i < |kept| && GapClass(sep)(kept[i]) ensures !IsAlnum(kept[i]) {
      if IsAlnum(kept[i]) {
        AlnumNotSpace(kept[i]);
      }
    }
    ReplaceRunsKeep(kept, GapClass(sep), [sep], IsAlnum);
    TrimCharKeep(joined, sep, IsAlnum);
    DropCharKeep(Slug(title, sep), sep, IsAlnum);
  }

  /** `slug` is idempotent. */
  lemma SlugIdempotent(title: string, sep: char)
    requires !IsUpper(sep)
    ensures Slug(Slug(title, sep), sep) == Slug(title, sep)
  {
    SlugFixesSlugs(Slug(title, sep), sep);
  }

  // Where `slug` puts the separators: between words.

  /** A word of a title: one or more letters and digits. */
  predicate SlugWord(w: string) {
    w != [] && forall i :: 0 <= i < |w| ==> IsAlnum(w[i])
  }

  /** What stands between two words of a title: no letter or digit, and at
      least one white space, separator or flipped dash. */
  predicate WordBreak(g: string, sep: char) {
    && (forall i :: 0 <= i < |g| ==> !IsAlnum(g[i]))
    && (exists i :: 0 <= i < |g| && (g[i] == sep || g[i] == Flip(sep) || IsSpace(g[i])))
  }

  /** The words `ws` with the breaks `gs` between them. */
  function Interleave(ws: seq<string>, gs: seq<string>): (t: string)
    requires |ws| == |gs| + 1
    decreases |gs|
  {
    if gs == [] then ws[0] else ws[0] + gs[0] + Interleave(ws[1..], gs[1..])
  }

  /** The words `ws` joined by the one character `sep`. */
  function JoinWith(ws: seq<string>, sep: char): (t: string)
    requires |ws| > 0
    decreases |ws|
  {
    if |ws| == 1 then ws[0] else ws[0] + [sep] + JoinWith(ws[1..], sep)
  }

  /** Whether a letter or digit stands on either side of the boundary. */
  predicate AlnumEdge(a: string, b: string) {
    (a != [] && IsAlnum(a[|a| - 1])) || (b != [] && IsAlnum(b[0]))
  }

  /** A stage that leaves letters and digits alone splits at a boundary
      next to one, and the boundary stays next to one. */
  lemma StageSplits(a: string, b: string, P: char -> bool, rep: string)
    requires AlnumEdge(a, b)
    requires forall c :: IsAlnum(c) ==> !P(c)
    ensures ReplaceRuns(a + b, P, rep) == ReplaceRuns(a, P, rep) + ReplaceRuns(b, P, rep)
    ensures AlnumEdge(ReplaceRuns(a, P, rep), ReplaceRuns(b, P, rep))
  {
    ReplaceRunsAppend(a, b, P, rep);
    if a != [] && IsAlnum(a[|a| - 1]) {
      ReplaceRunsLast(a, P, rep);
    }
  }

  /** Lower-casing splits anywhere and keeps letters and digits. */
  lemma LowerSplits(a: string, b: string)
    requires AlnumEdge(a, b)
    ensures StrToLower(a + b) == StrToLower(a) + StrToLower(b)
    ensures AlnumEdge(StrToLower(a), StrToLower(b))
  {
    StrToLowerAppend(a, b);
  }

  /** The stages of `slug` work on the two sides of a boundary next to a
      letter or digit separately. */
  lemma SlugJoinedAppend(a: string, b: string, sep: char)
    requires !IsAlnum(sep)
    requires AlnumEdge(a, b)
    ensures SlugJoined(a + b, sep) == SlugJoined(a, sep) + SlugJoined(b, sep)
  {
    StageSplits(a, b, FlipClass(sep), [sep]);
    var fa, fb := ReplaceRuns(a, FlipClass(sep), [sep]), ReplaceRuns(b, FlipClass(sep), [sep]);
    LowerSplits(fa, fb);
    var la, lb := StrToLower(fa), StrToLower(fb);
    StageSplits(la, lb, JunkClass(sep), []);
    var ka, kb := ReplaceRuns(la, JunkClass(sep), []), ReplaceRuns(lb, JunkClass(sep), []);
    forall c | IsAlnum(c) ensures !GapClass(sep)(c) {
      AlnumNotSpace(c);
    }
    StageSplits(ka, kb, GapClass(sep), [sep]);
  }

  /** A word comes out of the stages lower-cased. */
  lemma SlugJoinedWord(w: string, sep: char)
    requires !IsAlnum(sep)
    requires SlugWord(w)
    ensures SlugJoined(w, sep) == StrToLower(w)
  {
    assert ReplaceRuns(w, FlipClass(sep), [sep]) == w;
    var l := StrToLower(w);
    assert forall i :: 0 <= i < |l| ==> IsAlnum(l[i]);
    assert ReplaceRuns(l, JunkClass(sep), []) == l;
    forall i | 0 <= i < |l| ensures !GapClass(sep)(l[i]) {
      AlnumNotSpace(l[i]);
    }
  }

  /** A break between words comes out of the stages as one separator. */
  lemma SlugJoinedBreak(g: string, sep: char)
    requires !IsAlnum(sep) && !IsUpper(sep)
    requires WordBreak(g, sep)
    ensures SlugJoined(g, sep) == [sep]
  {
    var f := ReplaceRuns(g, FlipClass(sep), [sep]);
    var i :| 0 <= i < |g| && (g[i] == sep || g[i] == Flip(sep) || IsSpace(g[i]));
    var j: nat;
    if g[i] == Flip(sep) {
      ReplaceRunsEmits(g, FlipClass(sep), [sep], i);
      j :| j < |f| && f[j] == sep;
    } else {
      ReplaceRunsKeepsOther(g, FlipClass(sep), [sep], i);
      j :| j < |f| && f[j] == g[i];
    }
    assert forall k :: 0 <= k < |f| ==> !IsAlnum(f[k]);
    var l := StrToLower(f);
    assert l == f;
    var kept := ReplaceRuns(f, JunkClass(sep), []);
    ReplaceRunsKeepsOther(f, JunkClass(sep), [], j);
    assert forall k :: 0 <= k < |kept| ==> GapClass(sep)(kept[k]);
    ReplaceRunsRun(kept, GapClass(sep), [sep]);
  }

  /** The first and last characters of words joined by a separator are
      letters or digits. */
  lemma {:induction false} JoinWithEnds(ws: seq<string>, sep: char)
    requires |ws| > 0
    requires forall k :: 0 <= k < |ws| ==> SlugWord(ws[k])
    ensures var t := JoinWith(ws, sep); t != [] && IsAlnum(t[0]) && IsAlnum(t[|t| - 1])
    decreases |ws|
  {
    if |ws| > 1 {
      JoinWithEnds(ws[1..], sep);
    }
  }

  /** The stages of `slug` turn words with breaks between them into the
      lower-cased words joined by single separators. */
  lemma {:induction false} SlugJoinedWords(ws: seq<string>, gs: seq<string>, sep: char)
    requires !IsAlnum(sep) && !IsUpper(sep)
    requires |ws| == |gs| + 1
    requires forall k :: 0 <= k < |ws| ==> SlugWord(ws[k])
    requires forall k :: 0 <= k < |gs| ==> WordBreak(gs[k], sep)
    ensures SlugJoined(Interleave(ws, gs), sep) == StrToLower(JoinWith(ws, sep))
    decreases |gs|
  {
    if gs == [] {
      SlugJoinedWord(ws[0], sep);
    } else {
      InterleaveStarts(ws[1..], gs[1..]);
      SlugJoinedStep(ws[0], gs[0], Interleave(ws[1..], gs[1..]), sep);
      SlugJoinedWords(ws[1..], gs[1..], sep);
      LowerJoinStep(ws, sep);
    }
  }

  /** A word and a break in front of more words. */
  lemma SlugJoinedStep(w: string, g: string, rest: string, sep: char)
    requires !IsAlnum(sep) && !IsUpper(sep)
    requires SlugWord(w) && WordBreak(g, sep)
    requires rest != [] && IsAlnum(rest[0])
    ensures SlugJoined(w + g + rest, sep) == StrToLower(w) + [sep] + SlugJoined(rest, sep)
  {
    SlugJoinedAppend(w + g, rest, sep);
    SlugJoinedAppend(w, g, sep);
    SlugJoinedWord(w, sep);
    SlugJoinedBreak(g, sep);
  }

  lemma InterleaveStarts(ws: seq<string>, gs: seq<string>)
    requires |ws| == |gs| + 1 && ws[0] != []
    ensures Interleave(ws, gs) != [] && Interleave(ws, gs)[0] == ws[0][0]
  {
  }

  lemma LowerJoinStep(ws: seq<string>, sep: char)
    requires |ws| > 1 && !IsUpper(sep)
    ensures StrToLower(JoinWith(ws, sep)) == StrToLower(ws[0]) + [sep] + StrToLower(JoinWith(ws[1..], sep))
  {
    StrToLowerAppend(ws[0] + [sep], JoinWith(ws[1..], sep));
    StrToLowerAppend(ws[0], [sep]);
    assert StrToLower([sep]) == [sep];
  }

  /** `slug` turns words of letters and digits with breaks between them into
      the lower-cased words joined by single separators: one separator per
      break, none at either end. */
  lemma SlugWords(ws: seq<string>, gs: seq<string>, sep: char)
    requires !IsAlnum(sep) && !IsUpper(sep)
    requires |ws| == |gs| + 1
    requires forall k :: 0 <= k < |ws| ==> SlugWord(ws[k])
    requires forall k :: 0 <= k < |gs| ==> WordBreak(gs[k], sep)
    ensures Slug(Interleave(ws, gs), sep) == StrToLower(JoinWith(ws, sep))
  {
    SlugJoinedWords(ws, gs, sep);
    var t := StrToLower(JoinWith(ws, sep));
    JoinWithEnds(ws, sep);
    assert t[0] != sep && t[|t| - 1] != sep;
  }

  /** Two words with a space between them: `a b` becomes `a-b`. */
  lemma SlugTwoWords(a: string, b: string, sep: char)
    requires !IsAlnum(sep) && !IsUpper(sep)
    requires SlugWord(a) && SlugWord(b)
    ensures Slug(a + " " + b, sep) == StrToLower(a) + [sep] + StrToLower(b)
  {
    assert WordBreak(" ", sep) by {
      assert IsSpace(" "[0]);
    }
    assert Interleave([a, b], [" "]) == a + " " + b;
    SlugWords([a, b], [" "], sep);
    assert JoinWith([a, b], sep) == a + [sep] + b;
    StrToLowerAppend(a + [sep], b);
    StrToLowerAppend(a, [sep]);
    assert StrToLower([sep]) == [sep];
  }

  /** `SlugWords` for a title given by its words and breaks. */
  lemma SlugWordsTo(title: string, ws: seq<string>, gs: seq<string>, sep: char, slug: string)
    requires !IsAlnum(sep) && !IsUpper(sep)
    requires |ws| == |gs| + 1
    requires forall k :: 0 <= k < |ws| ==> SlugWord(ws[k])
    requires forall k :: 0 <= k < |gs| ==> WordBreak(gs[k], sep)
    requires Interleave(ws, gs) == title
    requires StrToLower(JoinWith(ws, sep)) == slug
    ensures Slug(title, sep) == slug
  {
    SlugWords(ws, gs, sep);
  }

  /** The words and breaks of the documented title. */
  const TitleWords: seq<string> := ["mr", "ganesha", "this", "is", "a", "title"]
  const TitleBreaks: seq<string> := [". ", ", ", " ", " ", " "]

  /** The documented example, and `a  b_c` with `-`. */
  lemma SlugExample()
    ensures Slug("mr. ganesha, this is a title", '-') == "mr-ganesha-this-is-a-title"
    ensures Slug("a  b_c", '-') == "a-b-c"
  {
    TitleParts();
    TitleInterleave();
    TitleSlug();
    SlugWordsTo("mr. ganesha, this is a title", TitleWords, TitleBreaks, '-', "mr-ganesha-this-is-a-title");
    GapParts();
    SlugWordsTo("a  b_c", ["a", "b", "c"], ["  ", "_"], '-', "a-b-c");
  }

  lemma TitleParts()
    ensures |TitleWords| == |TitleBreaks| + 1
    ensures forall k :: 0 <= k < |TitleWords| ==> SlugWord(TitleWords[k])
    ensures forall k :: 0 <= k < |TitleBreaks| ==> WordBreak(TitleBreaks[k], '-')
  {
    forall k | 0 <= k < |TitleBreaks| ensures WordBreak(TitleBreaks[k], '-') {
      assert IsSpace(TitleBreaks[k][|TitleBreaks[k]| - 1]);
    }
  }

  lemma TitleInterleave()
    ensures Interleave(TitleWords, TitleBreaks) == "mr. ganesha, this is a title"
  {
    TitleInterleaveHead();
    TitleInterleaveTail();
    assert "mr. " + "ganesha, " + "this is a title" == "mr. ganesha, this is a title";
  }

  lemma TitleInterleaveHead()
    ensures Interleave(TitleWords, TitleBreaks)
      == "mr. " + "ganesha, " + Interleave(["this", "is", "a", "title"], [" ", " ", " "])
  {
    assert TitleWords[1..][1..] == ["this", "is", "a", "title"];
    assert TitleBreaks[1..][1..] == [" ", " ", " "];
  }

  lemma TitleInterleaveTail()
    ensures Interleave(["this", "is", "a", "title"], [" ", " ", " "]) == "this is a title"
  {
    assert Interleave(["a", "title"], [" "]) == "a title";
  }

  lemma TitleSlug()
    ensures StrToLower(JoinWith(TitleWords, '-')) == "mr-ganesha-this-is-a-title"
  {
    TitleJoin();
    assert forall k :: 0 <= k < |TitleWords| ==> NoCapitals(TitleWords[k]);
    LowerJoinFixes(TitleWords, '-');
  }

  lemma TitleJoin()
    ensures JoinWith(TitleWords, '-') == "mr-ganesha-this-is-a-title"
  {
    TitleJoinTail();
    assert TitleWords[2..] == ["this", "is", "a", "title"];
  }

  lemma TitleJoinTail()
    ensures JoinWith(["this", "is", "a", "title"], '-') == "this-is-a-title"
  {
    assert JoinWith(["a", "title"], '-') == "a-title";
  }

  predicate NoCapitals(w: string) {
    forall i :: 0 <= i < |w| ==> !IsUpper(w[i])
  }

  /** Words without capitals, joined by a separator that is not one, are
      their own lower case. */
  lemma {:induction false} LowerJoinFixes(ws: seq<string>, sep: char)
    requires |ws| > 0 && !IsUpper(sep)
    requires forall k :: 0 <= k < |ws| ==> NoCapitals(ws[k])
    ensures StrToLower(JoinWith(ws, sep)) == JoinWith(ws, sep)
    decreases |ws|
  {
    assert StrToLower(ws[0]) == ws[0];
    if |ws| > 1 {
      LowerJoinStep(ws, sep);
      LowerJoinFixes(ws[1..], sep);
    }
  }

  lemma GapParts()
    ensures forall k :: 0 <= k < 3 ==> SlugWord(["a", "b", "c"][k])
    ensures forall k :: 0 <= k < 2 ==> WordBreak(["  ", "_"][k], '-')
    ensures Interleave(["a", "b", "c"], ["  ", "_"]) == "a  b_c"
    ensures StrToLower(JoinWith(["a", "b", "c"], '-')) == "a-b-c"
  {
    GapBreaks();
    GapInterleave();
    GapJoin();
  }

  lemma GapInterleave()
    ensures Interleave(["a", "b", "c"], ["  ", "_"]) == "a  b_c"
  {
    assert Interleave(["b", "c"], ["_"]) == "b_c";
  }

  lemma GapJoin()
    ensures StrToLower(JoinWith(["a", "b", "c"], '-')) == "a-b-c"
  {
    assert JoinWith(["b", "c"], '-') == "b-c";
    assert JoinWith(["a", "b", "c"], '-') == "a-b-c";
  }

  lemma GapBreaks()
    ensures WordBreak("  ", '-') && WordBreak("_", '-')
  {
    assert IsSpace("  "[0]);
    assert "_"[0] == Flip('-');
  }

  // ---------------------------------------------------------------------
  // Case conversion
  // ---------------------------------------------------------------------

  /** The characters `studly` turns into word breaks and removes. */
  predicate IsBreak(c: char) {
    c == '-' || c == '_' || c == ' '
  }

  /** Studly caps, character by character: breaks are dropped, and a kept
      character is upper-cased when it comes first (`up`), after a break, or
      after another word delimiter of `ucwords`. */
  function StudlyWords(s: string, up: bool): (r: string)
    ensures forall i :: 0 <= i < |r| ==> !IsBreak(r[i])
  {
    if s == [] then []
    else if IsBreak(s[0]) then StudlyWords(s[1..], true)
    else [if up then ToUpper(s[0]) else s[0]] + StudlyWords(s[1..], IsWordDelimiter(s[0]))
  }

  /** Whether `StudlyWords` upper-cases the character that follows `a`. */
  function UpAfter(a: string, up: bool): bool {
    if a == [] then up else IsBreak(a[|a| - 1]) || IsWordDelimiter(a[|a| - 1])
  }

  lemma {:induction false} StudlyWordsAppend(a: string, b: string, up: bool)
    ensures StudlyWords(a + b, up) == StudlyWords(a, up) + StudlyWords(b, UpAfter(a, up))
    decreases |a|
  {
    if a == [] {
      assert a + b == b;
    } else {
      assert (a + b)[1..] == a[1..] + b;
      var next := IsBreak(a[0]) || IsWordDelimiter(a[0]);
      StudlyWordsAppend(a[1..], b, next);
      if IsBreak(a[0]) {
        assert StudlyWords(a + b, up) == StudlyWords(a[1..] + b, next);
      } else {
        assert StudlyWords(a + b, up) == [if up then ToUpper(a[0]) else a[0]] + StudlyWords(a[1..] + b, next);
      }
    }
  }

  /** `Str::studly`: dashes and underscores become spaces, `ucwords` capitalises
      every word, and the spaces are removed. The result has no dash,
      underscore or space and is the character-by-character conversion
      `StudlyWords`. */
  function Studly(value: string): (r: string)
    ensures forall i :: 0 <= i < |r| ==> !IsBreak(r[i])
    ensures r == StudlyWords(value, true)
  {
    var spaced := StrReplace(StrReplace(value, "-", " "), "_", " ");
    SpacedBreaks(value);
    StrReplaceCharByNothing(Ucwords(spaced), ' ');
    StudlyStages(value, true);
    StrReplace(Ucwords(spaced), " ", "")
  }

  /** The first stage of `studly`, character by character. */
  function SpaceBreaks(s: string): (r: string)
    ensures |r| == |s|
    ensures forall i :: 0 <= i < |s| ==> r[i] == if s[i] == '-' || s[i] == '_' then ' ' else s[i]
  {
    if s == [] then [] else [if s[0] == '-' || s[0] == '_' then ' ' else s[0]] + SpaceBreaks(s[1..])
  }

  lemma SpacedBreaks(s: string)
    ensures StrReplace(StrReplace(s, "-", " "), "_", " ") == SpaceBreaks(s)
  {
    var a := StrReplace(s, "-", " ");
    StrReplaceCharByChar(s, '-', ' ');
    StrReplaceCharByChar(a, '_', ' ');
  }

  lemma {:induction false} StudlyStages(s: string, up: bool)
    ensures DropChar(UcwordsFrom(SpaceBreaks(s), up), ' ') == StudlyWords(s, up)
    decreases |s|
  {
    if s != [] {
      var b := SpaceBreaks(s);
      assert b[1..] == SpaceBreaks(s[1..]);
      var u := UcwordsFrom(b, up);
      var next := IsWordDelimiter(b[0]);
      assert u == [u[0]] + UcwordsFrom(b[1..], next);
      assert u[1..] == UcwordsFrom(b[1..], next);
      StudlyStages(s[1..], next);
      assert u[0] == ' ' <==> IsBreak(s[0]);
    }
  }

  /** `Str::camel`: the studly form with its first character lower-cased. */
  function Camel(value: string): (r: string)
    ensures |r| == |Studly(value)|
    ensures forall i :: 0 <= i < |r| ==> !IsBreak(r[i])
    ensures r != [] ==> !IsUpper(r[0]) && r[1..] == Studly(value)[1..]
    ensures r != [] ==> r[0] == ToLower(Studly(value)[0])
  {
    Lcfirst(Studly(value))
  }

  /** A word of lower-case letters and digits is kept, with its first
      character upper-cased when `up`. */
  lemma {:induction false} StudlyPlainWord(w: string, up: bool)
    requires forall i :: 0 <= i < |w| ==> IsLower(w[i]) || IsDigit(w[i])
    ensures StudlyWords(w, up) == if w == [] then [] else [if up then ToUpper(w[0]) else w[0]] + w[1..]
    decreases |w|
  {
    if w != [] {
      StudlyPlainWord(w[1..], false);
      if |w| > 1 {
        assert w[1..] == [w[1]] + w[2..];
      }
    }
  }

  /** A leading word followed by an underscore is capitalised and the
      underscore dropped. */
  lemma StudlyLeadingWord(w: string, rest: string)
    requires w != []
    requires forall i :: 0 <= i < |w| ==> IsLower(w[i]) || IsDigit(w[i])
    ensures StudlyWords(w + "_" + rest, true) == [ToUpper(w[0])] + w[1..] + StudlyWords(rest, true)
  {
    var head := w + "_";
    StudlyPlainWord(w, true);
    StudlyWordsAppend(w, "_", true);
    assert StudlyWords("_", UpAfter(w, true)) == [];
    assert StudlyWords(head, true) == [ToUpper(w[0])] + w[1..];
    StudlyWordsAppend(head, rest, true);
    assert head[|head| - 1] == '_';
    assert UpAfter(head, true);
  }

  /** Two words of lower-case letters and digits joined by an underscore
      become the two words capitalised, without the underscore. */
  lemma StudlyTwoWords(a: string, b: string)
    requires a != [] && b != []
    requires forall i :: 0 <= i < |a| ==> IsLower(a[i]) || IsDigit(a[i])
    requires forall i :: 0 <= i < |b| ==> IsLower(b[i]) || IsDigit(b[i])
    ensures Studly(a + "_" + b) == [ToUpper(a[0])] + a[1..] + [ToUpper(b[0])] + b[1..]
  {
    StudlyPlainWord(b, true);
    StudlyLeadingWord(a, b);
  }

  /** The camel form of the same: only the second word is capitalised. */
  lemma CamelTwoWords(a: string, b: string)
    requires a != [] && b != []
    requires forall i :: 0 <= i < |a| ==> IsLower(a[i]) || IsDigit(a[i])
    requires forall i :: 0 <= i < |b| ==> IsLower(b[i]) || IsDigit(b[i])
    ensures Camel(a + "_" + b) == a + [ToUpper(b[0])] + b[1..]
  {
    StudlyTwoWords(a, b);
    var st := Studly(a + "_" + b);
    assert ToLower(st[0]) == a[0];
    assert a == [a[0]] + a[1..];
  }

  /** `Str::studly('snake_case')` is "SnakeCase". */
  lemma StudlyExample()
    ensures Studly("snake_case") == "SnakeCase"
  {
    var a, b := "snake", "case";
    StudlyTwoWords(a, b);
    assert a + "_" + b == "snake_case";
    assert [ToUpper(a[0])] + a[1..] + [ToUpper(b[0])] + b[1..] == "SnakeCase";
  }

  /** `Str::camel('my_method')` is "myMethod". */
  lemma CamelExample()
    ensures Camel("my_method") == "myMethod"
  {
    var a, b := "my", "method";
    CamelTwoWords(a, b);
    assert a + "_" + b == "my_method";
    assert a + [ToUpper(b[0])] + b[1..] == "myMethod";
  }

  /** `preg_replace('/(.)([A-Z])/', rep, s)`: scanning left to right, a
      character other than a line feed followed by a capital is replaced,
      together with the capital, by `rep` read with the match as groups,
      and the scan resumes after the capital. */
  function SplitCapitals(s: string, rep: string): string
    decreases |s|
  {
    if |s| < 2 then s
    else if s[0] != '\n' && IsUpper(s[1]) then Expand(rep, PairGroups(s[0], s[1])) + SplitCapitals(s[2..], rep)
    else [s[0]] + SplitCapitals(s[1..], rep)
  }

  /** The groups of a match of `/(.)([A-Z])/`: the whole match, then the
      character, then the capital. */
  function PairGroups(a: char, b: char): seq<string> {
    [[a, b], [a], [b]]
  }

  /** The replacement `'$1' . $delimiter . '$2'` that `snake` builds. */
  function SnakeTemplate(d: string): string {
    "$1" + d + "$2"
  }

  /** A delimiter that `preg_replace` copies as text out of `SnakeTemplate`:
      it holds no `$` or backslash, and it does not start with a digit that
      would make `$1` a two-digit group reference. */
  predicate LiteralDelimiter(d: string) {
    && (forall i :: 0 <= i < |d| ==> d[i] != '$' && d[i] != '\\')
    && (d == [] || !IsDigit(d[0]))
  }

  /** Whether the replacement `rep` writes every match back as the
      character, `d` and the capital. */
  predicate WritesPairs(rep: string, d: string) {
    forall a, b :: Expand(rep, PairGroups(a, b)) == [a] + d + [b]
  }

  lemma SnakeTemplateWrites(d: string)
    requires LiteralDelimiter(d)
    ensures WritesPairs(SnakeTemplate(d), d)
  {
    forall a, b ensures Expand(SnakeTemplate(d), PairGroups(a, b)) == [a] + d + [b] {
      SnakeTemplateExpand(d, a, b);
    }
  }

  /** For such a delimiter, each match is written back as the character,
      the delimiter and the capital. */
  lemma SnakeTemplateExpand(d: string, a: char, b: char)
    requires LiteralDelimiter(d)
    ensures Expand(SnakeTemplate(d), PairGroups(a, b)) == [a] + d + [b]
  {
    var rep, g := SnakeTemplate(d), PairGroups(a, b);
    var n := |d| + 2;
    assert rep[0] == '$' && rep[1] == '1' && rep[n] == '$' && rep[n + 1] == '2';
    assert BackRefAt(rep, 0) == Some((1, 2)) by {
      assert !IsDigit(rep[2]) by {
        if d != [] {
          assert rep[2] == d[0];
        }
      }
    }
    assert ExpandFrom(rep, g, 0) == [a] + ExpandFrom(rep, g, 2);
    ExpandSkip(rep, g, 2, n) by {
      forall k | 2 <= k < n ensures rep[k] != '$' && rep[k] != '\\' {
        assert rep[k] == d[k - 2];
      }
    }
    assert rep[2..n] == d;
    assert BackRefAt(rep, n) == Some((2, n + 2));
    assert ExpandFrom(rep, g, n) == [b] + ExpandFrom(rep, g, n + 2);
  }

  /** Whether the left-to-right scan of `SplitCapitals` pairs `s[i]` with
      the capital `s[i + 1]`: `s[i]` is not a line feed, `s[i + 1]` is a
      capital, and `s[i]` was not itself taken as the capital of the pair
      before it. */
  predicate PairAt(s: string, i: nat)
    decreases i
  {
    i + 1 < |s| && s[i] != '\n' && IsUpper(s[i + 1]) && !(i > 0 && PairAt(s, i - 1))
  }

  /** `s` from position `i` on, with `d` after every character the scan
      pairs with a capital: the result of `SplitCapitals` stated position by
      position. */
  function Spliced(s: string, d: string, i: nat): string
    requires i <= |s|
    decreases |s| - i
  {
    if i == |s| then [] else [s[i]] + (if PairAt(s, i) then d else []) + Spliced(s, d, i + 1)
  }

  /** With a delimiter it copies as text, `snake`'s replacement keeps every
      character of `s` in order and puts the delimiter exactly between the
      pairs its scan takes. */
  lemma SplitCapitalsSpliced(s: string, d: string)
    ensures LiteralDelimiter(d) ==> SplitCapitals(s, SnakeTemplate(d)) == Spliced(s, d, 0)
  {
    if LiteralDelimiter(d) {
      SnakeTemplateWrites(d);
      SplitCapitalsFrom(s, SnakeTemplate(d), d, 0);
    }
  }

  lemma {:induction false} SplitCapitalsFrom(s: string, rep: string, d: string, p: nat)
    requires WritesPairs(rep, d)
    requires p <= |s| && (p == 0 || !PairAt(s, p - 1))
    ensures SplitCapitals(s[p..], rep) == Spliced(s, d, p)
    decreases |s| - p
  {
    if p + 1 == |s| {
      assert Spliced(s, d, p) == [s[p]] + Spliced(s, d, p + 1);
    } else if p + 1 < |s| {
      if PairAt(s, p) {
        SplitCapitalsFrom(s, rep, d, p + 2);
        SplitCapitalsPair(s, rep, d, p);
      } else {
        SplitCapitalsFrom(s, rep, d, p + 1);
        SplitCapitalsSingle(s, rep, d, p);
      }
    }
  }

  /** A paired character and its capital come out with `d` between them. */
  lemma SplitCapitalsPair(s: string, rep: string, d: string, p: nat)
    requires WritesPairs(rep, d)
    requires p + 1 < |s| && PairAt(s, p)
    requires SplitCapitals(s[p + 2..], rep) == Spliced(s, d, p + 2)
    ensures SplitCapitals(s[p..], rep) == Spliced(s, d, p)
  {
    var t, rest := s[p..], Spliced(s, d, p + 2);
    assert SplitCapitals(t, rep) == [s[p]] + d + [s[p + 1]] + rest by {
      assert t[2..] == s[p + 2..];
    }
    assert Spliced(s, d, p + 1) == [s[p + 1]] + rest by {
      assert !PairAt(s, p + 1);
    }
    ConcatAssoc([s[p]] + d, [s[p + 1]], rest);
  }

  /** A character the scan does not pair comes out alone. */
  lemma SplitCapitalsSingle(s: string, rep: string, d: string, p: nat)
    requires p + 1 < |s| && !PairAt(s, p) && (p == 0 || !PairAt(s, p - 1))
    requires SplitCapitals(s[p + 1..], rep) == Spliced(s, d, p + 1)
    ensures SplitCapitals(s[p..], rep) == Spliced(s, d, p)
  {
    var t := s[p..];
    assert SplitCapitals(t, rep) == [s[p]] + SplitCapitals(s[p + 1..], rep) by {
      assert t[0] == s[p] && t[1] == s[p + 1] && t[1..] == s[p + 1..];
      assert !(t[0] != '\n' && IsUpper(t[1]));
    }
    assert Spliced(s, d, p) == [s[p]] + [] + Spliced(s, d, p + 1);
    assert [s[p]] + [] == [s[p]];
  }

  /** With a one-character delimiter that `s` does not hold, removing the
      delimiter from the split gives `s` back. */
  lemma {:induction false} SplicedDrop(s: string, c: char, p: nat)
    requires p <= |s| && c !in s
    ensures DropChar(Spliced(s, [c], p), c) == s[p..]
    decreases |s| - p
  {
    if p < |s| {
      var rest := Spliced(s, [c], p + 1);
      assert DropChar(Spliced(s, [c], p), c) == [s[p]] + DropChar(rest, c) by {
        var mid: string := if PairAt(s, p) then [c] else [];
        assert Spliced(s, [c], p) == [s[p]] + mid + rest;
        DropCharAppend([s[p]] + mid, rest, c);
        DropCharAppend([s[p]], mid, c);
        assert DropChar([s[p]], c) == [s[p]] by {
          assert s[p] != c;
        }
        assert DropChar(mid, c) == [];
      }
      assert DropChar(rest, c) == s[p + 1..] by {
        SplicedDrop(s, c, p + 1);
      }
      assert s[p..] == [s[p]] + s[p + 1..];
    }
  }

  /** `Str::snake`: a non-empty all-lower-case value is returned as it is;
      otherwise each pair the scan takes is rewritten by the replacement
      `'$1' . $delimiter . '$2'` and everything is lower-cased, so no capital
      remains. For a delimiter copied as text, every character of the value
      is kept in order and the delimiter is put after each character the
      scan pairs with a following capital. */
  function Snake(value: string, delimiter: string): (r: string)
    ensures CtypeLower(value) ==> r == value
    ensures !CtypeLower(value) && LiteralDelimiter(delimiter) ==>
      r == StrToLower(Spliced(value, delimiter, 0))
    ensures forall i :: 0 <= i < |r| ==> !IsUpper(r[i])
  {
    SplitCapitalsSpliced(value, delimiter);
    if CtypeLower(value) then value else StrToLower(SplitCapitals(value, SnakeTemplate(delimiter)))
  }

  /** A digit as delimiter is read as part of a group reference: for
      `snake('fooBar', '1')` the replacement is `$11$2`, group 11 does not
      exist, so the pair "oB" becomes "B" and the result is "fobar". */
  lemma SnakeDigitDelimiter()
    ensures Snake("fooBar", "1") == "fobar"
  {
    assert !CtypeLower("fooBar") by {
      assert !IsLower("fooBar"[3]);
    }
    SplitDigitDelimiter();
    assert StrToLower("foBar") == "fobar";
  }

  lemma SplitDigitDelimiter()
    ensures SplitCapitals("fooBar", SnakeTemplate("1")) == "foBar"
  {
    var rep := SnakeTemplate("1");
    ExpandDigitDelimiter();
    assert "fooBar"[2..] == "oBar" && "oBar"[2..] == "ar";
    assert SplitCapitals("ar", rep) == "ar";
  }

  lemma ExpandDigitDelimiter()
    ensures Expand(SnakeTemplate("1"), PairGroups('o', 'B')) == "B"
  {
    var rep := SnakeTemplate("1");
    assert rep == "$11$2";
    assert BackRefAt(rep, 0) == Some((11, 3));
    assert BackRefAt(rep, 3) == Some((2, 5));
    assert ExpandFrom(rep, PairGroups('o', 'B'), 3) == "B";
  }


  /** Removing a one-character delimiter that is not a letter and does not
      occur in the value from the snake-cased value leaves the value
      lower-cased: `snake` only inserts delimiters and lower-cases. */
  lemma SnakeDropDelimiter(value: string, c: char)
    requires !IsAlnum(c) && c != '$' && c != '\\' && c !in value
    ensures DropChar(Snake(value, [c]), c) == StrToLower(value)
  {
    if !CtypeLower(value) {
      assert LiteralDelimiter([c]);
      assert Snake(value, [c]) == StrToLower(Spliced(value, [c], 0));
      SplicedDrop(value, c, 0);
      DropCharLower(Spliced(value, [c], 0), c);
    } else {
      assert StrToLower(value) == value;
      DropCharNone(value, c);
    }
  }

  /** Inserting `d` before every capital that follows a character other
      than a line feed (`afterChar` says whether the character before `s`
      is one), which is what a look-ahead `(.)(?=[A-Z])` does. */
  function SplitBeforeCapitals(s: string, d: string, afterChar: bool): string
    decreases |s|
  {
    if s == [] then []
    else (if afterChar && IsUpper(s[0]) then d else []) + [s[0]] + SplitBeforeCapitals(s[1..], d, s[0] != '\n')
  }

  /** `snake` with the capital left unconsumed: every capital after the
      first character is preceded by the delimiter, also inside a run of
      capitals. */
  function SnakeLookahead(value: string, delimiter: string): (r: string)
    ensures CtypeLower(value) ==> r == value
    ensures forall i :: 0 <= i < |r| ==> !IsUpper(r[i])
  {
    if CtypeLower(value) then value else StrToLower(SplitBeforeCapitals(value, delimiter, false))
  }

  /** No two capitals stand next to each other. */
  predicate NoAdjacentCapitals(s: string) {
    forall i :: 0 <= i < |s| - 1 ==> !(IsUpper(s[i]) && IsUpper(s[i + 1]))
  }

  lemma {:induction false} SplitBeforeNonCapital(s: string, d: string)
    requires s == [] || !IsUpper(s[0])
    ensures SplitBeforeCapitals(s, d, true) == SplitBeforeCapitals(s, d, false)
  {
  }

  lemma NoAdjacentCapitalsDrop(s: string, k: nat)
    requires NoAdjacentCapitals(s) && k <= |s|
    ensures NoAdjacentCapitals(s[k..])
  {
    var t := s[k..];
    forall i | 0 <= i < |t| - 1 ensures !(IsUpper(t[i]) && IsUpper(t[i + 1])) {
      assert t[i] == s[i + k] && t[i + 1] == s[i + k + 1];
    }
  }

  /** Where no two capitals are adjacent, consuming the capital makes no
      difference: `snake` as written and the look-ahead form agree. */
  lemma SplitCapitalsAgree(s: string, d: string)
    requires LiteralDelimiter(d) && NoAdjacentCapitals(s)
    ensures SplitCapitals(s, SnakeTemplate(d)) == SplitBeforeCapitals(s, d, false)
  {
    SnakeTemplateWrites(d);
    SplitCapitalsAgreeWith(s, SnakeTemplate(d), d);
  }

  lemma {:induction false} SplitCapitalsAgreeWith(s: string, rep: string, d: string)
    requires WritesPairs(rep, d) && NoAdjacentCapitals(s)
    ensures SplitCapitals(s, rep) == SplitBeforeCapitals(s, d, false)
    decreases |s|
  {
    if |s| == 1 {
      assert s[1..] == [];
    } else if |s| >= 2 {
      if s[0] != '\n' && IsUpper(s[1]) {
        NoAdjacentCapitalsDrop(s, 2);
        SplitCapitalsAgreeWith(s[2..], rep, d);
        SplitCapitalsAgreePair(s, rep, d);
      } else {
        NoAdjacentCapitalsDrop(s, 1);
        SplitCapitalsAgreeWith(s[1..], rep, d);
        SplitCapitalsSingleStep(s, rep);
        SplitBeforeSingleStep(s, d);
      }
    }
  }

  lemma SplitCapitalsSingleStep(s: string, rep: string)
    requires |s| >= 2 && !(s[0] != '\n' && IsUpper(s[1]))
    ensures SplitCapitals(s, rep) == [s[0]] + SplitCapitals(s[1..], rep)
  {
  }

  lemma SplitBeforeSingleStep(s: string, d: string)
    requires |s| >= 2 && !(s[0] != '\n' && IsUpper(s[1]))
    ensures SplitBeforeCapitals(s, d, false) == [s[0]] + SplitBeforeCapitals(s[1..], d, false)
  {
    if s[0] != '\n' {
      SplitBeforeNonCapital(s[1..], d);
    }
  }

  /** The step of `SplitCapitalsAgreeWith` at a taken pair. */
  lemma SplitCapitalsAgreePair(s: string, rep: string, d: string)
    requires WritesPairs(rep, d) && NoAdjacentCapitals(s)
    requires |s| >= 2 && s[0] != '\n' && IsUpper(s[1])
    requires SplitCapitals(s[2..], rep) == SplitBeforeCapitals(s[2..], d, false)
    ensures SplitCapitals(s, rep) == SplitBeforeCapitals(s, d, false)
  {
    SplitCapitalsPairStep(s, rep, d);
    SplitBeforePairStep(s, d);
  }

  lemma SplitCapitalsPairStep(s: string, rep: string, d: string)
    requires WritesPairs(rep, d)
    requires |s| >= 2 && s[0] != '\n' && IsUpper(s[1])
    ensures SplitCapitals(s, rep) == [s[0]] + d + [s[1]] + SplitCapitals(s[2..], rep)
  {
    assert Expand(rep, PairGroups(s[0], s[1])) == [s[0]] + d + [s[1]];
  }

  lemma SplitBeforePairStep(s: string, d: string)
    requires NoAdjacentCapitals(s)
    requires |s| >= 2 && s[0] != '\n' && IsUpper(s[1])
    ensures SplitBeforeCapitals(s, d, false) == [s[0]] + d + [s[1]] + SplitBeforeCapitals(s[2..], d, false)
  {
    var t := s[2..];
    assert t == [] || !IsUpper(t[0]) by {
      if |s| > 2 {
        assert !(IsUpper(s[1]) && IsUpper(s[2]));
      }
    }
    SplitBeforeNonCapital(t, d);
    assert !IsUpper(s[0]);
    assert s[1..][1..] == t;
    assert SplitBeforeCapitals(s[1..], d, true) == d + [s[1]] + SplitBeforeCapitals(t, d, true);
  }

  lemma SnakeAgrees(value: string, delimiter: string)
    requires LiteralDelimiter(delimiter) && NoAdjacentCapitals(value)
    ensures Snake(value, delimiter) == SnakeLookahead(value, delimiter)
  {
    SplitCapitalsAgree(value, delimiter);
  }

  /** `Str::snake('ABC')` consumes the `B` as the capital of the first pair,
      so no delimiter goes before `C`: the result is "a_bc", where the
      look-ahead form gives "a_b_c". */
  lemma SnakeConsumesCapital()
    ensures Snake("ABC", "_") == "a_bc"
    ensures SnakeLookahead("ABC", "_") == "a_b_c"
  {
    SnakeABC();
    LookaheadABC();
  }

  lemma SnakeABC()
    ensures Snake("ABC", "_") == "a_bc"
  {
    assert !CtypeLower("ABC");
    SplitABC();
    assert StrToLower("A_BC") == "a_bc";
  }

  lemma SplitABC()
    ensures SplitCapitals("ABC", SnakeTemplate("_")) == "A_BC"
  {
    SnakeTemplateExpand("_", 'A', 'B');
    assert "ABC"[2..] == "C";
  }

  lemma LookaheadABC()
    ensures SnakeLookahead("ABC", "_") == "a_b_c"
  {
    assert !CtypeLower("ABC");
    assert SplitBeforeCapitals("ABC", "_", false) == "A_B_C";
    assert StrToLower("A_B_C") == "a_b_c";
  }

  /** The look-ahead split distributes over concatenation. */
  lemma {:induction false} SplitBeforeAppend(a: string, b: string, d: string, f: bool)
    ensures SplitBeforeCapitals(a + b, d, f)
      == SplitBeforeCapitals(a, d, f) + SplitBeforeCapitals(b, d, if a == [] then f else a[|a| - 1] != '\n')
    decreases |a|
  {
    if a == [] {
      assert a + b == b;
    } else {
      assert (a + b)[1..] == a[1..] + b;
      SplitBeforeAppend(a[1..], b, d, a[0] != '\n');
    }
  }

  /** A run without capitals is left as it is by the look-ahead split. */
  lemma {:induction false} SplitBeforeLower(w: string, d: string, f: bool)
    requires forall i :: 0 <= i < |w| ==> !IsUpper(w[i])
    ensures SplitBeforeCapitals(w, d, f) == w
    decreases |w|
  {
    if w != [] {
      SplitBeforeLower(w[1..], d, w[0] != '\n');
      assert w == [w[0]] + w[1..];
    }
  }

  /** A word of one capital and lower-case letters that follows another
      character gets the delimiter in front. */
  lemma SplitBeforeCapitalWord(c: char, w: string, d: string)
    requires IsUpper(c)
    requires forall i :: 0 <= i < |w| ==> !IsUpper(w[i])
    ensures SplitBeforeCapitals([c] + w, d, true) == d + [c] + w
  {
    assert ([c] + w)[1..] == w;
    SplitBeforeLower(w, d, true);
  }

  lemma SnakeExampleSplit()
    ensures SplitCapitals("fooBar", SnakeTemplate("_")) == "foo_Bar"
  {
    SnakeTemplateExpand("_", 'o', 'B');
    assert "fooBar"[2..] == "oBar" && "oBar"[2..] == "ar";
  }

  lemma SnakeExampleLower()
    ensures StrToLower("foo_Bar") == "foo_bar"
  {
  }

  /** `Str::snake('fooBar')` is "foo_bar", as `theCamelCaseVariable` becomes
      "the_camel_case_variable". */
  lemma SnakeExample()
    ensures Snake("fooBar", "_") == "foo_bar"
  {
    assert !CtypeLower("fooBar") by {
      assert !IsLower("fooBar"[3]);
    }
    SnakeExampleSplit();
    SnakeExampleLower();
  }

  /** A snake-case identifier: words of lower-case letters and digits, each
      starting with a letter, joined by single underscores. */
  predicate IsSnakeCase(s: string) {
    && |s| > 0 && IsLower(s[0])
    && SnakeTail(s)
  }

  /** The body of a snake-case identifier, read from the front: a lower-case
      letter or digit, followed by nothing, by more of the same word, or by
      an underscore and a word that starts with a letter. */
  predicate SnakeTail(t: string)
    decreases |t|
  {
    || t == []
    || (&& (IsLower(t[0]) || IsDigit(t[0]))
        && (|t| == 1 ||
            if t[1] == '_' then |t| > 2 && IsLower(t[2]) && SnakeTail(t[2..])
            else SnakeTail(t[1..])))
  }

  /** One character of a snake-case identifier through `studly` and back. */
  lemma RoundTripStep(c: char, x: string, up: bool, f: bool)
    requires IsLower(c) || IsDigit(c)
    requires up ==> IsLower(c)
    ensures var c' := if up then ToUpper(c) else c;
      StrToLower(SplitBeforeCapitals([c'] + x, "_", f))
        == (if f && up then "_" else []) + [c] + StrToLower(SplitBeforeCapitals(x, "_", true))
  {
    var c' := if up then ToUpper(c) else c;
    assert ([c'] + x)[1..] == x;
    var pre: string := if f && up then "_" else [];
    assert IsUpper(c') <==> up;
    var y := SplitBeforeCapitals(x, "_", true);
    assert SplitBeforeCapitals([c'] + x, "_", f) == pre + [c'] + y;
    StrToLowerAppend(pre + [c'], y);
    StrToLowerAppend(pre, [c']);
    assert StrToLower(pre) == pre;
    assert StrToLower([c']) == [c];
  }

  lemma StudlyWordsStep(t: string, up: bool)
    requires t != [] && (IsLower(t[0]) || IsDigit(t[0]))
    ensures StudlyWords(t, up) == [if up then ToUpper(t[0]) else t[0]] + StudlyWords(t[1..], false)
  {
  }

  /** `studly` followed by the look-ahead `snake` gives back the body of a
      snake-case identifier, with the delimiter in front when its first
      character is capitalised after another character. */
  lemma {:induction false} SnakeTailRoundTrip(t: string, up: bool, f: bool)
    requires SnakeTail(t)
    requires up ==> t != [] && IsLower(t[0])
    ensures StrToLower(SplitBeforeCapitals(StudlyWords(t, up), "_", f)) == (if f && up then "_" else []) + t
    decreases |t|, 1
  {
    if t != [] {
      var x := StudlyWords(t[1..], false);
      StudlyWordsStep(t, up);
      RoundTripStep(t[0], x, up, f);
      SnakeRestRoundTrip(t);
      assert t == [t[0]] + t[1..];
    }
  }

  /** The step of `SnakeTailRoundTrip` past the first character. */
  lemma {:induction false} SnakeRestRoundTrip(t: string)
    requires SnakeTail(t) && t != []
    ensures StrToLower(SplitBeforeCapitals(StudlyWords(t[1..], false), "_", true)) == t[1..]
    decreases |t|, 0
  {
    var rest := t[1..];
    if rest == [] {
    } else if rest[0] != '_' {
      SnakeTailRoundTrip(rest, false, true);
    } else {
      var rest' := rest[1..];
      assert rest' == t[2..];
      assert StudlyWords(rest, false) == StudlyWords(rest', true);
      SnakeTailRoundTrip(rest', true, true);
      assert rest == "_" + rest';
    }
  }

  /** The look-ahead form of `snake` undoes `studly` on every snake-case
      identifier. */
  lemma SnakeStudlyRoundTrip(s: string)
    requires IsSnakeCase(s)
    ensures SnakeLookahead(Studly(s), "_") == s
  {
    var st := Studly(s);
    assert st[0] == ToUpper(s[0]);
    assert !CtypeLower(st);
    SnakeTailRoundTrip(s, true, false);
  }

  lemma StudlyCounterexample()
    ensures StudlyWords("a_b_c", true) == "ABC"
  {
    StudlyPlainWord("c", true);
    StudlyLeadingWord("b", "c");
    StudlyLeadingWord("a", "b_c");
    assert "a_b_c" == "a" + "_" + "b_c";
    assert "b_c" == "b" + "_" + "c";
  }

  /** `snake` as written fails that round trip: "a_b_c" becomes "ABC" and
      comes back as "a_bc". */
  lemma SnakeStudlyCounterexample()
    ensures IsSnakeCase("a_b_c")
    ensures Snake(Studly("a_b_c"), "_") == "a_bc"
  {
    StudlyCounterexample();
    SnakeConsumesCapital();
  }
}
