/** The wildcard patterns of `Str::is`. A pattern is matched by the text it
    stands for once every `*` is replaced by some run of characters without
    a line feed; every other character, regular-expression metacharacters
    included, stands for itself. `RegexMatch` is the compiled regular
    expression `^...\z` with each quoted `*` turned into `.*`, run as a
    backtracking matcher; the lemmas show it decides exactly `Matches`. */
module Glob {

  /** Number of wildcards in a pattern. */
  function StarCount(p: string): nat {
    if p == [] then 0 else (if p[0] == '*' then 1 else 0) + StarCount(p[1..])
  }

  /** `.` without the `s` modifier matches anything but a line feed. */
  predicate LineFree(s: string) {
    '\n' !in s
  }

  /** The text `p` stands for when its `*`s are filled, in order, by `fills`. */
  function Instantiate(p: string, fills: seq<string>): string
    requires |fills| == StarCount(p)
    decreases |p|
  {
    if p == [] then []
    else if p[0] == '*' then fills[0] + Instantiate(p[1..], fills[1..])
    else [p[0]] + Instantiate(p[1..], fills)
  }

  /** The meaning of a pattern: some line-free filling of its wildcards
      spells out `v` exactly. */
  ghost predicate Matches(p: string, v: string) {
    exists fills: seq<string> ::
      && |fills| == StarCount(p)
      && (forall j :: 0 <= j < |fills| ==> LineFree(fills[j]))
      && Instantiate(p, fills) == v
  }

  /** The anchored regular expression the pattern compiles to, as a
      backtracking matcher: `.*` first tries to match nothing, then one
      more non-line-feed character. */
  function RegexMatch(p: string, v: string): bool
    decreases |p|, |v|
  {
    if p == [] then v == []
    else if p[0] == '*' then
      RegexMatch(p[1..], v) || (v != [] && v[0] != '\n' && RegexMatch(p, v[1..]))
    else v != [] && v[0] == p[0] && RegexMatch(p[1..], v[1..])
  }

  /** A wildcard at the head of `p` absorbs any line-free run. */
  lemma {:induction false} StarAbsorbs(p: string, f: string, v: string)
    requires p != [] && p[0] == '*'
    requires LineFree(f)
    requires RegexMatch(p[1..], v)
    ensures RegexMatch(p, f + v)
    decreases |f|
  {
    if f == [] {
      assert f + v == v;
    } else {
      assert f + v == [f[0]] + (f[1..] + v);
      StarAbsorbs(p, f[1..], v);
    }
  }

  /** Every line-free filling of a pattern is accepted by the matcher. */
  lemma {:induction false} RegexMatchComplete(p: string, fills: seq<string>)
    requires |fills| == StarCount(p)
    requires forall j :: 0 <= j < |fills| ==> LineFree(fills[j])
    ensures RegexMatch(p, Instantiate(p, fills))
    decreases |p|
  {
    if p == [] {
    } else if p[0] == '*' {
      RegexMatchComplete(p[1..], fills[1..]);
      StarAbsorbs(p, fills[0], Instantiate(p[1..], fills[1..]));
    } else {
      RegexMatchComplete(p[1..], fills);
      var w := [p[0]] + Instantiate(p[1..], fills);
      assert w[1..] == Instantiate(p[1..], fills);
    }
  }

  /** Every text the matcher accepts is a line-free filling of the pattern;
      the filling is returned. */
  lemma {:induction false} RegexMatchSound(p: string, v: string) returns (fills: seq<string>)
    requires RegexMatch(p, v)
    ensures |fills| == StarCount(p)
    ensures forall j :: 0 <= j < |fills| ==> LineFree(fills[j])
    ensures Instantiate(p, fills) == v
    decreases |p|, |v|
  {
    if p == [] {
      fills := [];
    } else if p[0] == '*' {
      if RegexMatch(p[1..], v) {
        var rest := RegexMatchSound(p[1..], v);
        fills := [[]] + rest;
        assert fills[1..] == rest;
      } else {
        var more := RegexMatchSound(p, v[1..]);
        fills := [[v[0]] + more[0]] + more[1..];
        assert fills[1..] == more[1..];
        assert LineFree(fills[0]);
        assert Instantiate(p, fills) == [v[0]] + (more[0] + Instantiate(p[1..], more[1..]));
        assert v == [v[0]] + v[1..];
      }
    } else {
      fills := RegexMatchSound(p[1..], v[1..]);
      assert v == [v[0]] + v[1..];
    }
  }

  /** The matcher decides exactly the meaning of the pattern. */
  lemma RegexMatchCorrect(p: string, v: string)
    ensures RegexMatch(p, v) <==> Matches(p, v)
  {
    if RegexMatch(p, v) {
      var fills := RegexMatchSound(p, v);
    }
    if Matches(p, v) {
      var fills: seq<string> :|
        && |fills| == StarCount(p)
        && (forall j :: 0 <= j < |fills| ==> LineFree(fills[j]))
        && Instantiate(p, fills) == v;
      RegexMatchComplete(p, fills);
    }
  }

  /** A pattern without wildcards stands for itself alone. */
  lemma {:induction false} InstantiateLiteral(p: string)
    requires StarCount(p) == 0
    ensures Instantiate(p, []) == p
    decreases |p|
  {
    if p != [] {
      InstantiateLiteral(p[1..]);
    }
  }

  /** A pattern without wildcards stands for itself and nothing else. */
  lemma MatchesLiteral(p: string, v: string)
    requires StarCount(p) == 0
    ensures Matches(p, v) <==> v == p
  {
    InstantiateLiteral(p);
    var none: seq<string> := [];
    assert Instantiate(p, none) == p;
  }
}
