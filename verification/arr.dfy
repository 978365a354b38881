/** The array helper class `BComp\Helper\Arr`. A PHP array is an ordered
    map, written here as a list of (key, value) entries; keys are strings
    and, in a well-formed map, unique. Nested arrays are `Value` trees whose
    leaves are PHP scalars. */
module Arr {
  import opened Wrappers
  import opened Builtins

  type Key = string

  /** The PHP scalars a leaf may hold (floats are not modelled). */
  datatype Scalar = Null | Bool(b: bool) | Int(i: int) | Str(s: string)

  /** A PHP value: a scalar leaf, or an array of entries. */
  datatype Value = Leaf(x: Scalar) | Node(entries: seq<(Key, Value)>)

  /** The keys of a map, in order. */
  function Keys<V>(m: seq<(Key, V)>): (ks: seq<Key>)
    ensures |ks| == |m|
    ensures forall i :: 0 <= i < |m| ==> ks[i] == m[i].0
  {
    if m == [] then [] else [m[0].0] + Keys(m[1..])
  }

  /** No element occurs twice. */
  predicate NoDuplicates(s: seq<Key>) {
    forall i, j :: 0 <= i < j < |s| ==> s[i] != s[j]
  }

  /** No key occurs twice: the map is well formed. */
  predicate UniqueKeys<V>(m: seq<(Key, V)>) {
    NoDuplicates(Keys(m))
  }

  /** The value stored under `k`, if any (the first entry with that key). */
  function Lookup<V>(m: seq<(Key, V)>, k: Key): (r: Option<V>)
    ensures r.None? <==> k !in Keys(m)
  {
    if m == [] then None
    else if m[0].0 == k then Some(m[0].1)
    else Lookup(m[1..], k)
  }

  /** The value found is that of the first entry with the key. */
  lemma {:induction false} LookupFirst<V>(m: seq<(Key, V)>, k: Key) returns (j: nat)
    requires k in Keys(m)
    ensures j < |m| && m[j] == (k, Lookup(m, k).value)
    ensures forall i :: 0 <= i < j ==> m[i].0 != k
  {
    if m[0].0 == k {
      j := 0;
    } else {
      assert Keys(m)[1..] == Keys(m[1..]);
      var j' := LookupFirst(m[1..], k);
      j := j' + 1;
    }
  }

  /** `a` keeps some of the elements of `b`, in the same order. */
  predicate IsSubsequence<T(==)>(a: seq<T>, b: seq<T>)
    decreases |b|
  {
    if a == [] then true
    else if b == [] then false
    else if a[0] == b[0] then IsSubsequence(a[1..], b[1..])
    else IsSubsequence(a, b[1..])
  }

  // ---------------------------------------------------------------------
  // except and only
  // ---------------------------------------------------------------------

  /** `Arr::except`, which is `array_diff_key($m, array_flip($hidden))`: the
      entries whose key is not listed, in their original order. */
  function Except<V(==,!new)>(m: seq<(Key, V)>, hidden: seq<Key>): (r: seq<(Key, V)>)
    ensures forall e :: e in r <==> e in m && e.0 !in hidden
    ensures IsSubsequence(r, m)
  {
    if m == [] then []
    else
      var rest := Except(m[1..], hidden);
      if m[0].0 in hidden then rest else [m[0]] + rest
  }

  /** `Arr::only`, which is `array_intersect_key($m, array_flip($shown))`:
      the entries whose key is listed, in their original order. */
  function Only<V(==,!new)>(m: seq<(Key, V)>, shown: seq<Key>): (r: seq<(Key, V)>)
    ensures forall e :: e in r <==> e in m && e.0 in shown
    ensures IsSubsequence(r, m)
  {
    if m == [] then []
    else
      var rest := Only(m[1..], shown);
      if m[0].0 in shown then [m[0]] + rest else rest
  }

  /** `except` and `only` split a map: every entry lands in exactly one of
      the two. */
  lemma {:induction false} ExceptOnlyPartition<V(!new)>(m: seq<(Key, V)>, ks: seq<Key>)
    ensures |Except(m, ks)| + |Only(m, ks)| == |m|
    ensures multiset(Except(m, ks)) + multiset(Only(m, ks)) == multiset(m)
    ensures forall e :: !(e in Except(m, ks) && e in Only(m, ks))
  {
    if m != [] {
      ExceptOnlyPartition(m[1..], ks);
      assert m == [m[0]] + m[1..];
    }
  }

  /** Listing a key that the map does not have changes nothing. */
  lemma {:induction false} AbsentKeysIgnored<V(!new)>(m: seq<(Key, V)>, ks: seq<Key>, k: Key)
    requires k !in Keys(m)
    ensures Except(m, ks + [k]) == Except(m, ks)
    ensures Only(m, ks + [k]) == Only(m, ks)
  {
    if m != [] {
      assert Keys(m)[1..] == Keys(m[1..]);
      AbsentKeysIgnored(m[1..], ks, k);
      assert m[0].0 in ks + [k] <==> m[0].0 in ks;
    }
  }

  /** The examples of the documentation. */
  lemma ExceptOnlyExample()
    ensures var m := [("name", Str("Alfa")), ("sex", Str("Male")), ("age", Int(23))];
      && Except(m, ["age"]) == [("name", Str("Alfa")), ("sex", Str("Male"))]
      && Only(m, ["age"]) == [("age", Int(23))]
  {
  }

  // ---------------------------------------------------------------------
  // replaceKey and replaceValue
  // ---------------------------------------------------------------------

  /** `$array[$k] = $v`: the value of an existing key is overwritten where
      it stands; a new key is appended. */
  function Put<V>(m: seq<(Key, V)>, k: Key, v: V): (r: seq<(Key, V)>)
    ensures Keys(r) == if k in Keys(m) then Keys(m) else Keys(m) + [k]
  {
    if m == [] then [(k, v)]
    else if m[0].0 == k then [(k, v)] + m[1..]
    else
      var rest := Put(m[1..], k, v);
      assert Keys(m) == [m[0].0] + Keys(m[1..]);
      [m[0]] + rest
  }

  /** After `$array[$k] = $v`, `k` holds `v` and every other key what it
      held before. */
  lemma {:induction false} PutLookup<V>(m: seq<(Key, V)>, k: Key, v: V, k': Key)
    ensures Lookup(Put(m, k, v), k') == if k' == k then Some(v) else Lookup(m, k')
  {
    if m != [] && m[0].0 != k {
      PutLookup(m[1..], k, v, k');
    }
  }

  /** The elements of `s` in the order of their first occurrence, each
      once. */
  function Dedup(s: seq<Key>): (r: seq<Key>)
    ensures NoDuplicates(r)
    ensures forall x :: x in r <==> x in s
    ensures forall i, j, q :: 0 <= i < j < |r| && 0 <= q < |s| && s[q] == r[j] ==> r[i] in s[..q]
  {
    if s == [] then []
    else
      var p := s[..|s| - 1];
      var x := s[|s| - 1];
      var d := Dedup(p);
      assert forall y :: y in s <==> y in p || y == x by {
        assert s == p + [x];
      }
      assert forall q :: 0 <= q < |p| ==> s[..q] == p[..q];
      assert s[..|s| - 1] == p;
      if x in d then d
      else
        var r := d + [x];
        assert forall i, j, q :: 0 <= i < j < |r| && 0 <= q < |s| && s[q] == r[j] ==> r[i] in s[..q] by {
          forall i, j, q | 0 <= i < j < |r| && 0 <= q < |s| && s[q] == r[j] ensures r[i] in s[..q] {
            if j < |d| {
              assert q < |p|;
            } else {
              assert r[i] in d;
              assert q == |p|;
            }
          }
        }
        r
  }

  /** The keys `replaceKey` writes, one per input entry, in order. */
  function NewKeys<V>(input: seq<(Key, V)>, search: string, rep: string): (ks: seq<Key>)
    ensures |ks| == |input|
    ensures forall i :: 0 <= i < |input| ==> ks[i] == StrReplace(input[i].0, search, rep)
  {
    if input == [] then [] else [StrReplace(input[0].0, search, rep)] + NewKeys(input[1..], search, rep)
  }

  lemma NewKeysSnoc<V>(input: seq<(Key, V)>, search: string, rep: string)
    requires input != []
    ensures NewKeys(input, search, rep)
      == NewKeys(input[..|input| - 1], search, rep) + [StrReplace(input[|input| - 1].0, search, rep)]
  {
  }

  lemma DedupSnoc(s: seq<Key>, k: Key)
    ensures Dedup(s + [k]) == if k in Dedup(s) then Dedup(s) else Dedup(s) + [k]
  {
    assert (s + [k])[..|s|] == s;
  }

  /** The value of the last input entry whose new key is `k`, if any. */
  function LastValue<V>(input: seq<(Key, V)>, search: string, rep: string, k: Key): Option<V> {
    if input == [] then None
    else if StrReplace(input[|input| - 1].0, search, rep) == k then Some(input[|input| - 1].1)
    else LastValue(input[..|input| - 1], search, rep, k)
  }

  /** `Arr::replaceKey`: each entry, in order, is stored under its key with
      `search` replaced by `rep`. The keys come out in the order of their
      first appearance, each once, and each holds the value of the last
      entry that was stored under it. */
  function ReplaceKey<V>(input: seq<(Key, V)>, search: string, rep: string): (r: seq<(Key, V)>)
    ensures Keys(r) == Dedup(NewKeys(input, search, rep))
  {
    if input == [] then []
    else
      var init := input[..|input| - 1];
      var last := input[|input| - 1];
      var k := StrReplace(last.0, search, rep);
      NewKeysSnoc(input, search, rep);
      DedupSnoc(NewKeys(init, search, rep), k);
      Put(ReplaceKey(init, search, rep), k, last.1)
  }

  /** Each key of `replaceKey`'s result holds the value of the last entry
      stored under it; a key no entry maps to is absent. */
  lemma {:induction false} ReplaceKeyLastWins<V>(input: seq<(Key, V)>, search: string, rep: string, k: Key)
    ensures Lookup(ReplaceKey(input, search, rep), k) == LastValue(input, search, rep, k)
  {
    if input != [] {
      var init := input[..|input| - 1];
      ReplaceKeyLastWins(init, search, rep, k);
      PutLookup(ReplaceKey(init, search, rep), StrReplace(input[|input| - 1].0, search, rep), input[|input| - 1].1, k);
    }
  }

  lemma {:induction false} PutAppends<V>(m: seq<(Key, V)>, k: Key, v: V)
    requires forall j :: 0 <= j < |m| ==> m[j].0 != k
    ensures Put(m, k, v) == m + [(k, v)]
  {
    if m != [] {
      PutAppends(m[1..], k, v);
      assert m == [m[0]] + m[1..];
    }
  }

  /** Storing under a new key appends one entry. */
  lemma PutNew<V>(m: seq<(Key, V)>, k: Key, v: V)
    requires k !in Keys(m)
    ensures Put(m, k, v) == m + [(k, v)]
  {
    assert forall j :: 0 <= j < |m| ==> Keys(m)[j] != k;
    PutAppends(m, k, v);
  }

  /** Every entry with its key renamed where it stands. */
  function Rekey<V>(input: seq<(Key, V)>, search: string, rep: string): (r: seq<(Key, V)>)
    ensures |r| == |input|
    ensures forall i :: 0 <= i < |input| ==> r[i] == (StrReplace(input[i].0, search, rep), input[i].1)
  {
    if input == [] then []
    else Rekey(input[..|input| - 1], search, rep) + [(StrReplace(input[|input| - 1].0, search, rep), input[|input| - 1].1)]
  }

  /** Dropping the last element keeps a sequence free of duplicates, and
      the last element is not among the others. */
  lemma NoDuplicatesSnoc(s: seq<Key>)
    requires s != [] && NoDuplicates(s)
    ensures NoDuplicates(s[..|s| - 1]) && s[|s| - 1] !in s[..|s| - 1]
  {
  }

  /** Without collisions among the new keys, `replaceKey` renames every
      key where it stands: size, order and values are kept. */
  lemma {:induction false} ReplaceKeyNoCollision<V>(input: seq<(Key, V)>, search: string, rep: string)
    requires NoDuplicates(NewKeys(input, search, rep))
    ensures ReplaceKey(input, search, rep) == Rekey(input, search, rep)
  {
    if input != [] {
      var init := input[..|input| - 1];
      NewKeysSnoc(input, search, rep);
      NoDuplicatesSnoc(NewKeys(input, search, rep));
      ReplaceKeyNoCollision(init, search, rep);
      PutNew(ReplaceKey(init, search, rep), StrReplace(input[|input| - 1].0, search, rep), input[|input| - 1].1);
    }
  }

  /** `Arr::replaceValue` on a map of strings: the values, each with
      `search` replaced by `rep`, renumbered as a list. */
  function ReplaceValue(input: seq<(Key, string)>, search: string, rep: string): (r: seq<string>)
    ensures |r| == |input|
    ensures forall i :: 0 <= i < |input| ==> r[i] == StrReplace(input[i].1, search, rep)
  {
    if input == [] then [] else [StrReplace(input[0].1, search, rep)] + ReplaceValue(input[1..], search, rep)
  }

  /** Values that do not hold `search` come out unchanged, and replacing a
      text by itself changes nothing. */
  lemma ReplaceValueUnchanged(input: seq<(Key, string)>, search: string, rep: string)
    ensures forall i :: 0 <= i < |input| && !Occurs(input[i].1, search) ==>
      ReplaceValue(input, search, rep)[i] == input[i].1
    ensures forall i :: 0 <= i < |input| ==> ReplaceValue(input, search, search)[i] == input[i].1
  {
    forall i | 0 <= i < |input|
      ensures !Occurs(input[i].1, search) ==> ReplaceValue(input, search, rep)[i] == input[i].1
      ensures ReplaceValue(input, search, search)[i] == input[i].1
    {
      if !Occurs(input[i].1, search) {
        StrReplaceAbsent(input[i].1, search, rep);
      }
      StrReplaceSelf(input[i].1, search);
    }
  }

  /** A text that starts with `prefix` and has no further occurrence of the
      prefix's first character loses exactly that prefix. */
  lemma PrefixReplaced(prefix: string, suffix: string, rep: string)
    requires prefix != [] && prefix[0] !in suffix
    ensures StrReplace(prefix + suffix, prefix, rep) == rep + suffix
  {
    var n := |prefix|;
    assert (prefix + suffix)[..n] == prefix;
    assert (prefix + suffix)[n..] == suffix;
    assert !Occurs(suffix, prefix) by {
      forall k: nat ensures !OccursAt(suffix, prefix, k) {
        if k + n <= |suffix| {
          assert suffix[k..k + n][0] == suffix[k];
        }
      }
    }
    StrReplaceAbsent(suffix, prefix, rep);
  }

  /** Two entries whose new keys differ keep their places and values. */
  lemma ReplaceKeyTwo<V>(a: (Key, V), b: (Key, V), search: string, rep: string)
    requires StrReplace(a.0, search, rep) != StrReplace(b.0, search, rep)
    ensures ReplaceKey([a, b], search, rep)
      == [(StrReplace(a.0, search, rep), a.1), (StrReplace(b.0, search, rep), b.1)]
  {
    var ka := StrReplace(a.0, search, rep);
    assert [a, b][..1] == [a];
    assert [a][..0] == [];
    assert ReplaceKey([a], search, rep) == [(ka, a.1)];
    PutNew([(ka, a.1)], StrReplace(b.0, search, rep), b.1);
  }

  /** Keys made of a common prefix and pairwise different suffixes without
      the prefix's first character are renamed in place: each loses the
      prefix for `rep`, keeping its value and its position. */
  lemma ReplaceKeyPrefixed<V>(input: seq<(Key, V)>, prefix: string, rep: string, ss: seq<string>)
    requires prefix != [] && |ss| == |input| && NoDuplicates(ss)
    requires forall i :: 0 <= i < |ss| ==> input[i].0 == prefix + ss[i] && prefix[0] !in ss[i]
    ensures |ReplaceKey(input, prefix, rep)| == |input|
    ensures forall i :: 0 <= i < |input| ==> ReplaceKey(input, prefix, rep)[i] == (rep + ss[i], input[i].1)
  {
    var ks := NewKeys(input, prefix, rep);
    forall i | 0 <= i < |ss| ensures ks[i] == rep + ss[i] {
      PrefixReplaced(prefix, ss[i], rep);
    }
    forall i, j | 0 <= i < j < |ks| ensures ks[i] != ks[j] {
      assert (rep + ss[i])[|rep|..] == ss[i] && (rep + ss[j])[|rep|..] == ss[j];
    }
    ReplaceKeyNoCollision(input, prefix, rep);
  }

  /** A list of prefixed keys with distinct suffixes comes out as the
      given list of renamed keys. */
  lemma RenamedInPlace<V>(input: seq<(Key, V)>, out: seq<(Key, V)>, prefix: string, rep: string, ss: seq<string>)
    requires prefix != [] && |ss| == |input| == |out| && NoDuplicates(ss)
    requires forall i :: 0 <= i < |ss| ==> input[i].0 == prefix + ss[i] && prefix[0] !in ss[i]
    requires forall i :: 0 <= i < |ss| ==> out[i] == (rep + ss[i], input[i].1)
    ensures ReplaceKey(input, prefix, rep) == out
  {
    ReplaceKeyPrefixed(input, prefix, rep, ss);
  }

  /** The example of the documentation: four `:type` keys renamed to `user`
      keys, in place and with their values. */
  lemma ReplaceKeyExample()
    ensures ReplaceKey([(":type" + "_address", "Foo"), (":type" + "_citizenship", "Bar"),
                        (":type" + "_city", "Baz"), (":type" + "_country", "Qux")], ":type", "user")
      == [("user" + "_address", "Foo"), ("user" + "_citizenship", "Bar"),
          ("user" + "_city", "Baz"), ("user" + "_country", "Qux")]
  {
    var ss := ["_address", "_citizenship", "_city", "_country"];
    assert NoDuplicates(ss) by {
      assert ss[0][1] != ss[1][1] && ss[0][1] != ss[2][1] && ss[0][1] != ss[3][1];
      assert ss[1][4] != ss[2][4] && ss[1][2] != ss[3][2] && ss[2][2] != ss[3][2];
    }
    var input := [(":type" + ss[0], "Foo"), (":type" + ss[1], "Bar"),
                  (":type" + ss[2], "Baz"), (":type" + ss[3], "Qux")];
    var out := [("user" + ss[0], "Foo"), ("user" + ss[1], "Bar"),
                ("user" + ss[2], "Baz"), ("user" + ss[3], "Qux")];
    RenamedInPlace(input, out, ":type", "user", ss);
  }

  /** Values made of a common prefix and a suffix without the prefix's
      first character lose the prefix for `rep`. */
  lemma ReplaceValuePrefixed(input: seq<(Key, string)>, prefix: string, rep: string, ss: seq<string>)
    requires prefix != [] && |ss| == |input|
    requires forall i :: 0 <= i < |ss| ==> input[i].1 == prefix + ss[i] && prefix[0] !in ss[i]
    ensures forall i :: 0 <= i < |input| ==> ReplaceValue(input, prefix, rep)[i] == rep + ss[i]
  {
    forall i | 0 <= i < |ss| {
      PrefixReplaced(prefix, ss[i], rep);
    }
  }

  /** The example of the documentation: the list of four `:type_` headers
      loses the prefix. */
  lemma ReplaceValueExample()
    ensures ReplaceValue([("0", ":type_" + "address"), ("1", ":type_" + "citizenship"),
                          ("2", ":type_" + "city"), ("3", ":type_" + "country")], ":type_", "")
      == ["address", "citizenship", "city", "country"]
  {
    var ss := ["address", "citizenship", "city", "country"];
    var input := [("0", ":type_" + ss[0]), ("1", ":type_" + ss[1]),
                  ("2", ":type_" + ss[2]), ("3", ":type_" + ss[3])];
    ReplaceValuePrefixed(input, ":type_", "", ss);
    var r := ReplaceValue(input, ":type_", "");
    assert |r| == 4 && r[0] == ss[0] && r[1] == ss[1] && r[2] == ss[2] && r[3] == ss[3];
    assert r == ss;
  }

  // ---------------------------------------------------------------------
  // depth and flatten
  // ---------------------------------------------------------------------

  function Max(a: nat, b: nat): nat { if a < b then b else a }

  /** The loop of `Arr::depth` over the entries from `i` on. */
  function DepthFrom(m: seq<(Key, Value)>, i: nat): (d: nat)
    requires i <= |m|
    ensures d >= 1
    decreases Node(m), |m| - i
  {
    if i == |m| then 1
    else
      var rest := DepthFrom(m, i + 1);
      match m[i].1
      case Leaf(_) => rest
      case Node(c) =>
        assert m[i] in m;
        Max(DepthFrom(c, 0) + 1, rest)
  }

  /** `Arr::depth`: the depth of an array, counting itself as 1. */
  function Depth(m: seq<(Key, Value)>): (d: nat)
    ensures d >= 1
  {
    DepthFrom(m, 0)
  }

  /** Every nested array from `i` on is less deep than the loop's result,
      which is either 1 or one above one of them. */
  lemma {:induction false} DepthFromIsMax(m: seq<(Key, Value)>, i: nat)
    requires i <= |m|
    ensures forall j :: i <= j < |m| && m[j].1.Node? ==> Depth(m[j].1.entries) < DepthFrom(m, i)
    ensures DepthFrom(m, i) == 1
      || exists j :: i <= j < |m| && m[j].1.Node? && Depth(m[j].1.entries) + 1 == DepthFrom(m, i)
    decreases |m| - i
  {
    if i < |m| {
      DepthFromIsMax(m, i + 1);
    }
  }

  /** `depth` is the maximum nesting: above every nested array, and either
      1 (no nested array) or one more than the deepest one. */
  lemma DepthIsMax(m: seq<(Key, Value)>)
    ensures forall j :: 0 <= j < |m| && m[j].1.Node? ==> Depth(m[j].1.entries) < Depth(m)
    ensures Depth(m) == 1 || exists j :: 0 <= j < |m| && m[j].1.Node? && Depth(m[j].1.entries) + 1 == Depth(m)
  {
    DepthFromIsMax(m, 0);
  }

  /** A map has depth 1 exactly when none of its values is an array. */
  lemma DepthOne(m: seq<(Key, Value)>)
    ensures Depth(m) == 1 <==> forall j :: 0 <= j < |m| ==> m[j].1.Leaf?
  {
    DepthIsMax(m);
  }

  /** The leaves `array_walk_recursive` visits in a value: a scalar itself,
      or the leaves of a nested array. */
  function FlattenValue(v: Value): seq<Scalar>
    decreases v, 1, 0
  {
    match v
    case Leaf(x) => [x]
    case Node(c) => FlattenFrom(c, 0)
  }

  /** The leaves visited from entry `i` on, in order. */
  function FlattenFrom(m: seq<(Key, Value)>, i: nat): seq<Scalar>
    requires i <= |m|
    decreases Node(m), 0, |m| - i
  {
    if i == |m| then []
    else
      assert m[i] in m;
      FlattenValue(m[i].1) + FlattenFrom(m, i + 1)
  }

  /** `Arr::flatten`: every scalar of a nested array, as one list. */
  function Flatten(m: seq<(Key, Value)>): (r: seq<Scalar>)
    ensures |r| == LeafCount(Node(m))
  {
    FlattenFromLength(m, 0);
    FlattenFrom(m, 0)
  }

  /** The value reached from `v` by following the positions in `p`, one
      nesting level each. */
  function Get(v: Value, p: seq<nat>): Option<Value>
    decreases |p|
  {
    if p == [] then Some(v)
    else if v.Node? && p[0] < |v.entries| then Get(v.entries[p[0]].1, p[1..])
    else None
  }

  /** Every leaf listed from entry `i` on sits at some path through an entry
      at or after `i`. */
  lemma {:induction false} FlattenSound(m: seq<(Key, Value)>, i: nat, x: Scalar) returns (p: seq<nat>)
    requires i <= |m| && x in FlattenFrom(m, i)
    ensures |p| > 0 && i <= p[0] && Get(Node(m), p) == Some(Leaf(x))
    decreases Node(m), |m| - i
  {
    var rest := FlattenFrom(m, i + 1);
    if x in rest {
      p := FlattenSound(m, i + 1, x);
    } else {
      match m[i].1
      case Leaf(y) =>
        p := [i];
        assert Get(Node(m), p) == Get(m[i].1, []);
      case Node(c) =>
        assert m[i] in m;
        var q := FlattenSound(c, 0, x);
        p := [i] + q;
        assert p[1..] == q;
    }
  }

  /** Every leaf at a path through an entry at or after `i` is listed from
      entry `i` on. */
  lemma {:induction false} FlattenComplete(m: seq<(Key, Value)>, i: nat, p: seq<nat>, x: Scalar)
    requires i <= |m| && |p| > 0 && i <= p[0]
    requires Get(Node(m), p) == Some(Leaf(x))
    ensures x in FlattenFrom(m, i)
    decreases Node(m), |m| - i
  {
    if p[0] > i {
      FlattenComplete(m, i + 1, p, x);
    } else {
      match m[i].1
      case Leaf(y) =>
        assert Get(m[i].1, p[1..]) == Some(Leaf(x));
      case Node(c) =>
        assert m[i] in m;
        assert Get(Node(c), p[1..]) == Some(Leaf(x));
        FlattenComplete(c, 0, p[1..], x);
    }
  }

  /** `flatten` lists exactly the scalars found anywhere in the nested
      array. */
  lemma FlattenMembers(m: seq<(Key, Value)>, x: Scalar)
    ensures x in Flatten(m) <==> exists p :: Get(Node(m), p) == Some(Leaf(x))
  {
    if x in Flatten(m) {
      var p := FlattenSound(m, 0, x);
    }
    if exists p :: Get(Node(m), p) == Some(Leaf(x)) {
      var p :| Get(Node(m), p) == Some(Leaf(x));
      FlattenComplete(m, 0, p, x);
    }
  }

  lemma {:induction false} FlattenFromShift(a: seq<(Key, Value)>, b: seq<(Key, Value)>, j: nat)
    requires j <= |b|
    ensures FlattenFrom(a + b, |a| + j) == FlattenFrom(b, j)
    decreases |b| - j
  {
    if j < |b| {
      FlattenFromShift(a, b, j + 1);
      assert (a + b)[|a| + j] == b[j];
    }
  }

  lemma {:induction false} FlattenFromAppend(a: seq<(Key, Value)>, b: seq<(Key, Value)>, i: nat)
    requires i <= |a|
    ensures FlattenFrom(a + b, i) == FlattenFrom(a, i) + Flatten(b)
    decreases |a| - i
  {
    if i == |a| {
      FlattenFromShift(a, b, 0);
    } else {
      FlattenFromAppend(a, b, i + 1);
      assert (a + b)[i] == a[i];
    }
  }

  /** Flattening two maps one after the other lists the leaves of the first,
      then those of the second. */
  lemma FlattenAppend(a: seq<(Key, Value)>, b: seq<(Key, Value)>)
    ensures Flatten(a + b) == Flatten(a) + Flatten(b)
  {
    FlattenFromAppend(a, b, 0);
  }

  /** The walk is depth-first and left to right: a first entry holding a
      scalar lists that scalar, and a first entry holding an array lists
      all of that array's leaves, before the leaves of the entries after
      it. An empty nested array contributes nothing. */
  lemma FlattenFirst(k: Key, v: Value, b: seq<(Key, Value)>)
    ensures v.Leaf? ==> Flatten([(k, v)] + b) == [v.x] + Flatten(b)
    ensures v.Node? ==> Flatten([(k, v)] + b) == Flatten(v.entries) + Flatten(b)
  {
    FlattenFromAppend([(k, v)], b, 0);
    assert Flatten([(k, v)]) == FlattenValue(v) + FlattenFrom([(k, v)], 1);
  }

  /** Without nested arrays (depth 1) `flatten` lists the values in
      order. */
  lemma {:induction false} FlattenFlat(m: seq<(Key, Value)>)
    requires Depth(m) == 1
    ensures |Flatten(m)| == |m|
    ensures forall j :: 0 <= j < |m| ==> m[j].1 == Leaf(Flatten(m)[j])
  {
    DepthOne(m);
    FlattenFromFlat(m, 0);
  }

  lemma {:induction false} FlattenFromFlat(m: seq<(Key, Value)>, i: nat)
    requires i <= |m|
    requires forall j :: 0 <= j < |m| ==> m[j].1.Leaf?
    ensures |FlattenFrom(m, i)| == |m| - i
    ensures forall j :: i <= j < |m| ==> m[j].1 == Leaf(FlattenFrom(m, i)[j - i])
    decreases |m| - i
  {
    if i < |m| {
      FlattenFromFlat(m, i + 1);
      var rest := FlattenFrom(m, i + 1);
      assert FlattenFrom(m, i) == [m[i].1.x] + rest;
      forall j | i < j < |m| ensures m[j].1 == Leaf(FlattenFrom(m, i)[j - i]) {
        assert FlattenFrom(m, i)[j - i] == rest[j - (i + 1)];
      }
    }
  }

  /** The number of scalars in a value: one for a leaf, the sum over the
      entries for an array. */
  function LeafCount(v: Value): nat
    decreases v, 1
  {
    match v
    case Leaf(_) => 1
    case Node(c) => LeafCountFrom(c, 0)
  }

  function LeafCountFrom(m: seq<(Key, Value)>, i: nat): nat
    requires i <= |m|
    decreases Node(m), 0, |m| - i
  {
    if i == |m| then 0
    else
      assert m[i] in m;
      LeafCount(m[i].1) + LeafCountFrom(m, i + 1)
  }

  lemma {:induction false} FlattenFromLength(m: seq<(Key, Value)>, i: nat)
    requires i <= |m|
    ensures |FlattenFrom(m, i)| == LeafCountFrom(m, i)
    decreases Node(m), 0, |m| - i
  {
    if i < |m| {
      assert m[i] in m;
      FlattenValueLength(m[i].1);
      FlattenFromLength(m, i + 1);
    }
  }

  lemma {:induction false} FlattenValueLength(v: Value)
    ensures |FlattenValue(v)| == LeafCount(v)
    decreases v, 1
  {
    match v
    case Leaf(_) =>
    case Node(c) => FlattenFromLength(c, 0);
  }

  // ---------------------------------------------------------------------
  // isEmpty
  // ---------------------------------------------------------------------

  /** PHP's `empty()` of a value: null, false, 0, "", "0" and the empty
      array. */
  predicate PhpEmpty(v: Value) {
    match v
    case Leaf(x) => x == Null || x == Bool(false) || x == Int(0) || x == Str("") || x == Str("0")
    case Node(c) => c == []
  }

  /** The loop of `Arr::isEmpty`: each value overwrites the flag with
      `empty($value) or is_null($value)`, so the flag ends as the last
      value left it. */
  function EmptyLoop(m: seq<(Key, Value)>, empty: bool): (r: bool)
    ensures r == if m == [] then empty else PhpEmpty(m[|m| - 1].1)
  {
    if m == [] then empty
    else EmptyLoop(m[1..], PhpEmpty(m[0].1) || m[0].1 == Leaf(Null))
  }

  /** `Arr::isEmpty` as written. It looks at the last value only: the map
      is "empty" when it has no entries or its last value is empty. The
      branch for depth 0 is never taken. */
  function IsEmpty(m: seq<(Key, Value)>): (r: bool)
    ensures r <==> m == [] || PhpEmpty(m[|m| - 1].1)
  {
    if Depth(m) > 0 then EmptyLoop(m, true) else m == []
  }

  /** A map with a non-empty first value and a null last value counts as
      empty. */
  lemma IsEmptyCounterexample()
    ensures var m := [("a", Leaf(Int(1))), ("b", Leaf(Null))];
      IsEmpty(m) && !PhpEmpty(m[0].1)
  {
  }

  /** The evidently intended `isEmpty`: the flag stays true only while every
      value is empty. */
  function IsEmptyAll(m: seq<(Key, Value)>): (r: bool)
    ensures r <==> forall j :: 0 <= j < |m| ==> PhpEmpty(m[j].1)
  {
    if m == [] then true else PhpEmpty(m[0].1) && IsEmptyAll(m[1..])
  }

  /** The corrected version never says "empty" where the original does not,
      and the two agree on maps with at most one entry. */
  lemma IsEmptyAllRefines(m: seq<(Key, Value)>)
    ensures IsEmptyAll(m) ==> IsEmpty(m)
    ensures |m| <= 1 ==> (IsEmptyAll(m) <==> IsEmpty(m))
  {
  }

  // ---------------------------------------------------------------------
  // normalizeStacked
  // ---------------------------------------------------------------------

  /** The number of rows: the length of the first column. For an empty map
      `reset` gives `false`, whose `count` is 1. */
  function RowCount<V>(m: seq<(Key, seq<V>)>): nat {
    if m == [] then 1 else |m[0].1|
  }

  /** Row `i` from column `j` on: each key with the `i`-th element of its
      column, or `None` (PHP's null) when the column is shorter. */
  function RowFrom<V>(m: seq<(Key, seq<V>)>, i: nat, j: nat): (row: seq<(Key, Option<V>)>)
    requires j <= |m|
    ensures |row| == |m| - j
    ensures forall k :: j <= k < |m| ==>
      && row[k - j].0 == m[k].0
      && (row[k - j].1.Some? <==> i < |m[k].1|)
      && (i < |m[k].1| ==> row[k - j].1.value == m[k].1[i])
    decreases |m| - j
  {
    if j == |m| then []
    else [(m[j].0, if i < |m[j].1| then Some(m[j].1[i]) else None)] + RowFrom(m, i, j + 1)
  }

  /** The rows from `i` on. */
  function RowsFrom<V>(m: seq<(Key, seq<V>)>, i: nat): (rows: seq<seq<(Key, Option<V>)>>)
    requires i <= RowCount(m)
    ensures |rows| == RowCount(m) - i
    ensures forall r :: 0 <= r < |rows| ==> rows[r] == RowFrom(m, i + r, 0)
    decreases RowCount(m) - i
  {
    if i == RowCount(m) then [] else [RowFrom(m, i, 0)] + RowsFrom(m, i + 1)
  }

  /** `Arr::normalizeStacked`: turns a map of columns into a list of rows,
      row `i` holding every key with the `i`-th element of its column. */
  function NormalizeStacked<V>(m: seq<(Key, seq<V>)>): (rows: seq<seq<(Key, Option<V>)>>)
    ensures |rows| == RowCount(m)
    ensures forall i :: 0 <= i < |rows| ==> |rows[i]| == |m|
    ensures forall i, k :: 0 <= i < |rows| && 0 <= k < |m| ==>
      && rows[i][k].0 == m[k].0
      && (rows[i][k].1.Some? <==> i < |m[k].1|)
      && (i < |m[k].1| ==> rows[i][k].1.value == m[k].1[i])
  {
    RowsFrom(m, 0)
  }

  /** Every element of a column, as present. */
  function Lift<V>(col: seq<V>): (r: seq<Option<V>>) {
    seq(|col|, i requires 0 <= i < |col| => Some(col[i]))
  }

  /** Rows of equal length turned back into columns, one per position, keyed
      by the first row's keys. */
  function Restack<V>(rows: seq<seq<(Key, Option<V>)>>): seq<(Key, seq<Option<V>>)>
    requires |rows| > 0
    requires forall i :: 0 <= i < |rows| ==> |rows[i]| == |rows[0]|
  {
    seq(|rows[0]|, k requires 0 <= k < |rows[0]| =>
      (rows[0][k].0, seq(|rows|, i requires 0 <= i < |rows| => rows[i][k].1)))
  }

  /** For columns of one common, non-zero length, `normalizeStacked` loses
      nothing: turning its rows back into columns gives the input. */
  lemma NormalizeStackedRoundTrip<V>(m: seq<(Key, seq<V>)>)
    requires m != [] && |m[0].1| > 0
    requires forall k :: 0 <= k < |m| ==> |m[k].1| == |m[0].1|
    ensures Restack(NormalizeStacked(m)) == seq(|m|, k requires 0 <= k < |m| => (m[k].0, Lift(m[k].1)))
  {
    var rows := NormalizeStacked(m);
    var back := Restack(rows);
    forall k | 0 <= k < |m| ensures back[k] == (m[k].0, Lift(m[k].1)) {
      assert back[k].1 == Lift(m[k].1);
    }
  }

  /** Two columns of one common length give one row per position, holding
      the two keys with that position's elements. */
  lemma NormalizeTwoColumns<V>(k1: Key, k2: Key, a: seq<V>, b: seq<V>)
    requires |a| == |b| > 0
    ensures NormalizeStacked([(k1, a), (k2, b)])
      == seq(|a|, i requires 0 <= i < |a| => [(k1, Some(a[i])), (k2, Some(b[i]))])
  {
    var m := [(k1, a), (k2, b)];
    var rows := NormalizeStacked(m);
    assert |m| == 2 && m[0] == (k1, a) && m[1] == (k2, b);
    forall i | 0 <= i < |a| ensures rows[i] == [(k1, Some(a[i])), (k2, Some(b[i]))] {
      assert |rows[i]| == 2;
      assert rows[i][0] == (k1, Some(a[i]));
      assert rows[i][1] == (k2, Some(b[i]));
    }
  }

  /** The example of the documentation: a stacked form with the columns
      "first-name" and "last-name" of three people gives three rows. */
  lemma NormalizeStackedExample()
    ensures NormalizeStacked([
        ("first-name", ["Ganesha", "Krisan", "Farid"]),
        ("last-name", ["Muharso", "Timur", "Hidayat"])])
      == [[("first-name", Some("Ganesha")), ("last-name", Some("Muharso"))],
          [("first-name", Some("Krisan")), ("last-name", Some("Timur"))],
          [("first-name", Some("Farid")), ("last-name", Some("Hidayat"))]]
  {
    var a := ["Ganesha", "Krisan", "Farid"];
    var b := ["Muharso", "Timur", "Hidayat"];
    NormalizeTwoColumns("first-name", "last-name", a, b);
  }
}
