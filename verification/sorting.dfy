/** Sorting of strings by a key, the model of Python's `sorted(xs)` and
    `xs.sort(key=...)`: insertion sort on sequences, ordered by the code-point
    lexicographic order of each element's key. Like Python's sort it inserts
    each element after the earlier ones with an equal key (`SortKeepsTies`
    shows this on an example; stability is not proved in general). */
module Sorting {
  import opened Text

  /** Every earlier element's key is at most every later element's key. */
  ghost predicate SortedBy(xs: seq<string>, key: string -> string)
  {
    forall i, j :: 0 <= i < j < |xs| ==> LexLe(key(xs[i]), key(xs[j]))
  }

  /** Inserts `x` in front of the first element whose key is above `x`'s. */
  function Insert(x: string, xs: seq<string>, key: string -> string): (r: seq<string>)
    requires SortedBy(xs, key)
    ensures SortedBy(r, key)
    ensures multiset(r) == multiset(xs) + multiset{x}
  {
    if |xs| == 0 then [x]
    else if !LexLe(key(xs[0]), key(x)) then
      LexLeTotal(key(x), key(xs[0]));
      InsertFrontSorted(x, xs, key);
      [x] + xs
    else
      var rest := Insert(x, xs[1..], key);
      assert xs == [xs[0]] + xs[1..];
      HeadBelowAll(xs[0], rest, xs[1..], x, key);
      [xs[0]] + rest
  }

  lemma InsertFrontSorted(x: string, xs: seq<string>, key: string -> string)
    requires SortedBy(xs, key)
    requires |xs| > 0 && LexLe(key(x), key(xs[0]))
    ensures SortedBy([x] + xs, key)
  {
    var r := [x] + xs;
    forall i, j | 0 <= i < j < |r|
      ensures LexLe(key(r[i]), key(r[j]))
    {
      if i == 0 && j > 1 {
        LexLeTransitive(key(x), key(xs[0]), key(xs[j - 1]));
      }
    }
  }

  /** A head whose key is at most every key of `tail` and of `x` stays sorted
      in front of any sorted arrangement of those elements. */
  lemma HeadBelowAll(h: string, rest: seq<string>, tail: seq<string>, x: string, key: string -> string)
    requires SortedBy(rest, key) && SortedBy([h] + tail, key)
    requires multiset(rest) == multiset(tail) + multiset{x}
    requires LexLe(key(h), key(x))
    ensures SortedBy([h] + rest, key)
  {
    var r := [h] + rest;
    forall i, j | 0 <= i < j < |r|
      ensures LexLe(key(r[i]), key(r[j]))
    {
      var y := rest[j - 1];
      assert r[j] == y;
      if i == 0 {
        assert y in multiset(rest);
        if y != x {
          assert y in multiset(tail);
          var k :| 0 <= k < |tail| && tail[k] == y;
          assert ([h] + tail)[0] == h && ([h] + tail)[k + 1] == y;
        }
      } else {
        assert r[i] == rest[i - 1];
      }
    }
  }

  /** `sorted(xs, key=key)`: a permutation of `xs` in ascending key order. */
  function SortBy(xs: seq<string>, key: string -> string): (r: seq<string>)
    ensures SortedBy(r, key)
    ensures multiset(r) == multiset(xs)
  {
    if |xs| == 0 then []
    else
      assert xs == xs[..|xs| - 1] + [xs[|xs| - 1]];
      Insert(xs[|xs| - 1], SortBy(xs[..|xs| - 1], key), key)
  }

  /** Elements with equal keys keep their input order: `["B", "b"]` sorted
      case-insensitively stays `["B", "b"]`. */
  lemma SortKeepsTies()
    ensures SortBy(["B", "b"], Lower) == ["B", "b"]
  {
    assert ["B", "b"][..1] == ["B"];
    assert Lower("B") == "b" && Lower("b") == "b";
  }
}
