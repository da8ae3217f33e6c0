/** The pure helpers of `promptsource/utils.py`: rewriting example keys
    (`removeHyphen`), the keep rule and ordering of `filter_datasets`, and the
    merged, de-duplicated, case-insensitively sorted list of `list_datasets`.
    A Python dict is an insertion-ordered sequence of (key, value) pairs. */
module Catalog {
  import opened Common
  import opened Text
  import opened Sorting

  type Dict<V> = seq<(string, V)>

  ghost predicate DistinctKeys<V>(d: Dict<V>)
  {
    forall i, j :: 0 <= i < j < |d| ==> d[i].0 != d[j].0
  }

  ghost function Keys<V>(d: Dict<V>): set<string>
  {
    set i | 0 <= i < |d| :: d[i].0
  }

  /** `d.get(k)`. */
  function Get<V>(d: Dict<V>, k: string): Option<V>
  {
    if |d| == 0 then None
    else if d[0].0 == k then Some(d[0].1)
    else Get(d[1..], k)
  }

  lemma {:induction false} GetFound<V>(d: Dict<V>, k: string)
    ensures Get(d, k).Some? <==> k in Keys(d)
    ensures DistinctKeys(d) ==> forall i :: 0 <= i < |d| && d[i].0 == k ==> Get(d, k) == Some(d[i].1)
  {
    if |d| > 0 {
      GetFound(d[1..], k);
      KeysCons(d);
      if DistinctKeys(d) {
        forall i | 0 <= i < |d| && d[i].0 == k ensures Get(d, k) == Some(d[i].1) {
          if i > 0 {
            assert d[1..][i - 1] == d[i];
          }
        }
      }
    }
  }

  /** `d[k] = v`: an existing key keeps its position and takes the new value;
      a new key is appended. */
  function Put<V>(d: Dict<V>, k: string, v: V): Dict<V>
  {
    if |d| == 0 then [(k, v)]
    else if d[0].0 == k then [(k, v)] + d[1..]
    else [d[0]] + Put(d[1..], k, v)
  }

  /** The keys of a non-empty dictionary are its first key and the keys of the rest. */
  lemma KeysCons<V>(d: Dict<V>)
    requires |d| > 0
    ensures Keys(d) == {d[0].0} + Keys(d[1..])
  {
  }

  /** Assignment adds the key, keeps keys distinct, appends a new key, and
      every entry is either the assigned one or an unchanged entry of `d`
      under another key. */
  lemma {:induction false} PutSpec<V>(d: Dict<V>, k: string, v: V)
    ensures Keys(Put(d, k, v)) == Keys(d) + {k}
    ensures DistinctKeys(d) ==> DistinctKeys(Put(d, k, v))
    ensures k !in Keys(d) ==> Put(d, k, v) == d + [(k, v)]
    ensures DistinctKeys(d) ==> forall i :: 0 <= i < |Put(d, k, v)| ==>
      Put(d, k, v)[i] == (k, v) || (Put(d, k, v)[i].0 != k && exists j :: 0 <= j < |d| && d[j] == Put(d, k, v)[i])
  {
    var r := Put(d, k, v);
    if |d| == 0 {
      assert Keys(r) == {k} by { assert r == [(k, v)]; }
    } else {
      KeysCons(d);
      KeysCons(r);
      if d[0].0 == k {
        assert r[0] == (k, v) && r[1..] == d[1..];
        if DistinctKeys(d) {
          assert k !in Keys(d[1..]) by {
            forall i | 0 <= i < |d[1..]| ensures d[1..][i].0 != k {
              assert d[1..][i] == d[i + 1];
            }
          }
        }
        forall i | 0 < i < |r| ensures r[i] == d[i] { }
        assert Keys(r) == Keys(d) + {k};
      } else {
        var rest := Put(d[1..], k, v);
        PutSpec(d[1..], k, v);
        assert r[0] == d[0] && r[1..] == rest;
        if DistinctKeys(d) {
          assert d[0].0 !in Keys(d[1..]) by {
            forall i | 0 <= i < |d[1..]| ensures d[1..][i].0 != d[0].0 {
              assert d[1..][i] == d[i + 1];
            }
          }
          forall i, j | 0 <= i < j < |r| ensures r[i].0 != r[j].0 {
            if i == 0 {
              assert r[j].0 in Keys(rest) by { assert rest[j - 1] == r[j]; }
            } else {
              assert rest[i - 1] == r[i] && rest[j - 1] == r[j];
            }
          }
        }
        forall i | 0 < i < |r| && r[i] != (k, v) && DistinctKeys(d)
          ensures r[i].0 != k && exists j :: 0 <= j < |d| && d[j] == r[i]
        {
          assert rest[i - 1] == r[i];
          var j :| 0 <= j < |d[1..]| && d[1..][j] == rest[i - 1];
          assert d[j + 1] == r[i];
        }
        assert Keys(r) == {d[0].0} + Keys(rest);
        assert Keys(r) == Keys(d) + {k};
        if k !in Keys(d) {
          assert rest == d[1..] + [(k, v)];
          assert r == [d[0]] + d[1..] + [(k, v)];
          assert d == [d[0]] + d[1..];
        }
      }
    }
  }

  /** A key with every `-` turned into `_`. */
  function Dehyphen(key: string): (r: string)
    ensures '-' !in r
    ensures '-' !in key ==> r == key
  {
    ReplaceChar(key, '-', '_')
  }

  /** `removeHyphen`: every key is rewritten with `_` for `-`, entries are
      inserted in order, and two keys that meet after the rewrite keep the
      later entry's value. */
  function RemoveHyphen<V>(d: Dict<V>): (r: Dict<V>)
    decreases |d|
    ensures DistinctKeys(r)
    ensures forall i :: 0 <= i < |r| ==> '-' !in r[i].0
  {
    if |d| == 0 then []
    else
      var prev := RemoveHyphen(d[..|d| - 1]);
      var last := d[|d| - 1];
      PutSpec(prev, Dehyphen(last.0), last.1);
      var r := Put(prev, Dehyphen(last.0), last.1);
      assert forall i :: 0 <= i < |r| ==> r[i].0 in Keys(prev) + {Dehyphen(last.0)};
      r
  }

  /** The rewritten keys of `d`. */
  ghost function DehyphenedKeys<V>(d: Dict<V>): set<string>
  {
    set i | 0 <= i < |d| :: Dehyphen(d[i].0)
  }

  /** No later entry of `d` rewrites to the same key as entry `i`. */
  ghost predicate LastFor<V>(d: Dict<V>, i: nat)
    requires i < |d|
  {
    forall j :: i < j < |d| ==> Dehyphen(d[j].0) != Dehyphen(d[i].0)
  }

  /** The result's keys are exactly the input keys with `-` replaced. */
  lemma {:induction false} RemoveHyphenKeys<V>(d: Dict<V>)
    decreases |d|
    ensures Keys(RemoveHyphen(d)) == DehyphenedKeys(d)
  {
    if |d| > 0 {
      var prefix := d[..|d| - 1];
      RemoveHyphenKeys(prefix);
      PutSpec(RemoveHyphen(prefix), Dehyphen(d[|d| - 1].0), d[|d| - 1].1);
      assert DehyphenedKeys(d) == DehyphenedKeys(prefix) + {Dehyphen(d[|d| - 1].0)} by {
        forall x | x in DehyphenedKeys(d) ensures x in DehyphenedKeys(prefix) + {Dehyphen(d[|d| - 1].0)} {
          var i :| 0 <= i < |d| && Dehyphen(d[i].0) == x;
          if i < |d| - 1 { assert prefix[i] == d[i]; }
        }
        forall x | x in DehyphenedKeys(prefix) ensures x in DehyphenedKeys(d) {
          var i :| 0 <= i < |prefix| && Dehyphen(prefix[i].0) == x;
          assert d[i] == prefix[i];
        }
      }
    }
  }

  /** Each rewritten key holds the value of the last input entry that
      rewrites to it; a value is never altered. */
  lemma {:induction false} RemoveHyphenValues<V>(d: Dict<V>, i: nat)
    requires i < |d| && LastFor(d, i)
    decreases |d|
    ensures Get(RemoveHyphen(d), Dehyphen(d[i].0)) == Some(d[i].1)
  {
    var n := |d| - 1;
    var prefix := d[..n];
    var prev := RemoveHyphen(prefix);
    var r := RemoveHyphen(d);
    var k := Dehyphen(d[n].0);
    PutSpec(prev, k, d[n].1);
    RemoveHyphenKeys(d);
    GetFound(r, Dehyphen(d[i].0));
    if i == n {
      assert Dehyphen(d[i].0) in Keys(r);
      var m :| 0 <= m < |r| && r[m].0 == k;
      assert r[m] == (k, d[n].1);
    } else {
      assert prefix[i] == d[i];
      forall j | i < j < |prefix| ensures Dehyphen(prefix[j].0) != Dehyphen(prefix[i].0) {
        assert prefix[j] == d[j];
      }
      RemoveHyphenValues(prefix, i);
      GetFound(prev, Dehyphen(d[i].0));
      var m :| 0 <= m < |prev| && prev[m].0 == Dehyphen(d[i].0) && prev[m].1 == d[i].1;
      assert Dehyphen(d[i].0) in Keys(r);
      var q :| 0 <= q < |r| && r[q].0 == Dehyphen(d[i].0);
      var j :| 0 <= j < |prev| && prev[j] == r[q];
      assert prev[j].0 == prev[m].0;
      assert j == m;
    }
  }

  /** A hyphen-free key does not keep its value when a later key rewrites to it:
      `{"a_b": 1, "a-b": 2}` becomes `{"a_b": 2}`. */
  lemma LaterKeyWins()
    ensures RemoveHyphen([("a_b", 1), ("a-b", 2)]) == [("a_b", 2)]
  {
    assert Dehyphen("a-b") == "a_b";
  }

  /** Keys that are already hyphen-free and distinct are left exactly as they are. */
  lemma {:induction false} RemoveHyphenFixedPoint<V>(d: Dict<V>)
    requires DistinctKeys(d)
    requires forall i :: 0 <= i < |d| ==> '-' !in d[i].0
    decreases |d|
    ensures RemoveHyphen(d) == d
  {
    if |d| > 0 {
      var prefix := d[..|d| - 1];
      RemoveHyphenFixedPoint(prefix);
      PutSpec(prefix, d[|d| - 1].0, d[|d| - 1].1);
      assert d[|d| - 1].0 !in Keys(prefix);
      assert d == prefix + [d[|d| - 1]];
    }
  }

  /** Removing hyphens twice is the same as removing them once. */
  lemma RemoveHyphenIdempotent<V>(d: Dict<V>)
    ensures RemoveHyphen(RemoveHyphen(d)) == RemoveHyphen(d)
  {
    RemoveHyphenFixedPoint(RemoveHyphen(d));
  }

  /** Entry `e` is some entry of `d` with its key rewritten. */
  ghost predicate Rewrites<V>(d: Dict<V>, e: (string, V))
  {
    exists j :: 0 <= j < |d| && Dehyphen(d[j].0) == e.0 && d[j].1 == e.1
  }

  /** Every entry of the result is some input entry with its key rewritten:
      values are carried over, never altered or invented. */
  lemma {:induction false} RemoveHyphenEntriesFromInput<V>(d: Dict<V>)
    decreases |d|
    ensures forall e :: e in RemoveHyphen(d) ==> Rewrites(d, e)
  {
    if |d| == 0 {
      assert RemoveHyphen(d) == [];
    } else {
      var n := |d| - 1;
      var prefix := d[..n];
      var prev := RemoveHyphen(prefix);
      var r := RemoveHyphen(d);
      RemoveHyphenEntriesFromInput(prefix);
      PutSpec(prev, Dehyphen(d[n].0), d[n].1);
      assert r == Put(prev, Dehyphen(d[n].0), d[n].1);
      forall e | e in r
        ensures Rewrites(d, e)
      {
        var i :| 0 <= i < |r| && r[i] == e;
        if e == (Dehyphen(d[n].0), d[n].1) {
          assert Dehyphen(d[n].0) == e.0 && d[n].1 == e.1;
        } else {
          var m :| 0 <= m < |prev| && prev[m] == e;
          assert prev[m] in prev;
          var j :| 0 <= j < |prefix| && Dehyphen(prefix[j].0) == e.0 && prefix[j].1 == e.1;
          assert d[j] == prefix[j];
        }
      }
    }
  }

  /** The keep rule of `filter_datasets`: an id without `/` is kept; a
      community id `user/name` is kept only for an included user. */
  predicate Keep(id: string, includedUsers: set<string>)
  {
    '/' !in id || FirstSegment(id) in includedUsers
  }

  /** The loop of `filter_datasets` over the ids the registry returned, in order. */
  function KeepIds(ids: seq<string>, includedUsers: set<string>): (r: seq<string>)
    ensures forall x :: multiset(r)[x] == if Keep(x, includedUsers) then multiset(ids)[x] else 0
  {
    if |ids| == 0 then []
    else
      assert ids == [ids[0]] + ids[1..];
      (if Keep(ids[0], includedUsers) then [ids[0]] else []) + KeepIds(ids[1..], includedUsers)
  }

  /** `filter_datasets` without the paging over the network: the kept ids,
      duplicates included, in ascending code-point order. */
  function FilterDatasets(ids: seq<string>, includedUsers: set<string>): (r: seq<string>)
    ensures SortedBy(r, s => s)
    ensures forall x :: multiset(r)[x] == if Keep(x, includedUsers) then multiset(ids)[x] else 0
  {
    SortBy(KeepIds(ids, includedUsers), s => s)
  }

  /** The keys of `SERIES_A_DATASET_NAME_DICT`, in insertion order; the
      configuration lists they map to play no part here. */
  const SeriesADatasetNames: seq<string> := [
    "udhr",
    "AmazonScience/mintaka",
    "xcsr",
    "shmuhammad/AfriSenti-twitter-sentiment",
    "indonlp/NusaX-senti",
    "masakhane/masakhanews",
    "papluca/language-identification",
    "adithya7/xlel_wd",
    "sbmaruf/forai_ml-ted_talk_iwslt",
    "sbmaruf/forai_ml_masakhane_mafand",
    "exams",
    "allenai/soda",
    "arabic_billion_words"
  ]

  /** `CUSTOM_DATASET = list(SERIES_A_DATASET_NAME_DICT.keys())`. */
  const CustomDataset: seq<string> := SeriesADatasetNames

  /** The first occurrence of each element, in order (the model's choice of
      iteration order for `list(set(...))`). */
  function Dedupe(xs: seq<string>): (r: seq<string>)
    ensures forall x :: multiset(r)[x] == if x in xs then 1 else 0
  {
    if |xs| == 0 then []
    else
      var prefix := xs[..|xs| - 1];
      var last := xs[|xs| - 1];
      var prev := Dedupe(prefix);
      assert xs == prefix + [last];
      assert forall x :: x in prev <==> multiset(prev)[x] > 0;
      if last in prev then prev else prev + [last]
  }

  /** A sequence in which every element occurs at most once has no two equal positions. */
  lemma NoRepeats(xs: seq<string>)
    requires forall x :: multiset(xs)[x] <= 1
    ensures forall i, j :: 0 <= i < j < |xs| ==> xs[i] != xs[j]
  {
    forall i, j | 0 <= i < j < |xs| ensures xs[i] != xs[j] {
      assert xs == xs[..j] + xs[j..];
      assert xs[i] in multiset(xs[..j]);
      assert xs[j] in multiset(xs[j..]);
      assert multiset(xs) == multiset(xs[..j]) + multiset(xs[j..]);
      assert multiset(xs)[xs[j]] == multiset(xs[..j])[xs[j]] + multiset(xs[j..])[xs[j]];
      assert multiset(xs[..j])[xs[i]] >= 1 && multiset(xs[j..])[xs[j]] >= 1;
    }
  }

  /** `list_datasets`: the filtered ids merged with `CUSTOM_DATASET`, each name
      once, ordered by its lower-cased form. */
  function ListDatasets(ids: seq<string>, includedUsers: set<string>): (r: seq<string>)
    ensures forall x :: x in r <==> (x in ids && Keep(x, includedUsers)) || x in CustomDataset
    ensures forall i, j :: 0 <= i < j < |r| ==> r[i] != r[j]
    ensures SortedBy(r, Lower)
  {
    var filtered := FilterDatasets(ids, includedUsers);
    var merged := filtered + CustomDataset;
    var r := SortBy(Dedupe(merged), Lower);
    assert forall x :: x in r <==> multiset(r)[x] > 0;
    assert forall x :: x in filtered <==> multiset(filtered)[x] > 0;
    assert forall x :: x in ids <==> multiset(ids)[x] > 0;
    NoRepeats(r);
    r
  }

  /** Every key of `SERIES_A_DATASET_NAME_DICT` is listed, whatever the registry returns. */
  lemma ListsEverySeriesADataset(ids: seq<string>, includedUsers: set<string>)
    ensures forall name :: name in SeriesADatasetNames ==> name in ListDatasets(ids, includedUsers)
  {
  }
}
