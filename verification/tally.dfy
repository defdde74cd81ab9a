/**
 Counting rows per distinct value of one column: `groupby(col).size()`
 (keys in ascending order) and `col.value_counts()` (largest count first).
 Missing values are not counted by either.
 */
module Tally {
  import opened Optional
  import opened Sequences
  import opened Order

  /** One row of a count table: a column value and how many rows hold it. */
  datatype KeyCount = KeyCount(key: string, count: nat)

  /** Number of present (non-missing) cells. */
  function NonNull<T>(vals: seq<Option<T>>): (n: nat)
    ensures n <= |vals|
  {
    if vals == [] then 0
    else (if vals[0].Some? then 1 else 0) + NonNull(vals[1..])
  }

  /** Sum of the counts of a count table. */
  function Total(r: seq<KeyCount>): nat {
    if r == [] then 0 else r[0].count + Total(r[1..])
  }

  predicate DistinctKeys(r: seq<KeyCount>) {
    forall i, j :: 0 <= i < j < |r| ==> r[i].key != r[j].key
  }

  predicate HasKey(r: seq<KeyCount>, k: string) {
    exists i :: 0 <= i < |r| && r[i].key == k
  }

  predicate Distinct(keys: seq<string>) {
    forall i, j :: 0 <= i < j < |keys| ==> keys[i] != keys[j]
  }

  /** The count table of `vals` over the given keys, in the keys' order. */
  function Tabulate(keys: seq<string>, vals: seq<Option<string>>): (r: seq<KeyCount>)
    ensures |r| == |keys|
    ensures forall i :: 0 <= i < |r| ==> r[i].key == keys[i] && r[i].count == Count(vals, Some(keys[i]))
  {
    if keys == [] then []
    else [KeyCount(keys[0], Count(vals, Some(keys[0])))] + Tabulate(keys[1..], vals)
  }

  /** 1 when the cell `v` holds one of `keys`, else 0. */
  function Hits(keys: seq<string>, v: Option<string>): nat {
    if v.Some? && v.value in keys then 1 else 0
  }

  lemma {:induction false} TotalTabulateEmpty(keys: seq<string>)
    ensures Total(Tabulate(keys, [])) == 0
  {
    if keys != [] {
      TotalTabulateEmpty(keys[1..]);
    }
  }

  /** One more row raises the total of a count table by one exactly when its value is a key. */
  lemma {:induction false} TotalTabulateCons(keys: seq<string>, v: Option<string>, rest: seq<Option<string>>)
    requires Distinct(keys)
    ensures Total(Tabulate(keys, [v] + rest)) == Hits(keys, v) + Total(Tabulate(keys, rest))
  {
    if keys != [] {
      assert Distinct(keys[1..]) by {
        forall i, j | 0 <= i < j < |keys[1..]| ensures keys[1..][i] != keys[1..][j] {
          assert keys[1..][i] == keys[i + 1] && keys[1..][j] == keys[j + 1];
        }
      }
      TotalTabulateCons(keys[1..], v, rest);
      assert ([v] + rest)[1..] == rest;
      if v == Some(keys[0]) {
        assert keys[0] !in keys[1..] by {
          forall i | 0 <= i < |keys[1..]| ensures keys[1..][i] != keys[0] {
            assert keys[1..][i] == keys[i + 1];
          }
        }
      }
      assert v.Some? && v.value in keys <==> v == Some(keys[0]) || (v.Some? && v.value in keys[1..]);
    }
  }

  /** Over distinct keys that cover every present value, the counts add up to the number of present values. */
  lemma {:induction false} TotalTabulate(keys: seq<string>, vals: seq<Option<string>>)
    requires Distinct(keys)
    requires forall i :: 0 <= i < |vals| && vals[i].Some? ==> vals[i].value in keys
    ensures Total(Tabulate(keys, vals)) == NonNull(vals)
  {
    if vals == [] {
      TotalTabulateEmpty(keys);
    } else {
      TotalTabulate(keys, vals[1..]);
      assert vals == [vals[0]] + vals[1..];
      TotalTabulateCons(keys, vals[0], vals[1..]);
    }
  }

  /** The keys of a count table over `keys` are exactly `keys`. */
  lemma TabulateKeys(keys: seq<string>, vals: seq<Option<string>>)
    ensures forall k :: HasKey(Tabulate(keys, vals), k) <==> k in keys
  {
    var r := Tabulate(keys, vals);
    forall k | k in keys ensures HasKey(r, k) {
      var i :| 0 <= i < |keys| && keys[i] == k;
      assert r[i].key == k;
    }
  }

  lemma SortedKeysDistinct(keys: seq<string>)
    requires StrictlyAscending(keys)
    ensures Distinct(keys)
  {
    forall i, j | 0 <= i < j < |keys| ensures keys[i] != keys[j] {
      AscendingDistinct(keys, i, j);
    }
  }

  /** Keys listing every present value cover each present cell. */
  lemma CoveredCells(keys: seq<string>, vals: seq<Option<string>>)
    requires forall x :: x in keys <==> Some(x) in vals
    ensures forall i :: 0 <= i < |vals| && vals[i].Some? ==> vals[i].value in keys
  {
    forall i | 0 <= i < |vals| && vals[i].Some? ensures vals[i].value in keys {
      assert Some(vals[i].value) in vals;
    }
  }

  /** Over keys that all occur, every count of the table is positive. */
  lemma TabulatePositive(keys: seq<string>, vals: seq<Option<string>>)
    requires forall x :: x in keys ==> Some(x) in vals
    ensures forall i :: 0 <= i < |Tabulate(keys, vals)| ==> Tabulate(keys, vals)[i].count > 0
  {
    var r := Tabulate(keys, vals);
    forall i | 0 <= i < |r| ensures r[i].count > 0 {
      assert keys[i] in keys;
    }
  }

  /**
   `groupby(col).size()`: one entry per distinct present value, in ascending
   order of value, with the number of rows holding it.
   */
  function GroupCounts(vals: seq<Option<string>>): (r: seq<KeyCount>)
    ensures forall i, j :: 0 <= i < j < |r| ==> Less(r[i].key, r[j].key)
    ensures forall i :: 0 <= i < |r| ==> r[i].count == Count(vals, Some(r[i].key)) && r[i].count > 0
    ensures forall k :: HasKey(r, k) <==> Some(k) in vals
    ensures Total(r) == NonNull(vals)
  {
    var keys := SortedDistinct(vals);
    TabulateKeys(keys, vals);
    TabulatePositive(keys, vals);
    SortedKeysDistinct(keys);
    CoveredCells(keys, vals);
    TotalTabulate(keys, vals);
    Tabulate(keys, vals)
  }

  // ---------------------------------------------------------------- value_counts order

  /** Largest count first. */
  predicate NonIncreasing(r: seq<KeyCount>) {
    forall i, j :: 0 <= i < j < |r| ==> r[i].count >= r[j].count
  }

  lemma NonIncreasingCons(h: KeyCount, t: seq<KeyCount>)
    requires NonIncreasing(t)
    requires forall y :: y in t ==> h.count >= y.count
    ensures NonIncreasing([h] + t)
  {
    var xs := [h] + t;
    forall i, j | 0 <= i < j < |xs| ensures xs[i].count >= xs[j].count {
      assert xs[j] == t[j - 1];
      if i > 0 {
        assert xs[i] == t[i - 1];
      } else {
        assert xs[j] in t;
      }
    }
  }

  lemma DistinctKeysCons(h: KeyCount, t: seq<KeyCount>)
    requires DistinctKeys(t)
    requires forall y :: y in t ==> y.key != h.key
    ensures DistinctKeys([h] + t)
  {
    var xs := [h] + t;
    forall i, j | 0 <= i < j < |xs| ensures xs[i].key != xs[j].key {
      assert xs[j] == t[j - 1];
      if i > 0 {
        assert xs[i] == t[i - 1];
      } else {
        assert xs[j] in t;
      }
    }
  }

  /** The head of a table with distinct keys has a key no later entry has. */
  lemma DistinctKeysSplit(xs: seq<KeyCount>)
    requires xs != [] && DistinctKeys(xs)
    ensures DistinctKeys(xs[1..])
    ensures forall y :: y in xs[1..] ==> y.key != xs[0].key
  {
    forall i, j | 0 <= i < j < |xs[1..]| ensures xs[1..][i].key != xs[1..][j].key {
      assert xs[1..][i] == xs[i + 1] && xs[1..][j] == xs[j + 1];
    }
    forall y | y in xs[1..] ensures y.key != xs[0].key {
      var k :| 0 <= k < |xs[1..]| && xs[1..][k] == y;
      assert xs[k + 1] == y;
    }
  }

  /** Every entry of a non-increasing table is at most its head. */
  lemma NonIncreasingSplit(xs: seq<KeyCount>)
    requires xs != [] && NonIncreasing(xs)
    ensures NonIncreasing(xs[1..])
    ensures forall y :: y in xs[1..] ==> xs[0].count >= y.count
  {
    forall y | y in xs[1..] ensures xs[0].count >= y.count {
      var k :| 0 <= k < |xs[1..]| && xs[1..][k] == y;
      assert xs[k + 1] == y;
    }
  }

  /** Puts `b` into a table ordered by decreasing count, before the entries with the same count. */
  function InsertByCount(xs: seq<KeyCount>, b: KeyCount): (r: seq<KeyCount>)
    requires NonIncreasing(xs)
    ensures NonIncreasing(r)
    ensures multiset(r) == multiset(xs) + multiset{b}
  {
    if xs == [] || xs[0].count <= b.count then
      PrependLargest(b, xs);
      [b] + xs
    else
      NonIncreasingSplit(xs);
      var rest := InsertByCount(xs[1..], b);
      KeepHead(xs, b, rest);
      [xs[0]] + rest
  }

  /** An entry at least as large as the head goes in front. */
  lemma PrependLargest(b: KeyCount, xs: seq<KeyCount>)
    requires NonIncreasing(xs) && (xs == [] || xs[0].count <= b.count)
    ensures NonIncreasing([b] + xs)
    ensures multiset([b] + xs) == multiset(xs) + multiset{b}
  {
    if xs != [] {
      NonIncreasingSplit(xs);
      assert xs == [xs[0]] + xs[1..];
    }
    NonIncreasingCons(b, xs);
  }

  /** A head larger than the inserted entry stays in front of the rest with the entry inserted. */
  lemma KeepHead(xs: seq<KeyCount>, b: KeyCount, rest: seq<KeyCount>)
    requires xs != [] && NonIncreasing(xs) && xs[0].count > b.count
    requires NonIncreasing(rest) && multiset(rest) == multiset(xs[1..]) + multiset{b}
    ensures NonIncreasing([xs[0]] + rest)
    ensures multiset([xs[0]] + rest) == multiset(xs) + multiset{b}
  {
    NonIncreasingSplit(xs);
    assert xs == [xs[0]] + xs[1..];
    forall y | y in rest ensures xs[0].count >= y.count {
      assert y in multiset(rest);
    }
    NonIncreasingCons(xs[0], rest);
  }

  /** Inserting adds the entry's count to the total. */
  lemma {:induction false} InsertTotal(xs: seq<KeyCount>, b: KeyCount)
    requires NonIncreasing(xs)
    ensures Total(InsertByCount(xs, b)) == Total(xs) + b.count
  {
    if !(xs == [] || xs[0].count <= b.count) {
      NonIncreasingSplit(xs);
      InsertTotal(xs[1..], b);
      var rest := InsertByCount(xs[1..], b);
      assert ([xs[0]] + rest)[1..] == rest;
    }
  }

  /** Inserting an entry with a new key keeps the keys distinct. */
  lemma {:induction false} InsertDistinct(xs: seq<KeyCount>, b: KeyCount)
    requires NonIncreasing(xs) && DistinctKeys(xs)
    requires forall y :: y in xs ==> y.key != b.key
    ensures DistinctKeys(InsertByCount(xs, b))
  {
    if xs == [] || xs[0].count <= b.count {
      DistinctKeysCons(b, xs);
    } else {
      NonIncreasingSplit(xs);
      DistinctKeysSplit(xs);
      assert forall y :: y in xs[1..] ==> y in xs;
      InsertDistinct(xs[1..], b);
      var rest := InsertByCount(xs[1..], b);
      forall y | y in rest ensures y.key != xs[0].key {
        assert y in multiset(rest);
      }
      DistinctKeysCons(xs[0], rest);
    }
  }

  /** Orders a count table by decreasing count (insertion sort). */
  function SortByCount(xs: seq<KeyCount>): (r: seq<KeyCount>)
    ensures NonIncreasing(r)
    ensures multiset(r) == multiset(xs)
  {
    if xs == [] then []
    else
      var rest := SortByCount(xs[1..]);
      assert xs == [xs[0]] + xs[1..];
      InsertByCount(rest, xs[0])
  }

  /** Sorting keeps the total. */
  lemma {:induction false} SortTotal(xs: seq<KeyCount>)
    ensures Total(SortByCount(xs)) == Total(xs)
  {
    if xs != [] {
      SortTotal(xs[1..]);
      InsertTotal(SortByCount(xs[1..]), xs[0]);
    }
  }

  /** Sorting keeps distinct keys distinct. */
  lemma {:induction false} SortDistinct(xs: seq<KeyCount>)
    requires DistinctKeys(xs)
    ensures DistinctKeys(SortByCount(xs))
  {
    if xs != [] {
      DistinctKeysSplit(xs);
      SortDistinct(xs[1..]);
      var rest := SortByCount(xs[1..]);
      forall y | y in rest ensures y.key != xs[0].key {
        assert y in multiset(rest);
        assert y in multiset(xs[1..]);
      }
      InsertDistinct(rest, xs[0]);
    }
  }

  /** A permutation has the same entries. */
  lemma SameEntries(a: seq<KeyCount>, b: seq<KeyCount>)
    requires multiset(a) == multiset(b)
    ensures forall y :: y in a <==> y in b
  {
    forall y ensures y in a <==> y in b {
      assert y in a <==> y in multiset(a);
      assert y in b <==> y in multiset(b);
    }
  }

  /**
   `col.value_counts()`: one entry per distinct present value, with the
   number of rows holding it, largest count first.  The order among equal
   counts is not specified by the library; this model lists them by value.
   */
  function ValueCounts(vals: seq<Option<string>>): (r: seq<KeyCount>)
    ensures NonIncreasing(r)
    ensures DistinctKeys(r)
    ensures forall i :: 0 <= i < |r| ==> r[i].count == Count(vals, Some(r[i].key)) && r[i].count > 0
    ensures forall k :: HasKey(r, k) <==> Some(k) in vals
    ensures Total(r) == NonNull(vals)
  {
    var g := GroupCounts(vals);
    GroupDistinct(g);
    var r := SortByCount(g);
    SortTotal(g);
    SortDistinct(g);
    SameEntries(r, g);
    SameKeys(r, g);
    forall i | 0 <= i < |r| ensures r[i].count == Count(vals, Some(r[i].key)) && r[i].count > 0 {
      assert r[i] in g;
    }
    r
  }

  lemma GroupDistinct(g: seq<KeyCount>)
    requires forall i, j :: 0 <= i < j < |g| ==> Less(g[i].key, g[j].key)
    ensures DistinctKeys(g)
  {
    forall i, j | 0 <= i < j < |g| ensures g[i].key != g[j].key {
      LessIrreflexive(g[i].key);
    }
  }

  /** Tables with the same entries have the same keys. */
  lemma SameKeys(a: seq<KeyCount>, b: seq<KeyCount>)
    requires forall y :: y in a <==> y in b
    ensures forall k :: HasKey(a, k) <==> HasKey(b, k)
  {
    forall k ensures HasKey(a, k) <==> HasKey(b, k) {
      if HasKey(a, k) {
        var i :| 0 <= i < |a| && a[i].key == k;
        assert a[i] in b;
      }
      if HasKey(b, k) {
        var i :| 0 <= i < |b| && b[i].key == k;
        assert b[i] in a;
      }
    }
  }
}
