/**
 Python's ordering of strings (code point by code point, a proper prefix
 first) and the sorted, de-duplicated lists `sorted(column.dropna().unique())`.
 */
module Order {
  import opened Optional

  /** `a < b` on Python strings. */
  predicate Less(a: string, b: string)
    decreases |a|
  {
    if a == [] then b != []
    else if b == [] then false
    else a[0] < b[0] || (a[0] == b[0] && Less(a[1..], b[1..]))
  }

  lemma {:induction false} LessIrreflexive(a: string)
    ensures !Less(a, a)
  {
    if a != [] {
      LessIrreflexive(a[1..]);
    }
  }

  lemma {:induction false} LessTransitive(a: string, b: string, c: string)
    requires Less(a, b) && Less(b, c)
    ensures Less(a, c)
    decreases |a|
  {
    if a != [] && a[0] == b[0] && b[0] == c[0] {
      LessTransitive(a[1..], b[1..], c[1..]);
    }
  }

  lemma {:induction false} LessTotal(a: string, b: string)
    requires a != b
    ensures Less(a, b) || Less(b, a)
    decreases |a|
  {
    if a != [] && b != [] && a[0] == b[0] {
      assert a == [a[0]] + a[1..] && b == [b[0]] + b[1..];
      LessTotal(a[1..], b[1..]);
    }
  }

  /** Sorted with no repeats: every earlier element is strictly smaller. */
  predicate StrictlyAscending(xs: seq<string>) {
    forall i, j :: 0 <= i < j < |xs| ==> Less(xs[i], xs[j])
  }

  lemma AscendingDistinct(xs: seq<string>, i: int, j: int)
    requires StrictlyAscending(xs)
    requires 0 <= i < |xs| && 0 <= j < |xs| && i != j
    ensures xs[i] != xs[j]
  {
    if i < j {
      LessIrreflexive(xs[i]);
    } else {
      LessIrreflexive(xs[j]);
    }
  }

  /** Prepending an element smaller than all others keeps a list strictly ascending. */
  lemma AscendingCons(h: string, t: seq<string>)
    requires StrictlyAscending(t)
    requires forall y :: y in t ==> Less(h, y)
    ensures StrictlyAscending([h] + t)
  {
    var xs := [h] + t;
    forall i, j | 0 <= i < j < |xs| ensures Less(xs[i], xs[j]) {
      if i > 0 {
        assert xs[i] == t[i - 1] && xs[j] == t[j - 1];
      } else {
        assert xs[j] == t[j - 1];
        assert xs[j] in t;
      }
    }
  }

  /** Adds `x` to a strictly ascending list, at its place, unless it is already there. */
  function Insert(xs: seq<string>, x: string): (r: seq<string>)
    requires StrictlyAscending(xs)
    ensures StrictlyAscending(r)
    ensures forall y :: y in r <==> y in xs || y == x
  {
    if xs == [] then [x]
    else if x == xs[0] then xs
    else if Less(x, xs[0]) then
      assert forall y :: y in xs ==> Less(x, y) by {
        forall y | y in xs ensures Less(x, y) {
          var k :| 0 <= k < |xs| && xs[k] == y;
          if k > 0 {
            LessTransitive(x, xs[0], y);
          }
        }
      }
      AscendingCons(x, xs);
      [x] + xs
    else
      LessTotal(x, xs[0]);
      var rest := Insert(xs[1..], x);
      assert forall y :: y in rest ==> Less(xs[0], y) by {
        forall y | y in rest ensures Less(xs[0], y) {
          if y != x {
            var k :| 0 <= k < |xs[1..]| && xs[1..][k] == y;
            assert xs[k + 1] == y;
          }
        }
      }
      AscendingCons(xs[0], rest);
      assert xs == [xs[0]] + xs[1..];
      [xs[0]] + rest
  }

  /**
   `sorted(values.dropna().unique())`: the distinct present values, in
   ascending order.
   */
  function SortedDistinct(vals: seq<Option<string>>): (r: seq<string>)
    ensures StrictlyAscending(r)
    ensures forall x :: x in r <==> Some(x) in vals
  {
    if vals == [] then []
    else
      var rest := SortedDistinct(vals[1..]);
      assert forall v :: v in vals <==> v == vals[0] || v in vals[1..];
      match vals[0]
      case None => rest
      case Some(x) => Insert(rest, x)
  }

  /** There is only one strictly ascending list of a given set of strings. */
  lemma {:induction false} AscendingUnique(a: seq<string>, b: seq<string>)
    requires StrictlyAscending(a) && StrictlyAscending(b)
    requires forall x :: x in a <==> x in b
    ensures a == b
    decreases |a|
  {
    if a != [] {
      assert b != [] by {
        assert a[0] in b;
      }
      var a0, b0 := a[0], b[0];
      assert a0 == b0 by {
        if a0 != b0 {
          assert a0 in b && b0 in a;
          var i :| 0 <= i < |b| && b[i] == a0;
          var k :| 0 <= k < |a| && a[k] == b0;
          assert Less(b0, a0) by {
            assert Less(b[0], b[i]);
          }
          assert Less(a0, b0) by {
            assert Less(a[0], a[k]);
          }
          LessIrreflexive(a0);
          LessTransitive(a0, b0, a0);
        }
      }
      forall x ensures x in a[1..] <==> x in b[1..] {
        if x in a[1..] {
          var k :| 0 <= k < |a[1..]| && a[1..][k] == x;
          AscendingDistinct(a, 0, k + 1);
          assert x in b;
        }
        if x in b[1..] {
          var k :| 0 <= k < |b[1..]| && b[1..][k] == x;
          AscendingDistinct(b, 0, k + 1);
          assert x in a;
        }
      }
      assert StrictlyAscending(a[1..]) && StrictlyAscending(b[1..]) by {
        forall i, j | 0 <= i < j < |a[1..]| ensures Less(a[1..][i], a[1..][j]) {
          assert a[1..][i] == a[i + 1] && a[1..][j] == a[j + 1];
        }
        forall i, j | 0 <= i < j < |b[1..]| ensures Less(b[1..][i], b[1..][j]) {
          assert b[1..][i] == b[i + 1] && b[1..][j] == b[j + 1];
        }
      }
      AscendingUnique(a[1..], b[1..]);
      assert a == [a[0]] + a[1..] && b == [b[0]] + b[1..];
    } else {
      MembersOfEmpty(b);
    }
  }

  /** A list with no members is empty. */
  lemma MembersOfEmpty(b: seq<string>)
    ensures (forall x :: x !in b) ==> b == []
  {
    if b != [] {
      assert b[0] in b;
    }
  }
}
