/**
 Order-preserving selection over sequences: the boolean-mask indexing
 `df[mask]` of a data frame, seen as a function on the sequence of its rows.
 */
module Sequences {

  /** The elements of `xs` that satisfy `p`, in their original order. */
  function Where<T>(xs: seq<T>, p: T -> bool): (r: seq<T>)
    ensures |r| <= |xs|
    ensures forall i :: 0 <= i < |r| ==> p(r[i])
    ensures forall x :: x in r ==> x in xs
  {
    if xs == [] then []
    else if p(xs[0]) then [xs[0]] + Where(xs[1..], p)
    else Where(xs[1..], p)
  }

  /** `a` can be obtained from `b` by deleting elements. */
  predicate IsSubseq<T(==)>(a: seq<T>, b: seq<T>)
    decreases |b|
  {
    a == [] ||
    (b != [] && ((a[0] == b[0] && IsSubseq(a[1..], b[1..])) || IsSubseq(a, b[1..])))
  }

  /** Number of occurrences of `x` in `xs`. */
  function Count<T(==)>(xs: seq<T>, x: T): (n: nat)
    ensures n <= |xs|
    ensures n > 0 <==> x in xs
  {
    if xs == [] then 0
    else (if xs[0] == x then 1 else 0) + Count(xs[1..], x)
  }

  lemma CountAppend<T>(a: seq<T>, b: seq<T>, x: T)
    ensures Count(a + b, x) == Count(a, x) + Count(b, x)
  {
    if a == [] {
      assert a + b == b;
    } else {
      assert (a + b)[1..] == a[1..] + b;
      CountAppend(a[1..], b, x);
    }
  }

  /** Selection never invents, duplicates or reorders an element. */
  lemma {:induction false} WhereIsSubseq<T>(xs: seq<T>, p: T -> bool)
    ensures IsSubseq(Where(xs, p), xs)
  {
    if xs != [] {
      WhereIsSubseq(xs[1..], p);
    }
  }

  /** An element is kept with all its occurrences when it satisfies `p`, and dropped entirely otherwise. */
  lemma {:induction false} WhereCount<T>(xs: seq<T>, p: T -> bool, x: T)
    ensures Count(Where(xs, p), x) == if p(x) then Count(xs, x) else 0
  {
    if xs != [] {
      WhereCount(xs[1..], p, x);
      if p(xs[0]) {
        assert Where(xs, p) == [xs[0]] + Where(xs[1..], p);
        CountAppend([xs[0]], Where(xs[1..], p), x);
      }
    }
  }

  /** Membership in the selection: present in the input and satisfies `p`. */
  lemma WhereMember<T>(xs: seq<T>, p: T -> bool, x: T)
    ensures x in Where(xs, p) <==> x in xs && p(x)
  {
    WhereCount(xs, p, x);
  }

  /** A predicate that holds everywhere selects the whole sequence. */
  lemma {:induction false} WhereAll<T>(xs: seq<T>, p: T -> bool)
    requires forall i :: 0 <= i < |xs| ==> p(xs[i])
    ensures Where(xs, p) == xs
  {
    if xs != [] {
      WhereAll(xs[1..], p);
      assert xs == [xs[0]] + xs[1..];
    }
  }

  /** Selecting by `p` and then by `q` is selecting by their conjunction `c`. */
  lemma {:induction false} WhereWhere<T>(xs: seq<T>, p: T -> bool, q: T -> bool, c: T -> bool)
    requires forall x :: c(x) == (p(x) && q(x))
    ensures Where(Where(xs, p), q) == Where(xs, c)
  {
    if xs != [] {
      WhereWhere(xs[1..], p, q, c);
      if p(xs[0]) {
        assert Where(xs, p) == [xs[0]] + Where(xs[1..], p);
        assert Where(xs, p)[1..] == Where(xs[1..], p);
      }
    }
  }

  /** A weaker predicate keeps a superset, in the same order. */
  lemma {:induction false} WhereMonotone<T>(xs: seq<T>, p: T -> bool, q: T -> bool)
    requires forall i :: 0 <= i < |xs| ==> p(xs[i]) ==> q(xs[i])
    ensures IsSubseq(Where(xs, p), Where(xs, q))
  {
    if xs != [] {
      WhereMonotone(xs[1..], p, q);
      var wp, wq := Where(xs[1..], p), Where(xs[1..], q);
      if p(xs[0]) {
        assert Where(xs, p) == [xs[0]] + wp;
        assert Where(xs, q) == [xs[0]] + wq;
        assert ([xs[0]] + wp)[1..] == wp;
        assert ([xs[0]] + wq)[1..] == wq;
      } else if q(xs[0]) {
        assert Where(xs, q) == [xs[0]] + wq;
        assert ([xs[0]] + wq)[1..] == wq;
      }
    }
  }
}
