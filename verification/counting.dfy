/** Counting and first-occurrence ordering over sequences: the behaviour of a
    Python dict used as an insertion-ordered counter. */
module Counting {

  /** Number of occurrences of `x` in `xs`. */
  function Count<T(==)>(xs: seq<T>, x: T): nat {
    multiset(xs)[x]
  }

  /** No element occurs twice. */
  predicate NoDups<T(==)>(xs: seq<T>) {
    forall i, j :: 0 <= i < j < |xs| ==> xs[i] != xs[j]
  }

  /** The distinct elements of `xs` in the order of their first occurrence,
      i.e. the key order of a Python dict filled by scanning `xs`. */
  function Distinct<T(==)>(xs: seq<T>): (r: seq<T>)
    ensures NoDups(r)
    ensures forall i :: 0 <= i < |r| ==> r[i] in xs
    ensures forall i :: 0 <= i < |xs| ==> xs[i] in r
    decreases |xs|
  {
    if |xs| == 0 then []
    else
      var d := Distinct(xs[..|xs| - 1]);
      if xs[|xs| - 1] in d then d else d + [xs[|xs| - 1]]
  }

  /** The elements of `xs` satisfying `p`, in order. */
  function Filter<T>(xs: seq<T>, p: T -> bool): (r: seq<T>)
    ensures |r| <= |xs|
    ensures forall i :: 0 <= i < |r| ==> p(r[i])
    decreases |xs|
  {
    if |xs| == 0 then []
    else Filter(xs[..|xs| - 1], p) + (if p(xs[|xs| - 1]) then [xs[|xs| - 1]] else [])
  }

  /** `Filter` keeps exactly the elements that satisfy `p`: everything it
      returns comes from `xs`, and every element of `xs` satisfying `p` is
      returned. */
  lemma {:induction false} FilterMembers<T>(xs: seq<T>, p: T -> bool)
    ensures forall i :: 0 <= i < |Filter(xs, p)| ==> Filter(xs, p)[i] in xs
    ensures forall i :: 0 <= i < |xs| && p(xs[i]) ==> xs[i] in Filter(xs, p)
    decreases |xs|
  {
    if |xs| > 0 {
      var ys, y := xs[..|xs| - 1], xs[|xs| - 1];
      FilterMembers(ys, p);
      var f := Filter(ys, p);
      var r := Filter(xs, p);
      assert r == f + (if p(y) then [y] else []);
      forall i | 0 <= i < |r| ensures r[i] in xs {
        if i < |f| {
          assert r[i] == f[i] && f[i] in ys;
        } else {
          assert r[i] == y;
        }
      }
      forall i | 0 <= i < |xs| && p(xs[i]) ensures xs[i] in r {
        if i < |ys| {
          assert xs[i] == ys[i] && ys[i] in f;
        } else {
          assert r[|r| - 1] == y;
        }
      }
    }
  }

  /** An element of `xs` survives the filter exactly when it satisfies `p`. */
  lemma FilterIn<T>(xs: seq<T>, p: T -> bool, x: T)
    requires x in xs
    ensures x in Filter(xs, p) <==> p(x)
  {
    FilterMembers(xs, p);
    var r := Filter(xs, p);
    if x in r {
      var q :| 0 <= q < |r| && r[q] == x;
      assert p(r[q]);
    }
    var i :| 0 <= i < |xs| && xs[i] == x;
    assert p(x) ==> xs[i] in r;
  }

  /** Counting one more element. */
  lemma CountSnoc<T>(xs: seq<T>, y: T, x: T)
    ensures Count(xs + [y], x) == Count(xs, x) + (if x == y then 1 else 0)
  {
    assert multiset(xs + [y]) == multiset(xs) + multiset{y};
  }

  /** A prefix extended by the next element is the longer prefix. */
  lemma PrefixSnoc<T>(xs: seq<T>, i: nat)
    requires i < |xs|
    ensures xs[..i + 1] == xs[..i] + [xs[i]]
    ensures xs[..i + 1][..i] == xs[..i]
  {
  }

  /** `Distinct` of a one-element extension. */
  lemma DistinctSnoc<T>(xs: seq<T>, y: T)
    ensures Distinct(xs + [y]) == if y in Distinct(xs) then Distinct(xs) else Distinct(xs) + [y]
  {
    assert (xs + [y])[..|xs + [y]| - 1] == xs;
  }

  /** `Filter` of a one-element extension. */
  lemma FilterSnoc<T>(xs: seq<T>, y: T, p: T -> bool)
    ensures Filter(xs + [y], p) == Filter(xs, p) + (if p(y) then [y] else [])
  {
    assert (xs + [y])[..|xs + [y]| - 1] == xs;
  }

  /** An element occurring exactly once in `xs` occurs once in `Filter`ed
      output when it satisfies the predicate; generally the count is kept. */
  lemma FilterCount<T>(xs: seq<T>, p: T -> bool, x: T)
    ensures Count(Filter(xs, p), x) == if p(x) then Count(xs, x) else 0
    decreases |xs|
  {
    if |xs| > 0 {
      var ys := xs[..|xs| - 1];
      assert xs == ys + [xs[|xs| - 1]];
      FilterCount(ys, p, x);
      CountSnoc(ys, xs[|xs| - 1], x);
      FilterSnoc(ys, xs[|xs| - 1], p);
      CountSnoc(Filter(ys, p), xs[|xs| - 1], x);
    }
  }

  /** The elements of a sequence as a set. */
  function Elements<T>(xs: seq<T>): set<T> {
    set x | x in xs
  }

  /** A sequence without repetitions has as many elements as its set. */
  lemma {:induction false} NoDupsCard<T>(xs: seq<T>)
    requires NoDups(xs)
    ensures |Elements(xs)| == |xs|
    decreases |xs|
  {
    if |xs| > 0 {
      var ys := xs[..|xs| - 1];
      assert NoDups(ys);
      NoDupsCard(ys);
      assert Elements(xs) == Elements(ys) + {xs[|xs| - 1]} by {
        assert xs == ys + [xs[|xs| - 1]];
      }
      assert xs[|xs| - 1] !in Elements(ys) by {
        forall i | 0 <= i < |ys| ensures ys[i] != xs[|xs| - 1] {
          assert ys[i] == xs[i];
        }
      }
    }
  }

  /** A sequence without repetitions drawn from a set is no longer than it. */
  lemma NoDupsBounded<T>(xs: seq<T>, s: set<T>)
    requires NoDups(xs) && Elements(xs) <= s
    ensures |xs| <= |s|
  {
    NoDupsCard(xs);
    var e := Elements(xs);
    assert s == e + (s - e);
    assert e * (s - e) == {};
  }

  /** First-occurrence order: before any occurrence of a later entry of
      `Distinct(xs)` there is an occurrence of every earlier entry. */
  lemma {:induction false} DistinctFirstOccurrence<T>(xs: seq<T>, i: int, j: int, q: int)
    requires 0 <= i < j < |Distinct(xs)|
    requires 0 <= q < |xs| && xs[q] == Distinct(xs)[j]
    ensures exists p :: 0 <= p < q && xs[p] == Distinct(xs)[i]
    decreases |xs|
  {
    var ys := xs[..|xs| - 1];
    var y := xs[|xs| - 1];
    assert xs == ys + [y];
    DistinctSnoc(ys, y);
    var d0 := Distinct(ys);
    var d := Distinct(xs);
    if y in d0 { assert d == d0; } else { assert d == d0 + [y] && d[i] == d0[i]; }
    assert d[i] in ys;
    if q < |ys| {
      assert ys[q] in d0 && d[j] == ys[q];
      assert j < |d0| && d[j] == d0[j] && d[i] == d0[i];
      DistinctFirstOccurrence(ys, i, j, q);
      var p :| 0 <= p < q && ys[p] == d0[i];
      assert xs[p] == ys[p];
    } else {
      var p :| 0 <= p < |ys| && ys[p] == d[i];
      assert xs[p] == ys[p];
    }
  }

  /** `Filter` distributes over concatenation. */
  lemma {:induction false} FilterConcat<T>(xs: seq<T>, ys: seq<T>, p: T -> bool)
    ensures Filter(xs + ys, p) == Filter(xs, p) + Filter(ys, p)
    decreases |ys|
  {
    if |ys| == 0 {
      assert xs + ys == xs;
    } else {
      var zs := ys[..|ys| - 1];
      var y := ys[|ys| - 1];
      assert ys == zs + [y];
      assert xs + ys == (xs + zs) + [y];
      FilterConcat(xs, zs, p);
      FilterSnoc(xs + zs, y, p);
      FilterSnoc(zs, y, p);
    }
  }

  /** Nothing passes a filter no element satisfies. */
  lemma {:induction false} FilterNone<T>(xs: seq<T>, p: T -> bool)
    requires forall j :: 0 <= j < |xs| ==> !p(xs[j])
    ensures Filter(xs, p) == []
    decreases |xs|
  {
    if |xs| > 0 {
      FilterNone(xs[..|xs| - 1], p);
    }
  }

  /** The first element satisfying `p` heads the filtered sequence. */
  lemma {:induction false} FilterFirst<T>(xs: seq<T>, p: T -> bool, i: int)
    requires 0 <= i < |xs| && p(xs[i])
    requires forall j :: 0 <= j < i ==> !p(xs[j])
    ensures |Filter(xs, p)| > 0 && Filter(xs, p)[0] == xs[i]
  {
    var a, x, b := xs[..i], xs[i], xs[i + 1..];
    assert forall j :: 0 <= j < |a| ==> a[j] == xs[j];
    FilterNone(a, p);
    FilterSnoc(a, x, p);
    FilterConcat(a + [x], b, p);
    assert xs == (a + [x]) + b;
  }

  /** Filtering keeps a sequence free of repetitions. */
  lemma {:induction false} FilterNoDups<T>(xs: seq<T>, p: T -> bool)
    requires NoDups(xs)
    ensures NoDups(Filter(xs, p))
    decreases |xs|
  {
    if |xs| > 0 {
      var ys := xs[..|xs| - 1];
      var y := xs[|xs| - 1];
      assert NoDups(ys);
      FilterNoDups(ys, p);
      FilterMembers(ys, p);
      var f := Filter(ys, p);
      if p(y) {
        assert y !in ys by {
          forall i | 0 <= i < |ys| ensures ys[i] != y {
            assert ys[i] == xs[i];
          }
        }
        forall i, j | 0 <= i < j < |f + [y]| ensures (f + [y])[i] != (f + [y])[j] {
          assert (f + [y])[i] == f[i];
          if j < |f| { assert (f + [y])[j] == f[j]; }
        }
      }
    }
  }

  /** Filters that agree on the elements give the same result. */
  lemma {:induction false} FilterEquiv<T>(xs: seq<T>, p: T -> bool, q: T -> bool)
    requires forall i :: 0 <= i < |xs| ==> p(xs[i]) == q(xs[i])
    ensures Filter(xs, p) == Filter(xs, q)
    decreases |xs|
  {
    if |xs| > 0 {
      FilterEquiv(xs[..|xs| - 1], p, q);
    }
  }
}
