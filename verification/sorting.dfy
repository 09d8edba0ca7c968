/** Stable insertion sort over a caller-supplied ordering: the model of Python's
    `sorted`/`list.sort` with a key (which is stable, also with `reverse=True`). */
module Sorting {
  import opened Counting

  /** `le` is total and transitive. Transitivity fires only once all three
      comparisons are present, so a proof names the comparison it needs. */
  ghost predicate TotalPreorder<T(!new)>(le: (T, T) -> bool) {
    && (forall a, b :: le(a, b) || le(b, a))
    && (forall a, b, c {:trigger le(a, b), le(b, c), le(a, c)} :: le(a, b) && le(b, c) ==> le(a, c))
  }

  /** `le` relates two values both ways only when they are equal. */
  ghost predicate Antisymmetric<T(!new)>(le: (T, T) -> bool) {
    forall a, b :: le(a, b) && le(b, a) ==> a == b
  }

  predicate SortedBy<T>(s: seq<T>, le: (T, T) -> bool) {
    forall i, j :: 0 <= i < j < |s| ==> le(s[i], s[j])
  }

  /** Inserts `x` after every element that is not strictly greater than it. */
  function Insert<T>(x: T, s: seq<T>, le: (T, T) -> bool): (r: seq<T>)
    ensures |r| == |s| + 1
  {
    if |s| == 0 then [x]
    else if !le(s[0], x) then [x] + s
    else [s[0]] + Insert(x, s[1..], le)
  }

  /** Sorts `s` by `le`, keeping equal elements in their input order. */
  function Sort<T>(s: seq<T>, le: (T, T) -> bool): (r: seq<T>)
    ensures |r| == |s|
  {
    if |s| == 0 then []
    else Insert(s[|s| - 1], Sort(s[..|s| - 1], le), le)
  }

  /** `Insert` adds `x` and loses nothing. */
  lemma {:induction false} InsertPerm<T>(x: T, s: seq<T>, le: (T, T) -> bool)
    ensures multiset(Insert(x, s, le)) == multiset(s) + multiset{x}
    decreases |s|
  {
    if |s| > 0 && le(s[0], x) {
      var t := s[1..];
      assert s == [s[0]] + t;
      InsertPerm(x, t, le);
      assert Insert(x, s, le) == [s[0]] + Insert(x, t, le);
    }
  }

  /** `Sort` rearranges `s`: the result is a permutation of it. */
  lemma {:induction false} SortPerm<T>(s: seq<T>, le: (T, T) -> bool)
    ensures multiset(Sort(s, le)) == multiset(s)
    decreases |s|
  {
    if |s| > 0 {
      var t, y := s[..|s| - 1], s[|s| - 1];
      assert s == t + [y];
      SortPerm(t, le);
      InsertPerm(y, Sort(t, le), le);
    }
  }

  lemma {:induction false} InsertSorted<T(!new)>(x: T, s: seq<T>, le: (T, T) -> bool)
    requires TotalPreorder(le)
    requires SortedBy(s, le)
    ensures SortedBy(Insert(x, s, le), le)
  {
    if |s| > 0 && le(s[0], x) {
      InsertSorted(x, s[1..], le);
      InsertPerm(x, s[1..], le);
      var t := Insert(x, s[1..], le);
      forall y | y in t
        ensures le(s[0], y)
      {
        assert y in multiset(t);
      }
    }
  }

  /** `Sort` yields a sequence ordered by `le`. */
  lemma {:induction false} SortSorted<T(!new)>(s: seq<T>, le: (T, T) -> bool)
    requires TotalPreorder(le)
    ensures SortedBy(Sort(s, le), le)
    decreases |s|
  {
    if |s| > 0 {
      SortSorted(s[..|s| - 1], le);
      InsertSorted(s[|s| - 1], Sort(s[..|s| - 1], le), le);
    }
  }

  /** Under an antisymmetric order there is only one sorted arrangement of a
      multiset. */
  lemma {:induction false} SortedUnique<T(!new)>(a: seq<T>, b: seq<T>, le: (T, T) -> bool)
    requires TotalPreorder(le) && Antisymmetric(le)
    requires SortedBy(a, le) && SortedBy(b, le)
    requires multiset(a) == multiset(b)
    ensures a == b
    decreases |a|
  {
    if |a| > 0 {
      SortedHeads(a, b, le);
      assert a == [a[0]] + a[1..];
      assert b == [b[0]] + b[1..];
      assert multiset(a[1..]) == multiset(a) - multiset{a[0]};
      assert multiset(b[1..]) == multiset(b) - multiset{b[0]};
      hide TotalPreorder, Antisymmetric;
      SortedUnique(a[1..], b[1..], le);
    } else {
      assert |multiset(b)| == 0;
    }
  }

  /** Two sorted arrangements of one multiset start with the same element. */
  lemma SortedHeads<T(!new)>(a: seq<T>, b: seq<T>, le: (T, T) -> bool)
    requires TotalPreorder(le) && Antisymmetric(le)
    requires SortedBy(a, le) && SortedBy(b, le)
    requires multiset(a) == multiset(b) && |a| > 0
    ensures |b| == |a| && a[0] == b[0]
  {
    assert |b| == |a| by { assert |multiset(a)| == |a| && |multiset(b)| == |b|; }
    assert a[0] in multiset(b);
    assert b[0] in multiset(a);
    var i :| 0 <= i < |b| && b[i] == a[0];
    var j :| 0 <= j < |a| && a[j] == b[0];
    assert le(b[0], a[0]) by { if i > 0 { assert le(b[0], b[i]); } }
    assert le(a[0], b[0]) by { if j > 0 { assert le(a[0], a[j]); } }
  }

  /** The elements `le` ranks level with `a`. */
  function Level<T>(le: (T, T) -> bool, a: T): T -> bool {
    y => le(y, a) && le(a, y)
  }

  /** Nothing of a sorted sequence whose head is above `x` is level with
      anything `x` is level with. */
  lemma NoneLevelAbove<T(!new)>(x: T, s: seq<T>, le: (T, T) -> bool, a: T)
    requires TotalPreorder(le) && SortedBy(s, le)
    requires |s| > 0 && !le(s[0], x) && Level(le, a)(x)
    ensures forall i :: 0 <= i < |s| ==> !Level(le, a)(s[i])
  {
    var h := s[0];
    forall i | 0 <= i < |s| ensures !Level(le, a)(s[i]) {
      var y := s[i];
      assert le(y, a) && le(a, x) ==> le(y, x);
      if i > 0 {
        assert le(h, y);
        assert le(h, y) && le(y, x) ==> le(h, x);
      }
    }
  }

  /** Where `Insert` puts `x`: after the longest prefix not above it. */
  function InsertPos<T>(x: T, s: seq<T>, le: (T, T) -> bool): (k: nat)
    ensures k <= |s|
    ensures forall i :: 0 <= i < k ==> le(s[i], x)
    ensures k < |s| ==> !le(s[k], x)
  {
    if |s| == 0 || !le(s[0], x) then 0 else 1 + InsertPos(x, s[1..], le)
  }

  /** `Insert` splits `s` at `InsertPos` and puts `x` in between. */
  lemma {:induction false} InsertSplit<T>(x: T, s: seq<T>, le: (T, T) -> bool)
    ensures var k := InsertPos(x, s, le);
      Insert(x, s, le) == s[..k] + [x] + s[k..]
    decreases |s|
  {
    if |s| > 0 && le(s[0], x) {
      var t := s[1..];
      InsertSplit(x, t, le);
      var k, h := InsertPos(x, t, le), s[0];
      assert Insert(x, s, le) == [h] + Insert(x, t, le);
      assert s[..k + 1] == [h] + t[..k];
      assert s[k + 1..] == t[k..];
      assert [h] + (t[..k] + [x] + t[k..]) == ([h] + t[..k]) + [x] + t[k..];
    }
  }

  /** A suffix of a sorted sequence is sorted. */
  lemma SortedSuffix<T>(s: seq<T>, k: nat, le: (T, T) -> bool)
    requires SortedBy(s, le) && k <= |s|
    ensures SortedBy(s[k..], le)
  {
    var v := s[k..];
    forall i, j | 0 <= i < j < |v| ensures le(v[i], v[j]) {
      assert v[i] == s[k + i] && v[j] == s[k + j];
    }
  }

  /** Filtering an insertion: what passes before the insertion point, then
      `x` if it passes, then what passes after. */
  lemma FilterInsert<T>(x: T, s: seq<T>, le: (T, T) -> bool, p: T -> bool)
    ensures var k := InsertPos(x, s, le);
      && Filter(Insert(x, s, le), p) == Filter(s[..k], p) + (if p(x) then [x] else []) + Filter(s[k..], p)
      && Filter(s, p) == Filter(s[..k], p) + Filter(s[k..], p)
  {
    var k := InsertPos(x, s, le);
    var u, v := s[..k], s[k..];
    assert s == u + v;
    FilterConcat(u, v, p);
    InsertSplit(x, s, le);
    FilterConcat(u + [x], v, p);
    FilterConcat(u, [x], p);
    FilterSnoc([], x, p);
    assert [] + [x] == [x];
  }

  /** Nothing after the insertion point of `x` is level with `x`. */
  lemma NoneLevelAfter<T(!new)>(x: T, s: seq<T>, le: (T, T) -> bool, a: T)
    requires TotalPreorder(le) && SortedBy(s, le) && Level(le, a)(x)
    ensures Filter(s[InsertPos(x, s, le)..], Level(le, a)) == []
  {
    var k := InsertPos(x, s, le);
    var v := s[k..];
    if |v| > 0 {
      SortedSuffix(s, k, le);
      NoneLevelAbove(x, v, le, a);
    }
    FilterNone(v, Level(le, a));
  }

  /** Inserting `x` puts it after every element level with it. */
  lemma InsertStable<T(!new)>(x: T, s: seq<T>, le: (T, T) -> bool, a: T)
    requires TotalPreorder(le)
    requires SortedBy(s, le)
    ensures Filter(Insert(x, s, le), Level(le, a)) ==
      Filter(s, Level(le, a)) + (if Level(le, a)(x) then [x] else [])
  {
    var p := Level(le, a);
    var k := InsertPos(x, s, le);
    FilterInsert(x, s, le, p);
    var fu, fv, fx := Filter(s[..k], p), Filter(s[k..], p), if p(x) then [x] else [];
    if p(x) {
      NoneLevelAfter(x, s, le, a);
      assert fu + fx + fv == (fu + fv) + fx;
    } else {
      assert fu + fx + fv == (fu + fv) + fx;
    }
  }

  /** `Sort` is stable: the elements level with any `a` keep their input
      order. */
  lemma {:induction false} SortStable<T(!new)>(s: seq<T>, le: (T, T) -> bool, a: T)
    requires TotalPreorder(le)
    ensures Filter(Sort(s, le), Level(le, a)) == Filter(s, Level(le, a))
    decreases |s|
  {
    if |s| > 0 {
      var t := s[..|s| - 1];
      assert s == t + [s[|s| - 1]];
      SortStable(t, le, a);
      SortSorted(t, le);
      InsertStable(s[|s| - 1], Sort(t, le), le, a);
      FilterSnoc(t, s[|s| - 1], Level(le, a));
    }
  }
}
