/** Streams as half-open intervals `[start, end)` and the number of streams live
    at one instant: the common meaning behind the three concurrency counters. */
module Intervals {

  /** One `[user_id, start_time, end_time]` record. */
  datatype Stream = Stream(user: string, start: int, end: int)

  predicate WellFormed(s: Stream) {
    s.start <= s.end
  }

  predicate AllWellFormed(ss: seq<Stream>) {
    forall i :: 0 <= i < |ss| ==> WellFormed(ss[i])
  }

  /** Sum of `f` over a sequence, accumulated left to right. */
  function SumOf<T>(s: seq<T>, f: T -> int): int
    decreases |s|
  {
    if |s| == 0 then 0 else SumOf(s[..|s| - 1], f) + f(s[|s| - 1])
  }

  /** What one stream adds to the running count at second `t` once its +1 at
      `start` and its -1 at `end` have been accumulated. */
  function Active(s: Stream, t: int): int {
    (if s.start <= t then 1 else 0) - (if s.end <= t then 1 else 0)
  }

  /** The running count at second `t`: +1 for every start and -1 for every end
      at or before `t`. */
  function Load(ss: seq<Stream>, t: int): int {
    SumOf(ss, s => Active(s, t))
  }

  /** What the streams add to the difference array at index `t`. */
  function Delta(ss: seq<Stream>, t: int): int {
    SumOf(ss, (s: Stream) => (if s.start == t then 1 else 0) - (if s.end == t then 1 else 0))
  }

  /** Number of streams with `start <= t < end`. */
  function Covering(ss: seq<Stream>, t: int): nat
    decreases |ss|
  {
    if |ss| == 0 then 0
    else Covering(ss[..|ss| - 1], t) + (if ss[|ss| - 1].start <= t < ss[|ss| - 1].end then 1 else 0)
  }

  /** `v` is the maximum over `t` in `[lo, hi]` of `Load(ss, t)`, or 0 if that
      maximum is negative or the range is empty. */
  ghost predicate IsPeak(ss: seq<Stream>, lo: int, hi: int, v: int) {
    && v >= 0
    && (forall t :: lo <= t <= hi ==> Load(ss, t) <= v)
    && (v == 0 || exists t :: lo <= t <= hi && Load(ss, t) == v)
  }

  /** `v` is the maximum over every instant of `Load(ss, t)`, or 0. */
  ghost predicate IsPeakEver(ss: seq<Stream>, v: int) {
    && v >= 0
    && (forall t :: Load(ss, t) <= v)
    && (v == 0 || exists t :: Load(ss, t) == v)
  }

  lemma {:induction false} SumOfConcat<T>(a: seq<T>, b: seq<T>, f: T -> int)
    ensures SumOf(a + b, f) == SumOf(a, f) + SumOf(b, f)
    decreases |b|
  {
    if |b| > 0 {
      assert (a + b)[..|a + b| - 1] == a + b[..|b| - 1];
      SumOfConcat(a, b[..|b| - 1], f);
    } else {
      assert a + b == a;
    }
  }

  /** Reordering a sequence does not change a sum over it. */
  lemma {:induction false} SumOfPermutation<T>(a: seq<T>, b: seq<T>, f: T -> int)
    requires multiset(a) == multiset(b)
    ensures SumOf(a, f) == SumOf(b, f)
    decreases |a|
  {
    if |a| == 0 {
      assert |multiset(b)| == 0;
    } else {
      var x := a[|a| - 1];
      var a' := a[..|a| - 1];
      assert a == a' + [x];
      assert x in multiset(b);
      var j :| 0 <= j < |b| && b[j] == x;
      var b' := b[..j] + b[j + 1..];
      assert b == b[..j] + [x] + b[j + 1..];
      assert multiset(b) == multiset(b[..j]) + multiset{x} + multiset(b[j + 1..]);
      assert multiset(a) == multiset(a') + multiset{x};
      assert multiset(b') == multiset(b[..j]) + multiset(b[j + 1..]);
      assert multiset(a') == multiset(a) - multiset{x};
      assert multiset(b') == multiset(b) - multiset{x};
      SumOfPermutation(a', b', f);
      SumOfConcat(b[..j] + [x], b[j + 1..], f);
      SumOfConcat(b[..j], [x], f);
      SumOfConcat(b[..j], b[j + 1..], f);
      assert SumOf([x], f) == f(x) by { assert [x][..0] == []; }
    }
  }

  /** The load is the number of covering streams when every stream is well
      formed: the half-open reading of `[start, end)`. */
  lemma {:induction false} LoadIsCovering(ss: seq<Stream>, t: int)
    requires AllWellFormed(ss)
    ensures Load(ss, t) == Covering(ss, t)
    decreases |ss|
  {
    if |ss| > 0 {
      LoadIsCovering(ss[..|ss| - 1], t);
    }
  }

  /** With well-formed streams the load lies between 0 and the number of
      streams. */
  lemma LoadBounds(ss: seq<Stream>, t: int)
    requires AllWellFormed(ss)
    ensures 0 <= Load(ss, t) <= |ss|
  {
    LoadIsCovering(ss, t);
    CoveringAtMost(ss, t);
  }

  lemma {:induction false} CoveringAtMost(ss: seq<Stream>, t: int)
    ensures Covering(ss, t) <= |ss|
    decreases |ss|
  {
    if |ss| > 0 {
      CoveringAtMost(ss[..|ss| - 1], t);
    }
  }

  /** Moving from second `t - 1` to `t` adds exactly the difference-array
      entry at `t`. */
  lemma {:induction false} LoadStep(ss: seq<Stream>, t: int)
    ensures Load(ss, t) == Load(ss, t - 1) + Delta(ss, t)
    decreases |ss|
  {
    if |ss| > 0 {
      LoadStep(ss[..|ss| - 1], t);
    }
  }

  /** Nothing is live before second 0 when no time is negative. */
  lemma {:induction false} LoadBeforeZero(ss: seq<Stream>, t: int)
    requires forall i :: 0 <= i < |ss| ==> ss[i].start >= 0 && ss[i].end >= 0
    requires t < 0
    ensures Load(ss, t) == 0
    decreases |ss|
  {
    if |ss| > 0 {
      LoadBeforeZero(ss[..|ss| - 1], t);
    }
  }

  /** Nothing is live from the last end time on. */
  lemma {:induction false} LoadAfterEnds(ss: seq<Stream>, t: int)
    requires AllWellFormed(ss)
    requires forall i :: 0 <= i < |ss| ==> ss[i].end <= t
    ensures Load(ss, t) == 0
    decreases |ss|
  {
    if |ss| > 0 {
      LoadAfterEnds(ss[..|ss| - 1], t);
    }
  }

  /** Appending a stream adds its own contribution to the load. */
  lemma LoadSnoc(ss: seq<Stream>, s: Stream, t: int)
    ensures Load(ss + [s], t) == Load(ss, t) + Active(s, t)
  {
    assert (ss + [s])[..|ss + [s]| - 1] == ss;
  }

  /** The load summed from the front, which unfolds directly on a literal
      list. */
  function LoadFromFront(ss: seq<Stream>, t: int): int
    decreases |ss|
  {
    if |ss| == 0 then 0 else Active(ss[0], t) + LoadFromFront(ss[1..], t)
  }

  lemma {:induction false} LoadFromFrontSame(ss: seq<Stream>, t: int)
    ensures Load(ss, t) == LoadFromFront(ss, t)
    decreases |ss|
  {
    if |ss| > 0 {
      LoadFromFrontSame(ss[1..], t);
      SumOfConcat([ss[0]], ss[1..], s => Active(s, t));
      assert [ss[0]] + ss[1..] == ss;
      assert SumOf([ss[0]], s => Active(s, t)) == Active(ss[0], t) by { assert [ss[0]][..0] == []; }
    }
  }

  /** The order of the input list does not matter. */
  lemma LoadPermutation(a: seq<Stream>, b: seq<Stream>, t: int)
    requires multiset(a) == multiset(b)
    ensures Load(a, t) == Load(b, t)
  {
    SumOfPermutation(a, b, s => Active(s, t));
  }

  /** There is only one peak value. */
  lemma PeakUnique(ss: seq<Stream>, lo: int, hi: int, v: int, w: int)
    requires IsPeak(ss, lo, hi, v) && IsPeak(ss, lo, hi, w)
    ensures v == w
  {
  }

  lemma PeakEverUnique(ss: seq<Stream>, v: int, w: int)
    requires IsPeakEver(ss, v) && IsPeakEver(ss, w)
    ensures v == w
  {
  }

  /** Permuting the streams keeps the peak. */
  lemma PeakPermutation(a: seq<Stream>, b: seq<Stream>, lo: int, hi: int, v: int)
    requires multiset(a) == multiset(b)
    ensures IsPeak(a, lo, hi, v) <==> IsPeak(b, lo, hi, v)
  {
    forall t ensures Load(a, t) == Load(b, t) {
      LoadPermutation(a, b, t);
    }
  }

  /** With well-formed streams the peak never exceeds the number of streams. */
  lemma PeakAtMostCount(ss: seq<Stream>, lo: int, hi: int, v: int)
    requires AllWellFormed(ss)
    requires IsPeak(ss, lo, hi, v)
    ensures 0 <= v <= |ss|
  {
    if v != 0 {
      var t :| lo <= t <= hi && Load(ss, t) == v;
      LoadBounds(ss, t);
    }
  }

  /** For streams inside `[0, hi]`, the peak over `[0, hi]` is the peak over all
      time. */
  lemma PeakRangeIsPeakEver(ss: seq<Stream>, hi: int, v: int)
    requires AllWellFormed(ss)
    requires forall i :: 0 <= i < |ss| ==> 0 <= ss[i].start && ss[i].end <= hi
    ensures IsPeak(ss, 0, hi, v) <==> IsPeakEver(ss, v)
  {
    forall t | t < 0 || t > hi
      ensures Load(ss, t) == 0
    {
      if t < 0 {
        LoadBeforeZero(ss, t);
      } else {
        LoadAfterEnds(ss, t);
      }
    }
  }
}
