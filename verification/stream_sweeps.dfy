/** The two older concurrency counters: a per-second difference array over one
    day, and a sweep over start/end events sorted by `(time, delta)`. */
module StreamSweeps {
  import opened Intervals
  import Sorting

  /** Seconds in a day: the difference array has `DaySeconds + 1` entries. */
  const DaySeconds: int := 86400

  /** Both endpoints index the day array (the first solution writes both). */
  predicate WithinDay(ss: seq<Stream>) {
    forall i :: 0 <= i < |ss| ==> 0 <= ss[i].start <= DaySeconds && 0 <= ss[i].end <= DaySeconds
  }

  /** `max_time`: the largest end time, and 0 for no streams. */
  function LastEnd(ss: seq<Stream>): (m: int)
    ensures m >= 0
    ensures forall i :: 0 <= i < |ss| ==> ss[i].end <= m
    ensures m == 0 || exists i :: 0 <= i < |ss| && ss[i].end == m
    decreases |ss|
  {
    if |ss| == 0 then 0
    else
      var m := LastEnd(ss[..|ss| - 1]);
      if ss[|ss| - 1].end > m then ss[|ss| - 1].end else m
  }

  lemma DeltaSnoc(ss: seq<Stream>, s: Stream, t: int)
    ensures Delta(ss + [s], t) == Delta(ss, t) + (if s.start == t then 1 else 0) - (if s.end == t then 1 else 0)
  {
    assert (ss + [s])[..|ss + [s]| - 1] == ss;
  }

  /** The first loop of `get_max_concurrent_stream_sol1`: each stream adds
      one at its start second and takes one away at its end second, and
      `max_time` follows the largest end. */
  method DayTally(streams: seq<Stream>) returns (tracker: array<int>, maxTime: int)
    requires WithinDay(streams)
    ensures tracker.Length == DaySeconds + 1
    ensures forall t :: 0 <= t <= DaySeconds ==> tracker[t] == Delta(streams, t)
    ensures maxTime == LastEnd(streams)
  {
    tracker := new int[DaySeconds + 1](_ => 0);
    maxTime := 0;
    var k := 0;
    while k < |streams|
      invariant 0 <= k <= |streams|
      invariant forall t :: 0 <= t <= DaySeconds ==> tracker[t] == Delta(streams[..k], t)
      invariant maxTime == LastEnd(streams[..k])
    {
      var s := streams[k];
      assert streams[..k + 1] == streams[..k] + [s];
      assert streams[..k + 1][..k] == streams[..k];
      forall t | 0 <= t <= DaySeconds {
        DeltaSnoc(streams[..k], s, t);
      }
      tracker[s.start] := tracker[s.start] + 1;
      tracker[s.end] := tracker[s.end] - 1;
      maxTime := if s.end > maxTime then s.end else maxTime;
      k := k + 1;
    }
    assert streams[..k] == streams;
  }

  /** `get_max_concurrent_stream_sol1`: scans seconds 0..max_time, skipping
      seconds whose entry is zero. */
  method MaxConcurrentDay(streams: seq<Stream>) returns (r: int)
    requires WithinDay(streams)
    ensures IsPeak(streams, 0, LastEnd(streams), r)
  {
    var tracker, maxTime := DayTally(streams);
    var best := 0;
    var count := 0;
    var i := 0;
    LoadBeforeZero(streams, -1);
    while i < maxTime + 1
      invariant 0 <= i <= maxTime + 1
      invariant forall u :: 0 <= u <= DaySeconds ==> tracker[u] == Delta(streams, u)
      invariant count == Load(streams, i - 1)
      invariant count <= best
      invariant IsPeak(streams, 0, i - 1, best)
    {
      LoadStep(streams, i);
      if tracker[i] == 0 {
        i := i + 1;
        continue;
      }
      count := count + tracker[i];
      ghost var previous := best;
      if best < count {
        best := count;
      }
      assert IsPeak(streams, 0, i, best) by {
        if best != 0 && best != Load(streams, i) {
          assert best == previous;
          var w :| 0 <= w <= i - 1 && Load(streams, w) == best;
        }
      }
      i := i + 1;
    }
    r := best;
  }

  /** A `[time, delta]` record of the second solution. */
  datatype Event = Event(time: int, delta: int)

  /** Python's ordering of `(time, delta)` tuples. */
  function EventLe(a: Event, b: Event): bool {
    a.time < b.time || (a.time == b.time && a.delta <= b.delta)
  }

  lemma EventLeIsOrder()
    ensures Sorting.TotalPreorder(EventLe)
    ensures Sorting.Antisymmetric(EventLe)
  {
  }

  /** One start record and one end record per stream, in input order. */
  function Events(ss: seq<Stream>): (es: seq<Event>)
    ensures |es| == 2 * |ss|
    decreases |ss|
  {
    if |ss| == 0 then []
    else Events(ss[..|ss| - 1]) + [Event(ss[|ss| - 1].start, 1), Event(ss[|ss| - 1].end, -1)]
  }

  /** An event's delta if it happens at or before `t`, else 0. */
  function DeltaBy(t: int): Event -> int {
    (e: Event) => if e.time <= t then e.delta else 0
  }

  /** Sum of the deltas of the events at or before `t`. */
  function UpTo(es: seq<Event>, t: int): int {
    SumOf(es, DeltaBy(t))
  }

  function DeltaOf(e: Event): int {
    e.delta
  }

  /** Sum of all deltas: the running count after processing `es`. */
  function Total(es: seq<Event>): int {
    SumOf(es, DeltaOf)
  }

  lemma {:induction false} EventsUpTo(ss: seq<Stream>, t: int)
    ensures UpTo(Events(ss), t) == Load(ss, t)
    decreases |ss|
  {
    if |ss| > 0 {
      var s := ss[|ss| - 1];
      var pair := [Event(s.start, 1), Event(s.end, -1)];
      EventsUpTo(ss[..|ss| - 1], t);
      SumOfConcat(Events(ss[..|ss| - 1]), pair, DeltaBy(t));
      assert pair[..1] == [Event(s.start, 1)];
      assert pair[..1][..0] == [];
      assert SumOf(pair[..1][..0], DeltaBy(t)) == 0;
      assert SumOf(pair[..1], DeltaBy(t)) == DeltaBy(t)(pair[0]);
      assert SumOf(pair, DeltaBy(t)) == SumOf(pair[..1], DeltaBy(t)) + DeltaBy(t)(pair[1]);
      assert SumOf(pair, DeltaBy(t)) == Active(s, t);
      LoadSnoc(ss[..|ss| - 1], s, t);
      assert ss[..|ss| - 1] + [s] == ss;
    }
  }

  /** In a sorted event list, every prefix sum is bounded by the count at
      some instant, or by 0. */
  lemma {:induction false} PrefixBounded(es: seq<Event>, k: nat)
    requires Sorting.SortedBy(es, EventLe)
    requires k <= |es|
    ensures Total(es[..k]) <= 0 || exists t :: Total(es[..k]) <= UpTo(es, t)
    decreases k
  {
    if k > 0 {
      assert es[..k][..k - 1] == es[..k - 1];
      var e := es[k - 1];
      if e.delta <= 0 {
        PrefixBounded(es, k - 1);
      } else {
        assert es == es[..k] + es[k..];
        SumOfConcat(es[..k], es[k..], DeltaBy(e.time));
        SameUpToPrefix(es[..k], e.time);
        assert forall i :: 0 <= i < |es[k..]| ==> EventLe(e, es[k..][i]) by {
          forall i | 0 <= i < |es[k..]| ensures EventLe(e, es[k..][i]) {
            assert es[k..][i] == es[k + i];
          }
        }
        LaterNonNegative(es[k..], e);
        assert Total(es[..k]) <= UpTo(es, e.time);
      }
    }
  }

  lemma {:induction false} SameUpToPrefix(es: seq<Event>, t: int)
    requires forall i :: 0 <= i < |es| ==> es[i].time <= t
    ensures UpTo(es, t) == Total(es)
    decreases |es|
  {
    if |es| > 0 {
      SameUpToPrefix(es[..|es| - 1], t);
    }
  }

  lemma {:induction false} LaterNonNegative(es: seq<Event>, e: Event)
    requires e.delta > 0
    requires forall i :: 0 <= i < |es| ==> EventLe(e, es[i])
    ensures UpTo(es, e.time) >= 0
    decreases |es|
  {
    if |es| > 0 {
      LaterNonNegative(es[..|es| - 1], e);
    }
  }

  /** In a sorted event list, the count at any instant is a prefix sum. */
  lemma {:induction false} InstantIsPrefix(es: seq<Event>, t: int)
    requires Sorting.SortedBy(es, EventLe)
    ensures exists k :: 0 <= k <= |es| && Total(es[..k]) == UpTo(es, t)
    decreases |es|
  {
    if |es| == 0 {
      assert es[..0] == es;
    } else if es[|es| - 1].time <= t {
      assert es[..|es|] == es;
      SameUpToPrefix(es, t);
    } else {
      var p := es[..|es| - 1];
      InstantIsPrefix(p, t);
      var k :| 0 <= k <= |p| && Total(p[..k]) == UpTo(p, t);
      assert p[..k] == es[..k];
    }
  }

  /** The sorted records of the second solution. */
  function SortedEvents(ss: seq<Stream>): (es: seq<Event>)
    ensures Sorting.SortedBy(es, EventLe)
    ensures multiset(es) == multiset(Events(ss))
  {
    EventLeIsOrder();
    Sorting.SortSorted(Events(ss), EventLe);
    Sorting.SortPerm(Events(ss), EventLe);
    Sorting.Sort(Events(ss), EventLe)
  }

  /** `get_max_concurrent_stream_sol2`: sorts the start/end records by
      `(time, delta)`, so that at equal times ends come before starts, and keeps
      the largest running sum. */
  method MaxConcurrentSweep(streams: seq<Stream>) returns (r: int)
    ensures IsPeakEver(streams, r)
  {
    var records := SortedEvents(streams);
    var best := 0;
    var current := 0;
    var i := 0;
    while i < |records|
      invariant 0 <= i <= |records|
      invariant current == Total(records[..i])
      invariant best >= 0
      invariant forall k :: 0 <= k <= i ==> Total(records[..k]) <= best
      invariant best == 0 || exists k :: 0 <= k <= i && Total(records[..k]) == best
    {
      assert records[..i + 1][..i] == records[..i];
      current := current + records[i].delta;
      if best < current {
        best := current;
      }
      i := i + 1;
    }
    r := best;
    forall t
      ensures Load(streams, t) <= r
    {
      EventsUpTo(streams, t);
      SumOfPermutation(records, Events(streams), DeltaBy(t));
      InstantIsPrefix(records, t);
    }
    if r != 0 {
      var k :| 0 <= k <= |records| && Total(records[..k]) == r;
      PrefixBounded(records, k);
      var t :| r <= UpTo(records, t);
      EventsUpTo(streams, t);
      SumOfPermutation(records, Events(streams), DeltaBy(t));
    }
  }

  /** On streams inside one day with `start <= end`, the two solutions return
      the same value. */
  lemma SolutionsAgree(ss: seq<Stream>, v1: int, v2: int)
    requires WithinDay(ss) && AllWellFormed(ss)
    requires IsPeak(ss, 0, LastEnd(ss), v1)
    requires IsPeakEver(ss, v2)
    ensures v1 == v2
  {
    PeakRangeIsPeakEver(ss, LastEnd(ss), v1);
  }

  /** The demonstration input: peak 3, with the stream starting at 1000 not
      stacking on the one ending there. */
  lemma DemoPeak()
    ensures IsPeakEver([Stream("User_001", 0, 1000), Stream("User_002", 500, 2000), Stream("User_003", 2500, 3000),
                        Stream("User_004", 400, 1400), Stream("1", 1000, 2000)], 3)
  {
    var ss := [Stream("User_001", 0, 1000), Stream("User_002", 500, 2000), Stream("User_003", 2500, 3000),
               Stream("User_004", 400, 1400), Stream("1", 1000, 2000)];
    forall t ensures Load(ss, t) == LoadFromFront(ss, t) {
      LoadFromFrontSame(ss, t);
    }
    assert Load(ss, 500) == 3;
  }
}
