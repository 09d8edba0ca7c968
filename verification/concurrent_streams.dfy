/** `max_concurrent_streams`: a difference array over the seconds 0..100000
    with +1 at each start and -1 at each end that falls inside the array. */
module ConcurrentStreams {
  import opened Intervals

  /** Size of the difference array (`MAX_TIME`). */
  const MaxTime: int := 100001

  /** Times the function accepts: a start inside the array and a non-negative
      end (an end past the array is simply not recorded). */
  predicate InRange(ss: seq<Stream>) {
    forall i :: 0 <= i < |ss| ==> 0 <= ss[i].start < MaxTime && 0 <= ss[i].end
  }

  lemma DeltaSnoc(ss: seq<Stream>, s: Stream, t: int)
    ensures Delta(ss + [s], t) == Delta(ss, t) + (if s.start == t then 1 else 0) - (if s.end == t then 1 else 0)
  {
    assert (ss + [s])[..|ss + [s]| - 1] == ss;
  }

  /** Returns the largest number of streams live at one second in
      `[0, MaxTime)`, 0 for an empty list. */
  method MaxConcurrentStreams(streams: seq<Stream>) returns (r: int)
    requires InRange(streams)
    ensures IsPeak(streams, 0, MaxTime - 1, r)
  {
    if |streams| == 0 {
      return 0;
    }
    var diff := new int[MaxTime](_ => 0);
    var k := 0;
    while k < |streams|
      invariant 0 <= k <= |streams|
      invariant forall t :: 0 <= t < MaxTime ==> diff[t] == Delta(streams[..k], t)
    {
      var s := streams[k];
      assert streams[..k + 1] == streams[..k] + [s];
      forall t | 0 <= t < MaxTime {
        DeltaSnoc(streams[..k], s, t);
      }
      diff[s.start] := diff[s.start] + 1;
      if s.end < MaxTime {
        diff[s.end] := diff[s.end] - 1;
      }
      k := k + 1;
    }
    assert streams[..k] == streams;
    var current := 0;
    var best := 0;
    var t := 0;
    LoadBeforeZero(streams, -1);
    while t < MaxTime
      invariant 0 <= t <= MaxTime
      invariant forall u :: 0 <= u < MaxTime ==> diff[u] == Delta(streams, u)
      invariant current == Load(streams, t - 1)
      invariant IsPeak(streams, 0, t - 1, best)
    {
      LoadStep(streams, t);
      current := current + diff[t];
      ghost var previous := best;
      if best < current {
        best := current;
      }
      assert IsPeak(streams, 0, t, best) by {
        if best != 0 && best != Load(streams, t) {
          assert best == previous;
          var w :| 0 <= w <= t - 1 && Load(streams, w) == best;
        }
      }
      t := t + 1;
    }
    r := best;
  }

  /** Peeling off the first stream. */
  lemma LoadFront(ss: seq<Stream>, t: int)
    requires |ss| > 0
    ensures Load(ss, t) == Active(ss[0], t) + Load(ss[1..], t)
  {
    LoadFromFrontSame(ss, t);
    LoadFromFrontSame(ss[1..], t);
  }

  /** Test-suite inputs. */
  function Example1(): seq<Stream> {
    [Stream("User_001", 0, 1000), Stream("User_002", 500, 2000)]
  }

  function Example2(): seq<Stream> {
    Example1() + [Stream("User_003", 2500, 3000), Stream("User_004", 400, 1400)]
  }

  function Example3(): seq<Stream> {
    Example2() + [Stream("User_001", 1100, 1800), Stream("User_005", 1200, 1400),
                  Stream("User_006", 500, 2400), Stream("User_003", 2100, 2300)]
  }

  function Example4(): seq<Stream> {
    [Stream("User_001", 0, 1000), Stream("User_002", 500, 2000), Stream("User_003", 2500, 3000),
     Stream("User_001", 1100, 1800), Stream("User_002", 600, 2400), Stream("User_002", 700, 1800)]
  }

  function Nested(): seq<Stream> {
    [Stream("User_001", 0, 1000), Stream("User_002", 100, 900), Stream("User_003", 200, 800)]
  }

  /** Two overlapping streams peak at 2. */
  lemma Example1Peak()
    ensures IsPeak(Example1(), 0, MaxTime - 1, 2)
  {
    forall t ensures Load(Example1(), t) == LoadFromFront(Example1(), t) {
      LoadFromFrontSame(Example1(), t);
    }
    assert Load(Example1(), 500) == 2;
  }

  /** Three of the four streams overlap during [500, 1000). */
  lemma Example2Peak()
    ensures IsPeak(Example2(), 0, MaxTime - 1, 3)
  {
    var ss := Example2();
    forall t ensures Load(ss, t) <= 3 {
      LoadFront(ss, t);
      LoadFront(ss[1..], t);
      LoadFront(ss[2..], t);
      LoadFront(ss[3..], t);
      assert ss[4..] == [];
    }
    assert Load(ss, 500) == 3 by {
      var t := 500;
      LoadFront(ss, t);
      LoadFront(ss[1..], t);
      LoadFront(ss[2..], t);
      LoadFront(ss[3..], t);
      assert ss[4..] == [];
    }
  }

  /** Five streams are live at second 1200. */
  lemma Example3Peak()
    ensures IsPeak(Example3(), 0, MaxTime - 1, 5)
  {
    var ss := Example3();
    forall t ensures Load(ss, t) <= 5 {
      LoadFront(ss, t);
      LoadFront(ss[1..], t);
      LoadFront(ss[2..], t);
      LoadFront(ss[3..], t);
      LoadFront(ss[4..], t);
      LoadFront(ss[5..], t);
      LoadFront(ss[6..], t);
      LoadFront(ss[7..], t);
      assert ss[8..] == [];
    }
    assert Load(ss, 1200) == 5 by {
      var t := 1200;
      LoadFront(ss, t);
      LoadFront(ss[1..], t);
      LoadFront(ss[2..], t);
      LoadFront(ss[3..], t);
      LoadFront(ss[4..], t);
      LoadFront(ss[5..], t);
      LoadFront(ss[6..], t);
      LoadFront(ss[7..], t);
      assert ss[8..] == [];
    }
  }

  /** Four streams are live at second 700. */
  lemma Example4Peak()
    ensures IsPeak(Example4(), 0, MaxTime - 1, 4)
  {
    var ss := Example4();
    forall t ensures Load(ss, t) <= 4 {
      LoadFront(ss, t);
      LoadFront(ss[1..], t);
      LoadFront(ss[2..], t);
      LoadFront(ss[3..], t);
      LoadFront(ss[4..], t);
      LoadFront(ss[5..], t);
      assert ss[6..] == [];
    }
    assert Load(ss, 700) == 4 by {
      var t := 700;
      LoadFront(ss, t);
      LoadFront(ss[1..], t);
      LoadFront(ss[2..], t);
      LoadFront(ss[3..], t);
      LoadFront(ss[4..], t);
      LoadFront(ss[5..], t);
      assert ss[6..] == [];
    }
  }

  /** Nested intervals peak at 3. */
  lemma NestedPeak()
    ensures IsPeak(Nested(), 0, MaxTime - 1, 3)
  {
    forall t ensures Load(Nested(), t) == LoadFromFront(Nested(), t) {
      LoadFromFrontSame(Nested(), t);
    }
    assert Load(Nested(), 200) == 3;
  }

  /** A zero-length stream is never live. */
  lemma ZeroDurationPeak()
    ensures IsPeak([Stream("User_001", 1000, 1000)], 0, MaxTime - 1, 0)
  {
    forall t ensures Load([Stream("User_001", 1000, 1000)], t) == 0 {
      LoadFromFrontSame([Stream("User_001", 1000, 1000)], t);
    }
  }

  /** A stream ending when the next starts does not overlap it. */
  lemma AdjacentPeak()
    ensures IsPeak([Stream("User_001", 0, 1000), Stream("User_002", 1000, 2000)], 0, MaxTime - 1, 1)
  {
    var ss := [Stream("User_001", 0, 1000), Stream("User_002", 1000, 2000)];
    forall t ensures Load(ss, t) == LoadFromFront(ss, t) {
      LoadFromFrontSame(ss, t);
    }
    assert Load(ss, 0) == 1;
  }

  /** Both streams reaching the last second are counted there. */
  lemma BoundaryPeak()
    ensures IsPeak([Stream("User_001", 0, 100000), Stream("User_002", 50000, 100000)], 0, MaxTime - 1, 2)
  {
    var ss := [Stream("User_001", 0, 100000), Stream("User_002", 50000, 100000)];
    forall t ensures Load(ss, t) == LoadFromFront(ss, t) {
      LoadFromFrontSame(ss, t);
    }
    assert Load(ss, 50000) == 2;
  }
}
