/** The two rate limiters of xero/ratelimiter.py, reduced to their integer
    logic: the clock reading `time.time()` becomes an explicit `now`, and the
    counter limiter's floating-point estimate is not modelled, only its window
    slide. */
module RateLimiter {

  // ---------------------------------------------------------------------
  // LeakyBucketRateLimiter: a sliding log of request times
  // ---------------------------------------------------------------------

  datatype Log = Log(maxRequests: int, windowSize: int, requests: seq<int>)

  /** Drop the oldest timestamps while they are at most `cutoff` (lines 21-22). */
  function Prune(requests: seq<int>, cutoff: int): (r: seq<int>)
    ensures |r| <= |requests|
  {
    if |requests| > 0 && requests[0] <= cutoff then Prune(requests[1..], cutoff) else requests
  }

  /** `is_allowed` (lines 17-30): prune, then admit and record `now` when the
      log has room; a refusal keeps the pruned log. */
  function IsAllowed(l: Log, now: int): (r: (Log, bool))
    ensures var pruned := Prune(l.requests, now - l.windowSize);
      r.1 <==> |pruned| < l.maxRequests
    ensures var pruned := Prune(l.requests, now - l.windowSize);
      r.0.requests == if r.1 then pruned + [now] else pruned
    ensures r.0.maxRequests == l.maxRequests && r.0.windowSize == l.windowSize
    ensures r.1 ==> |r.0.requests| <= l.maxRequests
    ensures |l.requests| <= l.maxRequests ==> |r.0.requests| <= l.maxRequests
  {
    var pruned := Prune(l.requests, now - l.windowSize);
    if |pruned| < l.maxRequests then (l.(requests := pruned + [now]), true)
    else (l.(requests := pruned), false)
  }

  predicate Ordered(s: seq<int>) {
    forall i, j :: 0 <= i < j < |s| ==> s[i] <= s[j]
  }

  /** The log invariant under a clock that never runs backwards: oldest first,
      nothing later than the last reading, and within the request budget. */
  predicate LogInvariant(l: Log, clock: int) {
    Ordered(l.requests) &&
    (forall i :: 0 <= i < |l.requests| ==> l.requests[i] <= clock) &&
    |l.requests| <= (if l.maxRequests < 0 then 0 else l.maxRequests)
  }

  /** On an ordered log, pruning keeps exactly the requests inside the window. */
  lemma PruneKeepsWindow(requests: seq<int>, cutoff: int)
    requires Ordered(requests)
    ensures var r := Prune(requests, cutoff);
      forall i :: 0 <= i < |r| ==> r[i] > cutoff
  {
    var r := Prune(requests, cutoff);
    var k := |requests| - |r|;
    PruneSuffix(requests, cutoff);
    forall i | 0 <= i < |r| ensures r[i] > cutoff {
      assert r[i] == requests[k + i] && r[0] == requests[k];
    }
  }

  lemma OrderedSuffix(s: seq<int>, k: nat)
    requires Ordered(s) && k <= |s|
    ensures Ordered(s[k..])
  {
    forall i, j | 0 <= i < j < |s| - k ensures s[k..][i] <= s[k..][j] {
      assert s[k..][i] == s[k + i] && s[k..][j] == s[k + j];
    }
  }

  lemma OrderedSnoc(s: seq<int>, x: int)
    requires Ordered(s) && forall i :: 0 <= i < |s| ==> s[i] <= x
    ensures Ordered(s + [x])
  {
    var r := s + [x];
    forall i, j | 0 <= i < j < |r| ensures r[i] <= r[j] {
      assert r[i] == s[i];
      if j < |s| { assert r[j] == s[j]; }
    }
  }

  /** Pruning drops a prefix: what stays is a suffix of the log, every
      dropped time is at most the cutoff, and the oldest kept one is later. */
  lemma {:induction false} PruneSuffix(requests: seq<int>, cutoff: int)
    ensures var r := Prune(requests, cutoff);
      r == requests[|requests| - |r|..] &&
      (forall i :: 0 <= i < |requests| - |r| ==> requests[i] <= cutoff) &&
      (|r| > 0 ==> r[0] > cutoff)
  {
    if |requests| > 0 && requests[0] <= cutoff {
      PruneSuffix(requests[1..], cutoff);
      var r := Prune(requests, cutoff);
      assert r == Prune(requests[1..], cutoff);
      forall i | 0 < i < |requests| - |r| ensures requests[i] <= cutoff {
        assert requests[i] == requests[1..][i - 1];
      }
    }
  }

  /** Pruning keeps an ordered log ordered and no later than the clock. */
  lemma PruneKeepsOrder(requests: seq<int>, cutoff: int, clock: int)
    requires Ordered(requests) && forall i :: 0 <= i < |requests| ==> requests[i] <= clock
    ensures var r := Prune(requests, cutoff);
      Ordered(r) && forall i :: 0 <= i < |r| ==> r[i] <= clock
  {
    var r := Prune(requests, cutoff);
    var k := |requests| - |r|;
    PruneSuffix(requests, cutoff);
    OrderedSuffix(requests, k);
    forall i | 0 <= i < |r| ensures r[i] <= clock {
      assert r[i] == requests[k + i];
    }
  }

  /** One call at a time no earlier than the last keeps the invariant. */
  lemma IsAllowedKeepsInvariant(l: Log, clock: int, now: int)
    requires LogInvariant(l, clock) && clock <= now
    ensures LogInvariant(IsAllowed(l, now).0, now)
  {
    var pruned := Prune(l.requests, now - l.windowSize);
    PruneKeepsOrder(l.requests, now - l.windowSize, now);
    assert Ordered(pruned);
    assert forall i :: 0 <= i < |pruned| ==> pruned[i] <= now;
    assert |pruned| <= |l.requests|;
    AdmitKeepsInvariant(pruned, now, l.maxRequests, l.windowSize);
    assert IsAllowed(l, now).0 == Log(l.maxRequests, l.windowSize,
      if |pruned| < l.maxRequests then pruned + [now] else pruned);
  }

  /** The step after pruning: appending `now` to an ordered log of earlier
      times, or refusing, keeps the invariant. */
  lemma AdmitKeepsInvariant(pruned: seq<int>, now: int, maxRequests: int, windowSize: int)
    requires Ordered(pruned) && forall i :: 0 <= i < |pruned| ==> pruned[i] <= now
    requires |pruned| <= (if maxRequests < 0 then 0 else maxRequests)
    ensures LogInvariant(Log(maxRequests, windowSize,
      if |pruned| < maxRequests then pruned + [now] else pruned), now)
  {
    if |pruned| < maxRequests {
      OrderedSnoc(pruned, now);
      var r := pruned + [now];
      assert forall i :: 0 <= i < |r| ==> r[i] <= now by {
        forall i | 0 <= i < |r| ensures r[i] <= now {
          if i < |pruned| { assert r[i] == pruned[i]; }
        }
      }
    }
  }

  /** A run of calls at non-decreasing times: the answers in order. */
  function Run(l: Log, times: seq<int>): (r: (Log, seq<bool>))
    ensures |r.1| == |times|
    ensures r.0.maxRequests == l.maxRequests && r.0.windowSize == l.windowSize
    decreases |times|
  {
    if |times| == 0 then (l, [])
    else
      var (l1, ok) := IsAllowed(l, times[0]);
      var (l2, oks) := Run(l1, times[1..]);
      (l2, [ok] + oks)
  }

  predicate NonDecreasing(times: seq<int>) {
    forall i, j :: 0 <= i < j < |times| ==> times[i] <= times[j]
  }

  /** With a non-decreasing clock the log stays ordered, no later than the
      last call and within the budget. */
  lemma {:induction false} RunKeepsInvariant(l: Log, clock: int, times: seq<int>)
    requires LogInvariant(l, clock) && NonDecreasing(times)
    requires |times| > 0 ==> clock <= times[0]
    ensures LogInvariant(Run(l, times).0, if |times| == 0 then clock else times[|times| - 1])
    decreases |times|
  {
    if |times| > 0 {
      var l1 := IsAllowed(l, times[0]).0;
      IsAllowedKeepsInvariant(l, clock, times[0]);
      var rest := times[1..];
      assert NonDecreasing(rest) by {
        forall i, j | 0 <= i < j < |rest| ensures rest[i] <= rest[j] {
          assert rest[i] == times[i + 1] && rest[j] == times[j + 1];
        }
      }
      assert |rest| > 0 ==> times[0] <= rest[0];
      RunKeepsInvariant(l1, times[0], rest);
      assert Run(l, times).0 == Run(l1, rest).0;
      if |rest| > 0 {
        assert rest[|rest| - 1] == times[|times| - 1];
      }
    }
  }

  /** One call of a run: the first answer, then the rest from the new log. */
  lemma RunStep(l: Log, t: int, ts: seq<int>)
    ensures var (l1, ok) := IsAllowed(l, t);
      Run(l, [t] + ts) == (Run(l1, ts).0, [ok] + Run(l1, ts).1)
  {
    assert ([t] + ts)[0] == t && ([t] + ts)[1..] == ts;
  }

  /** One call more: a run over `ts + [t]` is the run over `ts` followed by
      one call at `t` on the log it leaves. */
  lemma {:induction false} RunSnoc(l: Log, ts: seq<int>, t: int)
    ensures var (l0, oks) := Run(l, ts);
      Run(l, ts + [t]) == (IsAllowed(l0, t).0, oks + [IsAllowed(l0, t).1])
    decreases |ts|
  {
    if |ts| == 0 {
      assert ts + [t] == [t] + [];
      RunStep(l, t, []);
      var (l1, ok) := IsAllowed(l, t);
      assert Run(l, ts) == (l, []) && Run(l1, []) == (l1, []);
      assert [] + [ok] == [ok] + [];
    } else {
      assert ts + [t] == [ts[0]] + (ts[1..] + [t]);
      RunStep(l, ts[0], ts[1..] + [t]);
      var (l1, ok1) := IsAllowed(l, ts[0]);
      RunSnoc(l1, ts[1..], t);
      assert ts == [ts[0]] + ts[1..];
      RunStep(l, ts[0], ts[1..]);
      var (l2, oks) := Run(l1, ts[1..]);
      var ok := IsAllowed(l2, t).1;
      assert [ok1] + (oks + [ok]) == ([ok1] + oks) + [ok];
    }
  }

  // ---------------------------------------------------------------------
  // What the sliding log promises: a window never admits more than the budget
  // ---------------------------------------------------------------------

  /** How many of the first `k` calls were admitted at a time later than `lo`. */
  function Within(times: seq<int>, oks: seq<bool>, k: nat, lo: int): (n: nat)
    requires k <= |times| && k <= |oks|
    ensures n <= k
  {
    if k == 0 then 0
    else Within(times, oks, k - 1, lo) + (if oks[k - 1] && times[k - 1] > lo then 1 else 0)
  }

  /** The count over the first `k` calls does not look past them. */
  lemma {:induction false} WithinPrefix(times: seq<int>, oks: seq<bool>, times2: seq<int>, oks2: seq<bool>,
                                        k: nat, lo: int)
    requires k <= |times| && k <= |oks| && times <= times2 && oks <= oks2
    ensures Within(times, oks, k, lo) == Within(times2, oks2, k, lo)
  {
    if k > 0 {
      WithinPrefix(times, oks, times2, oks2, k - 1, lo);
      assert times[k - 1] == times2[k - 1] && oks[k - 1] == oks2[k - 1];
    }
  }

  /** A later window start counts no more admitted calls. */
  lemma {:induction false} WithinMonotone(times: seq<int>, oks: seq<bool>, k: nat, lo: int, hi: int)
    requires k <= |times| && k <= |oks| && lo <= hi
    ensures Within(times, oks, k, hi) <= Within(times, oks, k, lo)
  {
    if k > 0 {
      WithinMonotone(times, oks, k - 1, lo, hi);
    }
  }

  /** Pruning at a cutoff and then at a later one is pruning at the later one. */
  lemma {:induction false} PruneTwice(s: seq<int>, c0: int, c: int)
    requires c0 <= c
    ensures Prune(Prune(s, c0), c) == Prune(s, c)
  {
    if |s| > 0 && s[0] <= c0 {
      PruneTwice(s[1..], c0, c);
    }
  }

  /** Pruning a log with one more time appended that is no earlier than the
      rest: the new time stays exactly when it is later than the cutoff. */
  lemma {:induction false} PruneSnoc(s: seq<int>, t: int, c: int)
    requires forall i :: 0 <= i < |s| ==> s[i] <= t
    ensures Prune(s + [t], c) == Prune(s, c) + (if t > c then [t] else [])
  {
    if |s| == 0 {
      assert s + [t] == [t];
      assert Prune([t][1..], c) == [];
    } else {
      assert (s + [t])[0] == s[0] && (s + [t])[1..] == s[1..] + [t];
      if s[0] <= c {
        PruneSnoc(s[1..], t, c);
      }
    }
  }

  /** Call `k` was admitted exactly when fewer than `maxRequests` earlier
      calls had been admitted inside the window ending at it. */
  predicate AdmitsByWindow(maxRequests: int, windowSize: int, times: seq<int>, oks: seq<bool>)
    requires |oks| == |times|
  {
    forall k :: 0 <= k < |times| ==>
      (oks[k] <==> Within(times, oks, k, times[k] - windowSize) < maxRequests)
  }

  /** Past any cutoff from the last window start on, the log holds exactly
      the admitted calls later than that cutoff. */
  ghost predicate LogHoldsWindow(l: Log, windowSize: int, times: seq<int>, oks: seq<bool>)
    requires |oks| == |times|
  {
    |times| > 0 ==> CountsFrom(l, times, oks, times[|times| - 1] - windowSize)
  }

  /** Past any cutoff from `cutoff` on, the log holds exactly the admitted
      calls later than that cutoff. */
  ghost predicate CountsFrom(l: Log, times: seq<int>, oks: seq<bool>, cutoff: int)
    requires |oks| == |times|
  {
    forall c :: c >= cutoff ==> |Prune(l.requests, c)| == Within(times, oks, |times|, c)
  }

  /** The sliding log, started empty and called at non-decreasing times,
      admits a call exactly when fewer than `maxRequests` earlier calls were
      admitted inside the window ending at it, and its log is then exactly
      the admitted calls of the current window. */
  lemma {:induction false} RunMatchesWindow(maxRequests: int, windowSize: int, times: seq<int>)
    requires NonDecreasing(times)
    ensures var (l, oks) := Run(Log(maxRequests, windowSize, []), times);
      AdmitsByWindow(maxRequests, windowSize, times, oks) && LogHoldsWindow(l, windowSize, times, oks)
    decreases |times|
  {
    var start := Log(maxRequests, windowSize, []);
    if |times| > 0 {
      var n := |times|;
      var ts, t := times[..n - 1], times[n - 1];
      assert NonDecreasing(ts) by {
        forall i, j | 0 <= i < j < |ts| ensures ts[i] <= ts[j] {
          assert ts[i] == times[i] && ts[j] == times[j];
        }
      }
      RunMatchesWindow(maxRequests, windowSize, ts);
      var (l0, oks0) := Run(start, ts);
      assert times == ts + [t];
      RunSnoc(start, ts, t);
      if n == 1 {
        assert l0 == start;
      } else {
        RunKeepsInvariant(start, times[0], ts);
        assert forall i :: 0 <= i < |l0.requests| ==> l0.requests[i] <= t by {
          assert ts[n - 2] <= t;
        }
      }
      assert Ordered(l0.requests) && forall i :: 0 <= i < |l0.requests| ==> l0.requests[i] <= t;
      assert |ts| > 0 ==> ts[|ts| - 1] <= t;
      assert |ts| == 0 ==> l0.requests == [];
      hide *;
      WindowStep(maxRequests, windowSize, ts, oks0, l0, t);
    }
  }

  /** The last call of `RunMatchesWindow`, given the claim for the calls before. */
  lemma WindowStep(maxRequests: int, windowSize: int, ts: seq<int>, oks0: seq<bool>, l0: Log, t: int)
    requires |oks0| == |ts| && l0.windowSize == windowSize && l0.maxRequests == maxRequests
    requires |ts| > 0 ==> ts[|ts| - 1] <= t
    requires Ordered(l0.requests) && forall i :: 0 <= i < |l0.requests| ==> l0.requests[i] <= t
    requires |ts| == 0 ==> l0.requests == []
    requires AdmitsByWindow(maxRequests, windowSize, ts, oks0) && LogHoldsWindow(l0, windowSize, ts, oks0)
    ensures var (l1, ok) := IsAllowed(l0, t);
      AdmitsByWindow(maxRequests, windowSize, ts + [t], oks0 + [ok]) &&
      LogHoldsWindow(l1, windowSize, ts + [t], oks0 + [ok])
  {
    var cutoff := t - windowSize;
    if |ts| == 0 {
      forall c | c >= cutoff ensures |Prune(l0.requests, c)| == Within(ts, oks0, 0, c) {
        assert Prune(l0.requests, c) == [];
      }
    }
    assert CountsFrom(l0, ts, oks0, cutoff);
    AdmitStep(maxRequests, windowSize, ts, oks0, l0, t);
    LogStep(windowSize, ts, oks0, l0, t);
  }

  /** The answer to the new call agrees with the window count before it. */
  lemma AdmitStep(maxRequests: int, windowSize: int, ts: seq<int>, oks0: seq<bool>, l0: Log, t: int)
    requires |oks0| == |ts| && l0.windowSize == windowSize && l0.maxRequests == maxRequests
    requires AdmitsByWindow(maxRequests, windowSize, ts, oks0) && CountsFrom(l0, ts, oks0, t - windowSize)
    ensures AdmitsByWindow(maxRequests, windowSize, ts + [t], oks0 + [IsAllowed(l0, t).1])
  {
    hide Within, Prune, CountsFrom;
    var ok := IsAllowed(l0, t).1;
    var times, oks := ts + [t], oks0 + [ok];
    forall k | 0 <= k < |times|
      ensures oks[k] <==> Within(times, oks, k, times[k] - windowSize) < maxRequests
    {
      if k < |ts| {
        AdmitOld(maxRequests, windowSize, ts, oks0, t, ok, k);
      } else {
        AdmitNew(maxRequests, windowSize, ts, oks0, l0, t);
      }
    }
  }

  /** The new call is admitted exactly when the window ending at it holds
      fewer than `maxRequests` admitted calls. */
  lemma AdmitNew(maxRequests: int, windowSize: int, ts: seq<int>, oks0: seq<bool>, l0: Log, t: int)
    requires |oks0| == |ts| && l0.windowSize == windowSize && l0.maxRequests == maxRequests
    requires CountsFrom(l0, ts, oks0, t - windowSize)
    ensures var ok := IsAllowed(l0, t).1;
      ok <==> Within(ts + [t], oks0 + [ok], |ts|, t - windowSize) < maxRequests
  {
    var ok := IsAllowed(l0, t).1;
    assert |Prune(l0.requests, t - windowSize)| == Within(ts, oks0, |ts|, t - windowSize);
    WithinPrefix(ts, oks0, ts + [t], oks0 + [ok], |ts|, t - windowSize);
  }

  /** An earlier call keeps its answer and its window count. */
  lemma AdmitOld(maxRequests: int, windowSize: int, ts: seq<int>, oks0: seq<bool>, t: int, ok: bool, k: nat)
    requires |oks0| == |ts| && AdmitsByWindow(maxRequests, windowSize, ts, oks0) && k < |ts|
    ensures var times, oks := ts + [t], oks0 + [ok];
      oks[k] <==> Within(times, oks, k, times[k] - windowSize) < maxRequests
  {
    var times, oks := ts + [t], oks0 + [ok];
    assert oks[k] == oks0[k] && times[k] == ts[k];
    WithinPrefix(ts, oks0, times, oks, k, ts[k] - windowSize);
  }

  /** After the new call the log still holds exactly the admitted calls
      past any cutoff from the new window start on. */
  lemma LogStep(windowSize: int, ts: seq<int>, oks0: seq<bool>, l0: Log, t: int)
    requires |oks0| == |ts| && l0.windowSize == windowSize
    requires Ordered(l0.requests) && forall i :: 0 <= i < |l0.requests| ==> l0.requests[i] <= t
    requires CountsFrom(l0, ts, oks0, t - windowSize)
    ensures var (l1, ok) := IsAllowed(l0, t);
      CountsFrom(l1, ts + [t], oks0 + [ok], t - windowSize)
  {
    var (l1, ok) := IsAllowed(l0, t);
    var times, oks := ts + [t], oks0 + [ok];
    var cutoff := t - windowSize;
    var pruned := Prune(l0.requests, cutoff);
    PruneKeepsOrder(l0.requests, cutoff, t);
    forall c | c >= cutoff
      ensures |Prune(l1.requests, c)| == Within(times, oks, |times|, c)
    {
      WithinPrefix(ts, oks0, times, oks, |ts|, c);
      PruneTwice(l0.requests, cutoff, c);
      if ok {
        assert l1.requests == pruned + [t];
        PruneSnoc(pruned, t, c);
      }
    }
  }

  /** Call by call, the admitted calls among the first `m` that fall in a
      window ending no earlier than the last of them number at most the
      budget. */
  lemma {:induction false} WindowCap(maxRequests: int, windowSize: int, times: seq<int>, oks: seq<bool>,
                                     m: nat, t: int)
    requires |oks| == |times| && NonDecreasing(times) && m <= |times|
    requires forall k :: 0 <= k < |times| ==>
      (oks[k] <==> Within(times, oks, k, times[k] - windowSize) < maxRequests)
    requires m > 0 ==> times[m - 1] <= t
    ensures Within(times, oks, m, t - windowSize) <= if maxRequests < 0 then 0 else maxRequests
  {
    if m > 0 {
      if m > 1 {
        assert times[m - 2] <= times[m - 1];
      }
      WindowCap(maxRequests, windowSize, times, oks, m - 1, t);
      if oks[m - 1] {
        WithinMonotone(times, oks, m - 1, times[m - 1] - windowSize, t - windowSize);
      }
    }
  }

  /** The promise of the sliding log: at a clock that never runs backwards,
      a fresh limiter never admits more than `maxRequests` calls whose times
      fall in one window `(t - windowSize, t]`. All calls up to `t` are the
      first `m` of a non-decreasing run, so the window holds the admitted
      ones among them that are later than `t - windowSize`. */
  lemma AdmitsAtMostMax(maxRequests: int, windowSize: int, times: seq<int>, m: nat, t: int)
    requires NonDecreasing(times) && m <= |times|
    requires forall i :: 0 <= i < |times| ==> (i < m <==> times[i] <= t)
    ensures var oks := Run(Log(maxRequests, windowSize, []), times).1;
      Within(times, oks, m, t - windowSize) <= if maxRequests < 0 then 0 else maxRequests
  {
    RunMatchesWindow(maxRequests, windowSize, times);
    var oks := Run(Log(maxRequests, windowSize, []), times).1;
    if m > 0 {
      assert times[m - 1] <= t;
    }
    WindowCap(maxRequests, windowSize, times, oks, m, t);
  }

  /** Without a monotone clock the promise fails: with 2 requests per 10
      units, calls at 100, 105, 200 and then 101 are all admitted, and three
      of them fall in the window (95, 105]. */
  lemma BackwardsClockOverAdmits(maxRequests: int, windowSize: int, times: seq<int>)
    requires maxRequests == 2 && windowSize == 10 && times == [100, 105, 200, 101]
    ensures Run(Log(maxRequests, windowSize, []), times).1 == [true, true, true, true]
    ensures 95 < times[0] <= 105 && 95 < times[1] <= 105 && 95 < times[3] <= 105
  {
    var l0, l1 := Log(2, 10, []), Log(2, 10, [100]);
    var l2, l3, l4 := Log(2, 10, [100, 105]), Log(2, 10, [200]), Log(2, 10, [200, 101]);
    assert Prune([100], 95) == [100] && Prune([100, 105], 190) == [];
    assert Prune([200], 91) == [200];
    assert [] + [100] == [100] && [100] + [105] == [100, 105];
    assert [] + [200] == [200] && [200] + [101] == [200, 101];
    assert IsAllowed(l0, 100) == (l1, true);
    assert IsAllowed(l1, 105) == (l2, true);
    assert IsAllowed(l2, 200) == (l3, true);
    assert IsAllowed(l3, 101) == (l4, true);
    hide *;
    RunStep(l3, 101, []);
    RunStep(l2, 200, [101]);
    assert [200] + [101] == [200, 101];
    RunStep(l1, 105, [200, 101]);
    assert [105] + [200, 101] == [105, 200, 101];
    RunStep(l0, 100, [105, 200, 101]);
    assert [100] + [105, 200, 101] == times;
    assert [true] + [true] == [true, true] && [true] + [true, true] == [true, true, true];
    assert [true] + [true, true, true] == [true, true, true, true];
  }

  /** Four calls at time 10 fill the default limiter (4 requests per 1 unit). */
  lemma DefaultLimiterFills()
    ensures IsAllowed(Log(4, 1, []), 10) == (Log(4, 1, [10]), true)
    ensures IsAllowed(Log(4, 1, [10]), 10) == (Log(4, 1, [10, 10]), true)
    ensures IsAllowed(Log(4, 1, [10, 10]), 10) == (Log(4, 1, [10, 10, 10]), true)
    ensures IsAllowed(Log(4, 1, [10, 10, 10]), 10) == (Log(4, 1, [10, 10, 10, 10]), true)
  {
    assert Prune([], 9) == [] && Prune([10], 9) == [10] && Prune([10, 10], 9) == [10, 10];
    assert Prune([10, 10, 10], 9) == [10, 10, 10];
    assert [] + [10] == [10] && [10] + [10] == [10, 10] && [10, 10] + [10] == [10, 10, 10];
    assert [10, 10, 10] + [10] == [10, 10, 10, 10];
  }

  /** The full limiter refuses a fifth call at time 10 and, once the window has
      passed, admits a call at time 11 into an emptied log. */
  lemma DefaultLimiterRefills()
    ensures IsAllowed(Log(4, 1, [10, 10, 10, 10]), 10) == (Log(4, 1, [10, 10, 10, 10]), false)
    ensures IsAllowed(Log(4, 1, [10, 10, 10, 10]), 11) == (Log(4, 1, [11]), true)
  {
    assert Prune([10, 10, 10, 10], 9) == [10, 10, 10, 10];
    assert Prune([10, 10, 10, 10], 10) == [];
    assert [] + [11] == [11];
  }

  /** From the full log: refused at time 10, admitted at time 11. */
  lemma DefaultLimiterTail()
    ensures Run(Log(4, 1, [10, 10, 10, 10]), [10, 11]) == (Log(4, 1, [11]), [false, true])
  {
    DefaultLimiterRefills();
    var l4, l5 := Log(4, 1, [10, 10, 10, 10]), Log(4, 1, [11]);
    RunStep(l4, 11, []);
    assert [11] + [] == [11] && [true] + [] == [true];
    RunStep(l4, 10, [11]);
    assert [10] + [11] == [10, 11] && [false] + [true] == [false, true];
  }

  /** From a log holding two requests at time 10: two more pass, then the tail. */
  lemma DefaultLimiterMiddle()
    ensures Run(Log(4, 1, [10, 10]), [10, 10, 10, 11]) == (Log(4, 1, [11]), [true, true, false, true])
  {
    DefaultLimiterFills();
    DefaultLimiterTail();
    var l2, l3 := Log(4, 1, [10, 10]), Log(4, 1, [10, 10, 10]);
    RunStep(l3, 10, [10, 11]);
    assert [10] + [10, 11] == [10, 10, 11] && [true] + [false, true] == [true, false, true];
    RunStep(l2, 10, [10, 10, 11]);
    assert [10] + [10, 10, 11] == [10, 10, 10, 11];
    assert [true] + [true, false, true] == [true, true, false, true];
  }

  /** The default limiter: four calls at time 10 pass, the fifth is refused,
      and a call one unit later passes again. */
  lemma DefaultLimiterExample()
    ensures Run(Log(4, 1, []), [10, 10, 10, 10, 10, 11]).1 == [true, true, true, true, false, true]
  {
    assert [10] + [10, 10, 10, 11] == [10, 10, 10, 10, 11];
    assert [true] + [true, true, false, true] == [true, true, true, false, true];
    assert [10] + [10, 10, 10, 10, 11] == [10, 10, 10, 10, 10, 11];
    assert [true] + [true, true, true, false, true] == [true, true, true, true, false, true];
    DefaultLimiterFills();
    DefaultLimiterMiddle();
    RunStep(Log(4, 1, [10]), 10, [10, 10, 10, 11]);
    RunStep(Log(4, 1, []), 10, [10, 10, 10, 10, 11]);
  }

  // ---------------------------------------------------------------------
  // SlidingWindowCounterRateLimiter: the window slide
  // ---------------------------------------------------------------------

  datatype Counter = Counter(maxRequests: int, windowSize: int, windowStart: int,
                             currentRequests: int, lastRequests: int)

  /** `_slide_window_if_needed` (lines 80-95). */
  function Slide(c: Counter, now: int): (r: Counter)
    ensures r.maxRequests == c.maxRequests && r.windowSize == c.windowSize
    ensures now - c.windowStart < c.windowSize ==> r == c
    ensures now - c.windowStart >= c.windowSize ==>
      r.windowStart == now && r.currentRequests == 0 &&
      r.lastRequests == (if now - c.windowStart >= 2 * c.windowSize then 0 else c.currentRequests)
  {
    var elapsed := now - c.windowStart;
    if elapsed >= c.windowSize then
      if elapsed >= 2 * c.windowSize then c.(lastRequests := 0, currentRequests := 0, windowStart := now)
      else c.(lastRequests := c.currentRequests, currentRequests := 0, windowStart := now)
    else c
  }

  /** Sliding twice at the same instant is sliding once. */
  lemma SlideIdempotent(c: Counter, now: int)
    ensures Slide(Slide(c, now), now) == Slide(c, now)
  {
  }

  /** A slide never makes up requests: what it carries into the previous
      window was counted in the current one. */
  lemma SlideCarriesCurrent(c: Counter, now: int)
    requires c.currentRequests >= 0 && c.lastRequests >= 0
    ensures var r := Slide(c, now);
      0 <= r.currentRequests && 0 <= r.lastRequests &&
      (r != c ==> r.currentRequests + r.lastRequests <= c.currentRequests)
  {
  }
}
