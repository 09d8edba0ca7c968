/** `get_the_popular_next` of old/test4.py: for every course, the course
    most often watched right after it. Each learner's history is read pair
    by consecutive pair; a `Tracker` per course counts its successors and
    keeps a leader, replaced only when a successor's count becomes strictly
    greater than the leader's. */
module PopularNext {
  import opened Counting
  import opened Grouping

  /** A `Tracker`: the successor counts, `most_popular_next` and
      `most_popular_counter`. */
  datatype Tracker = Tracker(counter: map<string, nat>, next: string, best: nat)

  /** The tracker created at a course's first successor (lines 29-33);
      `most_popular_counter` takes its default 1. */
  function NewTracker(n: string): Tracker {
    Tracker(map[n := 1], n, 1)
  }

  /** `add_next_watched_course` (lines 12-19). The leader's count is bumped
      by one rather than set to the new count. */
  function AddNext(t: Tracker, n: string): Tracker {
    var c := (if n in t.counter then t.counter[n] else 0) + 1;
    var counter := t.counter[n := c];
    if c > t.best then Tracker(counter, n, t.best + 1) else Tracker(counter, t.next, t.best)
  }

  /** The tracker of a course after the successors `succ`, in order. */
  function Track(succ: seq<string>): Tracker
    requires |succ| > 0
    decreases |succ|
  {
    if |succ| == 1 then NewTracker(succ[0])
    else AddNext(Track(succ[..|succ| - 1]), succ[|succ| - 1])
  }

  /** The consecutive pairs of one history (lines 25-27); a history of
      length 0 or 1 has none. */
  function Steps(h: seq<string>): (r: seq<(string, string)>)
    ensures |r| == if |h| <= 1 then 0 else |h| - 1
    ensures forall i :: 0 <= i < |r| ==> r[i] == (h[i], h[i + 1])
  {
    if |h| <= 1 then [] else seq(|h| - 1, i requires 0 <= i < |h| - 1 => (h[i], h[i + 1]))
  }

  /** Every consecutive pair of every history, in loop order. */
  function Transitions(input: seq<seq<string>>): seq<(string, string)>
    decreases |input|
  {
    if |input| == 0 then [] else Transitions(input[..|input| - 1]) + Steps(input[|input| - 1])
  }

  /** The `trackers` dict: its courses in insertion order and their
      trackers. */
  datatype Trackers = Trackers(courses: seq<string>, trackers: map<string, Tracker>)

  /** One pass of the inner loop body (lines 26-35). */
  function Visit(d: Trackers, step: (string, string)): Trackers {
    var (c, n) := step;
    if c !in d.trackers then Trackers(d.courses + [c], d.trackers[c := NewTracker(n)])
    else Trackers(d.courses, d.trackers[c := AddNext(d.trackers[c], n)])
  }

  /** The loop over the pairs (lines 23-35). */
  function VisitAll(steps: seq<(string, string)>): Trackers
    decreases |steps|
  {
    if |steps| == 0 then Trackers([], map[])
    else Visit(VisitAll(steps[..|steps| - 1]), steps[|steps| - 1])
  }

  /** `get_the_popular_next` (lines 22-41): one `[course, most_popular_next]`
      per tracked course, in tracker order. */
  function GetThePopularNext(input: seq<seq<string>>): seq<(string, string)> {
    var d := VisitAll(Transitions(input));
    VisitAllShape(Transitions(input));
    seq(|d.courses|, i requires 0 <= i < |d.courses| => (d.courses[i], d.trackers[d.courses[i]].next))
  }

  /** The successor of `s` at position `p` is the first to reach count `m`:
      it has `m` sightings by then, and every earlier sighting left its
      successor below `m`. */
  ghost predicate FirstToReach(s: seq<string>, y: string, m: nat) {
    exists p :: 0 <= p < |s| && s[p] == y && Count(s[..p + 1], y) == m &&
      forall p' :: 0 <= p' < p ==> Count(s[..p' + 1], s[p']) < m
  }

  /** What a tracker keeps, against the successors it has seen: each
      successor's count, the highest count, and as leader the successor
      that first reached it. */
  ghost predicate Tracks(t: Tracker, s: seq<string>) {
    && (forall n :: n in t.counter <==> n in s)
    && (forall n :: n in t.counter ==> t.counter[n] == Count(s, n))
    && (forall n :: Count(s, n) <= t.best)
    && FirstToReach(s, t.next, t.best)
  }

  /** Counts only grow along prefixes. */
  lemma CountPrefix(s: seq<string>, k: nat, y: string)
    requires k <= |s|
    ensures Count(s[..k], y) <= Count(s, y)
  {
    assert s == s[..k] + s[k..];
    assert multiset(s) == multiset(s[..k]) + multiset(s[k..]);
  }

  /** A successor that reaches a new highest count becomes the first to
      reach it. */
  lemma LeaderMoves(s: seq<string>, n: string, m: nat)
    requires forall x :: Count(s, x) <= m
    requires Count(s, n) == m
    ensures FirstToReach(s + [n], n, m + 1)
  {
    var s' := s + [n];
    assert s'[..|s| + 1] == s';
    CountSnoc(s, n, n);
    forall p' | 0 <= p' < |s| ensures Count(s'[..p' + 1], s'[p']) < m + 1 {
      assert s'[..p' + 1] == s[..p' + 1];
      CountPrefix(s, p' + 1, s[p']);
    }
    var p := |s|;
    assert 0 <= p < |s'| && s'[p] == n && Count(s'[..p + 1], n) == m + 1;
  }

  /** Without a new highest count, the first to reach it stays so. */
  lemma LeaderStays(s: seq<string>, n: string, y: string, m: nat)
    requires FirstToReach(s, y, m)
    ensures FirstToReach(s + [n], y, m)
  {
    var s' := s + [n];
    var p :| 0 <= p < |s| && s[p] == y && Count(s[..p + 1], y) == m &&
      forall p' :: 0 <= p' < p ==> Count(s[..p' + 1], s[p']) < m;
    assert s'[..p + 1] == s[..p + 1];
    forall p' | 0 <= p' < p ensures Count(s'[..p' + 1], s'[p']) < m {
      assert s'[..p' + 1] == s[..p' + 1];
    }
    assert 0 <= p < |s'| && s'[p] == y && Count(s'[..p + 1], y) == m;
  }

  /** One more successor keeps the tracker faithful: the leader moves only
      when the new successor's count passes the highest count, which it can
      pass by one only. */
  lemma AddNextTracks(t: Tracker, s: seq<string>, n: string)
    requires Tracks(t, s)
    ensures Tracks(AddNext(t, n), s + [n])
  {
    var s' := s + [n];
    forall x ensures Count(s', x) == Count(s, x) + (if x == n then 1 else 0) {
      CountSnoc(s, n, x);
    }
    var c := Count(s', n);
    if c > t.best {
      LeaderMoves(s, n, t.best);
    } else {
      LeaderStays(s, n, t.next, t.best);
    }
  }

  /** Every tracker is faithful to the successors it has seen. */
  lemma {:induction false} TrackSpec(succ: seq<string>)
    requires |succ| > 0
    ensures Tracks(Track(succ), succ)
    decreases |succ|
  {
    if |succ| == 1 {
      assert succ[..1] == succ;
    } else {
      var pre := succ[..|succ| - 1];
      assert succ == pre + [succ[|succ| - 1]];
      TrackSpec(pre);
      AddNextTracks(Track(pre), pre, succ[|succ| - 1]);
    }
  }

  /** The dict's courses are distinct and are exactly its keys. */
  lemma {:induction false} VisitAllShape(steps: seq<(string, string)>)
    ensures NoDups(VisitAll(steps).courses)
    ensures forall c :: c in VisitAll(steps).trackers <==> c in VisitAll(steps).courses
    decreases |steps|
  {
    if |steps| > 0 {
      var pre := steps[..|steps| - 1];
      VisitAllShape(pre);
      var d := VisitAll(pre);
      var c := steps[|steps| - 1].0;
      if c !in d.trackers {
        var ks := d.courses + [c];
        forall i, j | 0 <= i < j < |ks| ensures ks[i] != ks[j] {
          assert ks[i] == d.courses[i];
          if j < |d.courses| { assert ks[j] == d.courses[j]; }
        }
      }
    }
  }

  /** The dict against the pairs: its courses are the distinct first
      components in first-occurrence order, and each course's tracker is
      the one built from that course's successors alone, in order. */
  lemma {:induction false} VisitAllIsTrack(steps: seq<(string, string)>)
    ensures VisitAll(steps).courses == Distinct(Firsts(steps))
    ensures forall c :: c in VisitAll(steps).trackers ==>
      ValuesAt(steps, c) != [] && VisitAll(steps).trackers[c] == Track(ValuesAt(steps, c))
    decreases |steps|
  {
    if |steps| > 0 {
      var pre := steps[..|steps| - 1];
      var st := steps[|steps| - 1];
      assert steps == pre + [st];
      VisitAllIsTrack(pre);
      VisitAllShape(pre);
      var d := VisitAll(pre);
      assert Firsts(steps) == Firsts(pre) + [st.0];
      DistinctSnoc(Firsts(pre), st.0);
      forall c | c in Visit(d, st).trackers
        ensures ValuesAt(pre + [st], c) != [] && Visit(d, st).trackers[c] == Track(ValuesAt(pre + [st], c))
      {
        VisitStep(pre, d, st, c);
      }
    }
  }

  /** The tracker after one more successor. */
  lemma TrackSnoc(vs: seq<string>, y: string)
    requires |vs| > 0
    ensures Track(vs + [y]) == AddNext(Track(vs), y)
  {
    assert (vs + [y])[..|vs|] == vs;
  }

  /** One pair updates only its own course's tracker. */
  lemma VisitStep(pre: seq<(string, string)>, d: Trackers, st: (string, string), c: string)
    requires d.courses == Distinct(Firsts(pre))
    requires c in d.trackers <==> c in d.courses
    requires c in d.trackers ==> ValuesAt(pre, c) != [] && d.trackers[c] == Track(ValuesAt(pre, c))
    requires c in Visit(d, st).trackers
    ensures ValuesAt(pre + [st], c) != [] && Visit(d, st).trackers[c] == Track(ValuesAt(pre + [st], c))
  {
    var p := KeyIs(c);
    var f := Filter(pre, p);
    var vs := ValuesAt(pre, c);
    FilterSnoc(pre, st, p);
    if st.0 == c {
      assert p(st);
      SecondsSnoc(f, st);
      assert ValuesAt(pre + [st], c) == vs + [st.1];
      if c !in d.trackers {
        ValuesAtAbsent(pre, c);
        assert vs + [st.1] == [st.1];
      } else {
        TrackSnoc(vs, st.1);
      }
    } else {
      assert !p(st);
      assert Filter(pre + [st], p) == f;
    }
  }

  /** The result's courses: every course that has a successor somewhere,
      in order of the first such pair, no course twice. */
  lemma PopularCourses(input: seq<seq<string>>)
    ensures Firsts(GetThePopularNext(input)) == Distinct(Firsts(Transitions(input)))
    ensures NoDups(Firsts(GetThePopularNext(input)))
  {
    var steps := Transitions(input);
    VisitAllIsTrack(steps);
    assert Firsts(GetThePopularNext(input)) == VisitAll(steps).courses;
  }

  /** The leader a faithful tracker names has the highest count and reached
      it first. */
  lemma LeaderIsMost(succ: seq<string>)
    requires |succ| > 0
    ensures var n := Track(succ).next;
      && (forall x :: Count(succ, x) <= Count(succ, n))
      && FirstToReach(succ, n, Count(succ, n))
  {
    TrackSpec(succ);
    var t := Track(succ);
    LeaderCount(succ, t.next, t.best);
  }

  /** A successor that first reached the highest count has that count. */
  lemma LeaderCount(s: seq<string>, y: string, m: nat)
    requires forall x :: Count(s, x) <= m
    requires FirstToReach(s, y, m)
    ensures Count(s, y) == m
  {
    var p :| 0 <= p < |s| && s[p] == y && Count(s[..p + 1], y) == m;
    CountPrefix(s, p + 1, y);
  }

  /** Each entry of the result names, for its course, the successor with
      the most sightings right after that course over all histories, and of
      those the one that reached that count first. */
  lemma PopularNextSpec(input: seq<seq<string>>, i: int)
    requires 0 <= i < |GetThePopularNext(input)|
    ensures var (c, n) := GetThePopularNext(input)[i];
      var succ := ValuesAt(Transitions(input), c);
      && succ != []
      && (forall x :: Count(succ, x) <= Count(succ, n))
      && FirstToReach(succ, n, Count(succ, n))
  {
    var steps := Transitions(input);
    VisitAllShape(steps);
    VisitAllIsTrack(steps);
    var d := VisitAll(steps);
    var c := d.courses[i];
    assert GetThePopularNext(input)[i] == (c, d.trackers[c].next);
    LeaderIsMost(ValuesAt(steps, c));
  }
}
