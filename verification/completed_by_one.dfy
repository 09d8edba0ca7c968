/** `courses_completed_by_one` of old/test2.py: each learner lists the
    courses they completed; the courses completed exactly once, counted over
    all learners, are returned in the order in which they were first seen.
    The input dict is its sequence of `(learner, courses)` items. */
module CompletedByOne {
  import opened Counting
  import opened Grouping

  /** Every course of every learner, in loop order (lines 13-15). */
  function AllCourses(input: seq<(string, seq<string>)>): seq<string> {
    Flatten(Seconds(input))
  }

  /** Whether the counter saw `c` exactly once. */
  function Once(t: Tally<string>): string -> bool {
    c => c in t.counts && t.counts[c] == 1
  }

  /** `courses_completed_by_one` (lines 11-22): count every course, then keep
      the counter's keys whose count is 1, in key order. */
  function CoursesCompletedByOne(input: seq<(string, seq<string>)>): seq<string> {
    var watched := TallyOf(AllCourses(input));
    Filter(watched.keys, Once(watched))
  }

  /** Whether `c` occurs exactly once in `all`. */
  function OnceIn(all: seq<string>): string -> bool {
    c => Count(all, c) == 1
  }

  /** Keeping the counter's keys seen once is keeping the distinct courses
      that occur once. */
  lemma TallyOnce(all: seq<string>)
    ensures Filter(TallyOf(all).keys, Once(TallyOf(all))) == Filter(Distinct(all), OnceIn(all))
  {
    var t := TallyOf(all);
    TallyIsCount(all);
    FilterEquiv(t.keys, Once(t), OnceIn(all));
  }

  /** The distinct courses that occur once are exactly the courses that
      occur once. */
  lemma OnceMembership(all: seq<string>, c: string)
    ensures c in Filter(Distinct(all), OnceIn(all)) <==> Count(all, c) == 1
  {
    var d := Distinct(all);
    var r := Filter(d, OnceIn(all));
    FilterMembers(d, OnceIn(all));
    if c in r {
      var i :| 0 <= i < |r| && r[i] == c;
      assert OnceIn(all)(r[i]);
    }
    if Count(all, c) == 1 {
      assert c in multiset(all);
      var i :| 0 <= i < |d| && d[i] == c;
      assert OnceIn(all)(d[i]);
    }
  }

  /** The result against an independent description: the distinct courses in
      first-occurrence order, keeping those listed exactly once over all
      learners. So it has no repetitions, and holds a course exactly when the
      course occurs once; a course a learner lists twice counts twice and is
      left out. */
  lemma CompletedByOneSpec(input: seq<(string, seq<string>)>)
    ensures CoursesCompletedByOne(input) == Filter(Distinct(AllCourses(input)), OnceIn(AllCourses(input)))
    ensures NoDups(CoursesCompletedByOne(input))
    ensures forall c :: c in CoursesCompletedByOne(input) <==> Count(AllCourses(input), c) == 1
  {
    var all := AllCourses(input);
    TallyOnce(all);
    FilterNoDups(Distinct(all), OnceIn(all));
    forall c ensures c in CoursesCompletedByOne(input) <==> Count(all, c) == 1 {
      OnceMembership(all, c);
    }
  }
}
