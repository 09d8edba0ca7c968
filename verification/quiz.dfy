/** `QuizAnalyzer` of old/go1.py: responses of students to a multiple-choice
    quiz are checked against the answer key. Per question it counts the
    correct responses, ranks the questions by that count, and names the most
    common wrong answer. Answers are strings; a response is the list of one
    student's answers by question index. Reading the key at an index past
    its end raises `IndexError`, and `max` of no items raises `ValueError`;
    both become `Err`. The report printer is not modelled. */
module Quiz {
  import opened Results
  import opened Counting
  import opened Sorting
  import opened Grouping

  datatype Error = IndexError | EmptyMax

  /** The result of `analyze_responses`: the easiest question, the
      `(question, count)` items from easiest to hardest, and the
      `(question, answer)` items of the misleading-answer dict. */
  datatype Analysis = Analysis(easiest: int, byDifficulty: seq<(int, nat)>,
                               misleading: seq<(int, string)>)

  /** No response is longer than the answer key. */
  predicate Fits(key: seq<string>, responses: seq<seq<string>>) {
    forall r :: 0 <= r < |responses| ==> |responses[r]| <= |key|
  }

  /** Whether a response answers question `q`, correctly. */
  function RightAt(key: seq<string>, q: int): seq<string> -> bool {
    resp => 0 <= q < |resp| && q < |key| && resp[q] == key[q]
  }

  /** Whether a response answers question `q`, wrongly. */
  function WrongAt(key: seq<string>, q: int): seq<string> -> bool {
    resp => 0 <= q < |resp| && q < |key| && resp[q] != key[q]
  }

  /** How many responses answer question `q` correctly. */
  function RightCount(key: seq<string>, responses: seq<seq<string>>, q: int): nat {
    |Filter(responses, RightAt(key, q))|
  }

  /** The wrong answers given to question `q`, in response order. */
  function WrongAnswers(key: seq<string>, responses: seq<seq<string>>, q: int): (r: seq<string>)
    ensures forall a :: a in r ==> 0 <= q < |key| && a != key[q]
    decreases |responses|
  {
    if |responses| == 0 then []
    else
      var last := responses[|responses| - 1];
      WrongAnswers(key, responses[..|responses| - 1], q) +
        (if WrongAt(key, q)(last) then [last[q]] else [])
  }

  /** The indices at which `response` agrees with the key, in `enumerate`
      order (lines 34-36). */
  function RowCorrect(key: seq<string>, response: seq<string>): (r: seq<int>)
    requires |response| <= |key|
    ensures forall i :: 0 <= i < |r| ==> 0 <= r[i] < |response|
    decreases |response|
  {
    if |response| == 0 then []
    else
      var n := |response| - 1;
      RowCorrect(key, response[..n]) + (if response[n] == key[n] then [n] else [])
  }

  /** Every index `_count_correct_answers` increments, in loop order
      (lines 33-36). */
  function Correct(key: seq<string>, responses: seq<seq<string>>): (r: seq<int>)
    requires Fits(key, responses)
    ensures forall i :: 0 <= i < |r| ==> 0 <= r[i] < |key|
    decreases |responses|
  {
    if |responses| == 0 then []
    else Correct(key, responses[..|responses| - 1]) + RowCorrect(key, responses[|responses| - 1])
  }

  /** The `(index, answer)` pairs at which `response` disagrees with the
      key, in `enumerate` order (lines 44-46). */
  function RowWrong(key: seq<string>, response: seq<string>): seq<(int, string)>
    requires |response| <= |key|
    decreases |response|
  {
    if |response| == 0 then []
    else
      var n := |response| - 1;
      RowWrong(key, response[..n]) + (if response[n] != key[n] then [(n, response[n])] else [])
  }

  /** Every pair `_find_misleading_answers` appends, in loop order
      (lines 43-46). */
  function Wrong(key: seq<string>, responses: seq<seq<string>>): seq<(int, string)>
    requires Fits(key, responses)
    decreases |responses|
  {
    if |responses| == 0 then []
    else Wrong(key, responses[..|responses| - 1]) + RowWrong(key, responses[|responses| - 1])
  }

  /** `_count_correct_answers` (lines 30-38): a counter over the correct
      answers, keyed by question index in the order of the first correct
      answer. */
  function CountCorrect(key: seq<string>, responses: seq<seq<string>>): (r: Result<Tally<int>, Error>)
    ensures r.Err? <==> !Fits(key, responses)
    ensures r.Ok? ==> forall q :: q in r.value.keys ==> q in r.value.counts
  {
    if !Fits(key, responses) then Err(IndexError)
    else
      TallyKeys(Correct(key, responses));
      Ok(TallyOf(Correct(key, responses)))
  }

  /** `Counter(xs).most_common(1)[0][0]`: the counter keeps first-occurrence
      order and `most_common(1)` takes the first item with the greatest
      count. */
  function MostCommon(xs: seq<string>): string
    requires |xs| > 0
  {
    TallyKeys(xs);
    FirstMax(Items(TallyOf(xs))).0
  }

  /** `_find_misleading_answers` (lines 40-54): the wrong answers grouped by
      question, in the order of the first wrong answer, and the most common
      one of each group. The `if wrong_answers` test always passes, since a
      group is created with its first answer. */
  function FindMisleading(key: seq<string>, responses: seq<seq<string>>): (r: Result<seq<(int, string)>, Error>)
    ensures r.Err? <==> !Fits(key, responses)
  {
    if !Fits(key, responses) then Err(IndexError)
    else
      var g := GroupBy(Wrong(key, responses));
      Ok(seq(|g.keys|, i requires 0 <= i < |g.keys| => (g.keys[i], MostCommon(g.lists[g.keys[i]]))))
  }

  /** `sorted(..., key=lambda x: x[1], reverse=True)` orders by this. */
  predicate MoreCorrect(a: (int, nat), b: (int, nat)) {
    a.1 >= b.1
  }

  lemma MoreCorrectOrder()
    ensures TotalPreorder(MoreCorrect)
  {
  }

  /** `analyze_responses` (lines 17-28). */
  function AnalyzeResponses(key: seq<string>, responses: seq<seq<string>>): Result<Analysis, Error> {
    match CountCorrect(key, responses)
    case Err(e) => Err(e)
    case Ok(counts) =>
      var misleading := FindMisleading(key, responses).value;
      var items := Items(counts);
      if |items| == 0 then Err(EmptyMax)
      else Ok(Analysis(FirstMax(items).0, Sort(items, MoreCorrect), misleading))
  }

  /** A response's correct indices hold `q` once if it answers `q`
      correctly, and otherwise not at all. */
  lemma {:induction false} RowCorrectCount(key: seq<string>, resp: seq<string>, q: int)
    requires |resp| <= |key|
    ensures Count(RowCorrect(key, resp), q) == if RightAt(key, q)(resp) then 1 else 0
    decreases |resp|
  {
    if |resp| > 0 {
      var n := |resp| - 1;
      var pre := resp[..n];
      RowCorrectCount(key, pre, q);
      var t: seq<int> := if resp[n] == key[n] then [n] else [];
      assert RowCorrect(key, resp) == RowCorrect(key, pre) + t;
      assert multiset(RowCorrect(key, resp)) == multiset(RowCorrect(key, pre)) + multiset(t);
      if q == n {
        assert !RightAt(key, q)(pre);
      } else {
        assert multiset(t)[q] == 0;
        assert 0 <= q < n ==> pre[q] == resp[q];
        assert RightAt(key, q)(resp) == RightAt(key, q)(pre);
      }
    }
  }

  /** The counter's tally for question `q` is the number of responses that
      answer it correctly. */
  lemma {:induction false} CorrectCount(key: seq<string>, responses: seq<seq<string>>, q: int)
    requires Fits(key, responses)
    ensures Count(Correct(key, responses), q) == RightCount(key, responses, q)
    decreases |responses|
  {
    if |responses| > 0 {
      var rs := responses[..|responses| - 1];
      var last := responses[|responses| - 1];
      assert responses == rs + [last];
      CorrectCount(key, rs, q);
      RowCorrectCount(key, last, q);
      FilterSnoc(rs, last, RightAt(key, q));
    }
  }

  /** `_count_correct_answers` against the responses: a question is a key
      exactly when some response answers it correctly, and its count is the
      number of such responses. Questions nobody answered correctly are
      absent, not zero. */
  lemma CountCorrectSpec(key: seq<string>, responses: seq<seq<string>>, q: int)
    requires Fits(key, responses)
    ensures (q in CountCorrect(key, responses).value.counts) <==> RightCount(key, responses, q) > 0
    ensures q in CountCorrect(key, responses).value.counts ==>
      CountCorrect(key, responses).value.counts[q] == RightCount(key, responses, q)
  {
    TallyIsCount(Correct(key, responses));
    CorrectCount(key, responses, q);
  }

  /** The items of the counter are `(q, RightCount(q))` for the questions
      somebody answered correctly, in order of the first correct answer,
      without repetition. */
  lemma CountItems(key: seq<string>, responses: seq<seq<string>>)
    requires Fits(key, responses)
    ensures var items := Items(CountCorrect(key, responses).value);
      && NoDups(Firsts(items))
      && (forall i :: 0 <= i < |items| ==> items[i].1 == RightCount(key, responses, items[i].0) > 0)
      && (forall q :: RightCount(key, responses, q) > 0 ==> q in Firsts(items))
  {
    var xs := Correct(key, responses);
    ItemsOfTally(xs);
    TallyIsCount(xs);
    var items := Items(CountCorrect(key, responses).value);
    assert Firsts(items) == Distinct(xs);
    forall i | 0 <= i < |items| ensures items[i].1 == RightCount(key, responses, items[i].0) > 0 {
      CorrectCount(key, responses, items[i].0);
    }
    forall q | RightCount(key, responses, q) > 0 ensures q in Firsts(items) {
      CorrectCount(key, responses, q);
    }
  }

  /** The pair one wrong answer contributes, read back per question. */
  lemma WrongPairAt(n: int, answer: string, right: string, q: int)
    ensures var tail: seq<(int, string)> := if answer != right then [(n, answer)] else [];
      ValuesAt(tail, q) == if answer != right && q == n then [answer] else []
  {
    if answer != right {
      FilterSnoc([], (n, answer), KeyIs(q));
      assert [] + [(n, answer)] == [(n, answer)];
    }
  }

  /** The wrong pairs of one response, read back per question. */
  lemma {:induction false} RowWrongAt(key: seq<string>, resp: seq<string>, q: int)
    requires |resp| <= |key|
    ensures ValuesAt(RowWrong(key, resp), q) == if WrongAt(key, q)(resp) then [resp[q]] else []
    decreases |resp|
  {
    if |resp| > 0 {
      var n := |resp| - 1;
      var init := resp[..n];
      var pre := RowWrong(key, init);
      var tail: seq<(int, string)> := if resp[n] != key[n] then [(n, resp[n])] else [];
      RowWrongAt(key, init, q);
      assert RowWrong(key, resp) == pre + tail;
      FilterConcat(pre, tail, KeyIs(q));
      SecondsConcat(Filter(pre, KeyIs(q)), Filter(tail, KeyIs(q)));
      WrongPairAt(n, resp[n], key[n], q);
      WrongAtSnoc(key, resp, q);
      hide WrongAt, RowWrong;
    }
  }

  /** Question `q` is answered wrongly by a response exactly when it is
      answered wrongly by all but its last answer, or it is the last question
      and that answer is wrong. */
  lemma WrongAtSnoc(key: seq<string>, resp: seq<string>, q: int)
    requires 0 < |resp| <= |key|
    ensures var n := |resp| - 1;
      (WrongAt(key, q)(resp) <==> WrongAt(key, q)(resp[..n]) || (q == n && resp[n] != key[n])) &&
      (WrongAt(key, q)(resp[..n]) ==> 0 <= q < n && resp[..n][q] == resp[q])
  {
  }

  /** The answers grouped under question `q` are its wrong answers, in
      response order. */
  lemma {:induction false} WrongAt_Groups(key: seq<string>, responses: seq<seq<string>>, q: int)
    requires Fits(key, responses)
    ensures ValuesAt(Wrong(key, responses), q) == WrongAnswers(key, responses, q)
    decreases |responses|
  {
    if |responses| > 0 {
      var rs := responses[..|responses| - 1];
      var last := responses[|responses| - 1];
      WrongAt_Groups(key, rs, q);
      RowWrongAt(key, last, q);
      FilterConcat(Wrong(key, rs), RowWrong(key, last), KeyIs(q));
      SecondsConcat(Filter(Wrong(key, rs), KeyIs(q)), Filter(RowWrong(key, last), KeyIs(q)));
    }
  }

  /** `most_common(1)`: the answer occurs in the list, no answer occurs more
      often, and it first occurs no later than any answer that occurs as
      often (ties go to the answer seen first). */
  lemma MostCommonSpec(xs: seq<string>)
    requires |xs| > 0
    ensures MostCommon(xs) in xs
    ensures forall y :: y in xs ==> Count(xs, y) <= Count(xs, MostCommon(xs))
    ensures forall p :: 0 <= p < |xs| && Count(xs, xs[p]) == Count(xs, MostCommon(xs)) ==>
      exists p0 :: 0 <= p0 <= p && xs[p0] == MostCommon(xs)
  {
    TallyFirstMax(xs);
  }

  /** The misleading-answer dict against the responses: it has a question
      exactly when somebody answered it wrongly, and holds that question's
      most common wrong answer. Questions everyone answered correctly are
      absent. */
  lemma MisleadingSpec(key: seq<string>, responses: seq<seq<string>>, q: int)
    requires Fits(key, responses)
    ensures var m := FindMisleading(key, responses).value;
      && NoDups(Firsts(m))
      && (q in Firsts(m) <==> WrongAnswers(key, responses, q) != [])
      && (forall i :: 0 <= i < |m| && m[i].0 == q ==> m[i].1 == MostCommon(WrongAnswers(key, responses, q)))
  {
    var kvs := Wrong(key, responses);
    var g := GroupBy(kvs);
    var m := FindMisleading(key, responses).value;
    GroupByIsFilter(kvs);
    WrongAt_Groups(key, responses, q);
    ValuesAtPresent(kvs, q);
    assert Firsts(m) == g.keys;
  }

  /** `analyze_responses` fails exactly when a response is longer than the
      key, or when no response answers any question correctly (the `max` of
      an empty counter). */
  lemma AnalyzeErrors(key: seq<string>, responses: seq<seq<string>>)
    ensures AnalyzeResponses(key, responses) == Err(IndexError) <==> !Fits(key, responses)
    ensures AnalyzeResponses(key, responses) == Err(EmptyMax) <==>
      Fits(key, responses) && forall q :: RightCount(key, responses, q) == 0
  {
    if Fits(key, responses) {
      CountItems(key, responses);
      var items := Items(CountCorrect(key, responses).value);
      if |items| > 0 {
        assert RightCount(key, responses, items[0].0) > 0;
      }
    }
  }

  /** The easiest question has the most correct answers, and of the
      questions tied with it, it was the first to be answered correctly in
      the order the loop reads the responses. */
  lemma EasiestSpec(key: seq<string>, responses: seq<seq<string>>)
    requires AnalyzeResponses(key, responses).Ok?
    ensures var e := AnalyzeResponses(key, responses).value.easiest;
      && RightCount(key, responses, e) > 0
      && (forall q :: RightCount(key, responses, q) <= RightCount(key, responses, e))
      && (forall p ::
            0 <= p < |Correct(key, responses)| &&
            RightCount(key, responses, Correct(key, responses)[p]) == RightCount(key, responses, e)
            ==> exists p0 :: 0 <= p0 <= p && Correct(key, responses)[p0] == e)
  {
    var xs := Correct(key, responses);
    TallyFirstMax(xs);
    var e := AnalyzeResponses(key, responses).value.easiest;
    CorrectCount(key, responses, e);
    forall q ensures RightCount(key, responses, q) <= RightCount(key, responses, e) {
      CorrectCount(key, responses, q);
      if RightCount(key, responses, q) > 0 {
        assert q in xs;
      }
    }
    forall p | 0 <= p < |xs| ensures Count(xs, xs[p]) == RightCount(key, responses, xs[p]) {
      CorrectCount(key, responses, xs[p]);
    }
  }

  /** `questions_by_difficulty` is the counter's items by count, most
      correct first, with equal counts in counter order (the sort is
      stable). */
  lemma ByDifficultySpec(key: seq<string>, responses: seq<seq<string>>, a: (int, nat))
    requires AnalyzeResponses(key, responses).Ok?
    ensures var items := Items(CountCorrect(key, responses).value);
      var s := AnalyzeResponses(key, responses).value.byDifficulty;
      && SortedBy(s, MoreCorrect)
      && multiset(s) == multiset(items)
      && Filter(s, Level(MoreCorrect, a)) == Filter(items, Level(MoreCorrect, a))
  {
    var items := Items(CountCorrect(key, responses).value);
    MoreCorrectOrder();
    SortSorted(items, MoreCorrect);
    SortPerm(items, MoreCorrect);
    SortStable(items, MoreCorrect, a);
  }

  /** The easiest question heads `questions_by_difficulty`. */
  lemma EasiestHeadsDifficulty(key: seq<string>, responses: seq<seq<string>>)
    requires AnalyzeResponses(key, responses).Ok?
    ensures var r := AnalyzeResponses(key, responses).value;
      |r.byDifficulty| > 0 && r.byDifficulty[0].0 == r.easiest
  {
    var items := Items(CountCorrect(key, responses).value);
    SortedHeadIsFirstMax(items);
  }

  /** Sorting by count, most first, puts the first maximal item first. */
  lemma SortedHeadIsFirstMax(items: seq<(int, nat)>)
    requires |items| > 0
    ensures |Sort(items, MoreCorrect)| > 0 && Sort(items, MoreCorrect)[0] == FirstMax(items)
  {
    var s := Sort(items, MoreCorrect);
    var m := FirstMax(items);
    var p := Level(MoreCorrect, m);
    MoreCorrectOrder();
    SortSorted(items, MoreCorrect);
    SortPerm(items, MoreCorrect);
    SortStable(items, MoreCorrect, m);
    var i0 :| 0 <= i0 < |items| && items[i0] == m && forall j :: 0 <= j < i0 ==> items[j].1 < m.1;
    FilterFirst(items, p, i0);
    assert s[0] in multiset(items);
    assert m in multiset(s);
    var k :| 0 <= k < |s| && s[k] == m;
    assert MoreCorrect(s[0], s[k]) by { if k > 0 { assert MoreCorrect(s[0], s[k]); } }
    assert p(s[0]);
    FilterFirst(s, p, 0);
  }
}
