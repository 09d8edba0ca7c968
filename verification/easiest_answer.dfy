/** `get_easiest_answer` of old/test3.py: correct answers are counted per
    answer letter, not per question, so questions whose correct answer is
    the same letter pool their counts; then the first question whose pooled
    count is strictly greater than every earlier one's is reported. The
    index the function prints is its result here. Reading the key past its
    end raises `IndexError`, which becomes `Err`. */
module EasiestAnswer {
  import opened Results
  import opened Counting
  import opened Quiz

  /** The letter incremented at each correct answer (line 7), in loop
      order. */
  function Letters(key: seq<string>, responses: seq<seq<string>>): (r: seq<string>)
    requires Fits(key, responses)
    ensures forall i :: 0 <= i < |r| ==> r[i] in key
  {
    KeyAt(key, Correct(key, responses))
  }

  /** The key's letters at the indices `xs`. */
  function KeyAt(key: seq<string>, xs: seq<int>): (r: seq<string>)
    requires forall i :: 0 <= i < |xs| ==> 0 <= xs[i] < |key|
    ensures |r| == |xs|
    ensures forall i :: 0 <= i < |xs| ==> r[i] == key[xs[i]]
  {
    seq(|xs|, i requires 0 <= i < |xs| => key[xs[i]])
  }

  /** The counter after incrementing each of `ls`, starting from a zero for
      every letter of the key (lines 2-7). */
  function Tally(key: seq<string>, ls: seq<string>): (r: map<string, nat>)
    requires forall i :: 0 <= i < |ls| ==> ls[i] in key
    ensures forall a :: a in r <==> a in key
    decreases |ls|
  {
    if |ls| == 0 then map a | a in key :: 0
    else
      var t := Tally(key, ls[..|ls| - 1]);
      var l := ls[|ls| - 1];
      t[l := t[l] + 1]
  }

  /** The scan for the maximum over the first `n` letters of the key
      (lines 9-14): the running maximum starts at 0 with index -1 and moves
      only to a strictly greater count. Returns the index and the maximum. */
  function Easiest(key: seq<string>, counts: map<string, nat>, n: nat): (r: (int, nat))
    requires n <= |key|
    requires forall a :: a in key ==> a in counts
    ensures -1 <= r.0 < n
    ensures forall j :: 0 <= j < n ==> counts[key[j]] <= r.1
    ensures r.0 == -1 <==> r.1 == 0
    ensures r.0 >= 0 ==> counts[key[r.0]] == r.1 && forall j :: 0 <= j < r.0 ==> counts[key[j]] < r.1
  {
    if n == 0 then (-1, 0)
    else
      var prev := Easiest(key, counts, n - 1);
      if counts[key[n - 1]] > prev.1 then (n - 1, counts[key[n - 1]]) else prev
  }

  /** `get_easiest_answer` (lines 1-16). */
  function GetEasiestAnswer(key: seq<string>, responses: seq<seq<string>>): (r: Result<int, Error>)
    ensures r.Err? <==> !Fits(key, responses)
  {
    if !Fits(key, responses) then Err(IndexError)
    else Ok(Easiest(key, Tally(key, Letters(key, responses)), |key|).0)
  }

  /** The counter holds the number of times each letter was incremented. */
  lemma {:induction false} TallyCounts(key: seq<string>, ls: seq<string>, a: string)
    requires forall i :: 0 <= i < |ls| ==> ls[i] in key
    requires a in key
    ensures Tally(key, ls)[a] == Count(ls, a)
    decreases |ls|
  {
    if |ls| > 0 {
      var pre := ls[..|ls| - 1];
      assert ls == pre + [ls[|ls| - 1]];
      TallyCounts(key, pre, a);
      CountSnoc(pre, ls[|ls| - 1], a);
    }
  }

  /** Correct answers to the questions among the first `n` whose correct
      letter is `a`, added up. */
  function Pooled(key: seq<string>, responses: seq<seq<string>>, a: string, n: nat): nat
    requires n <= |key|
  {
    if n == 0 then 0
    else Pooled(key, responses, a, n - 1) + (if key[n - 1] == a then RightCount(key, responses, n - 1) else 0)
  }

  /** The same sum over occurrence counts in `xs`. */
  function PoolOf(key: seq<string>, xs: seq<int>, a: string, n: nat): nat
    requires n <= |key|
  {
    if n == 0 then 0
    else PoolOf(key, xs, a, n - 1) + (if key[n - 1] == a then Count(xs, n - 1) else 0)
  }

  lemma {:induction false} PoolOfSnoc(key: seq<string>, xs: seq<int>, y: int, a: string, n: nat)
    requires n <= |key|
    ensures PoolOf(key, xs + [y], a, n) ==
      PoolOf(key, xs, a, n) + (if 0 <= y < n && key[y] == a then 1 else 0)
  {
    if n > 0 {
      PoolOfSnoc(key, xs, y, a, n - 1);
      CountSnoc(xs, y, n - 1);
    }
  }

  lemma {:induction false} PoolOfCorrect(key: seq<string>, responses: seq<seq<string>>, a: string, n: nat)
    requires Fits(key, responses) && n <= |key|
    ensures PoolOf(key, Correct(key, responses), a, n) == Pooled(key, responses, a, n)
  {
    if n > 0 {
      var m := n - 1;
      PoolOfCorrect(key, responses, a, m);
      CorrectCount(key, responses, m);
    }
  }

  lemma {:induction false} PoolOfEmpty(key: seq<string>, a: string, n: nat)
    requires n <= |key|
    ensures PoolOf(key, [], a, n) == 0
  {
    if n > 0 {
      PoolOfEmpty(key, a, n - 1);
    }
  }

  /** Counting the letters of the indices `xs` pools the indices' counts. */
  lemma {:induction false} LettersPool(key: seq<string>, xs: seq<int>, a: string)
    requires forall i :: 0 <= i < |xs| ==> 0 <= xs[i] < |key|
    ensures Count(KeyAt(key, xs), a) == PoolOf(key, xs, a, |key|)
    decreases |xs|
  {
    if |xs| > 0 {
      var pre := xs[..|xs| - 1];
      var y := xs[|xs| - 1];
      assert xs == pre + [y];
      LettersPool(key, pre, a);
      PoolOfSnoc(key, pre, y, a, |key|);
      assert KeyAt(key, xs) == KeyAt(key, pre) + [key[y]];
      CountSnoc(KeyAt(key, pre), key[y], a);
    } else {
      PoolOfEmpty(key, a, |key|);
    }
  }

  /** The count of a letter is the pooled number of correct answers to every
      question with that correct letter. */
  lemma LetterCount(key: seq<string>, responses: seq<seq<string>>, a: string)
    requires Fits(key, responses) && a in key
    ensures Tally(key, Letters(key, responses))[a] == Pooled(key, responses, a, |key|)
  {
    var c := Correct(key, responses);
    TallyCounts(key, Letters(key, responses), a);
    LettersPool(key, c, a);
    PoolOfCorrect(key, responses, a, |key|);
  }

  /** The reported index against the pooled counts: -1 exactly when no
      question's letter was ever answered correctly; otherwise a question
      whose pooled count is the greatest, and the first such question. */
  lemma EasiestAnswerSpec(key: seq<string>, responses: seq<seq<string>>)
    requires Fits(key, responses)
    ensures var i := GetEasiestAnswer(key, responses).value;
      && -1 <= i < |key|
      && (i == -1 <==> forall q :: 0 <= q < |key| ==> Pooled(key, responses, key[q], |key|) == 0)
      && (i >= 0 ==>
            && Pooled(key, responses, key[i], |key|) > 0
            && (forall q :: 0 <= q < |key| ==>
                  Pooled(key, responses, key[q], |key|) <= Pooled(key, responses, key[i], |key|))
            && (forall q :: 0 <= q < i ==>
                  Pooled(key, responses, key[q], |key|) < Pooled(key, responses, key[i], |key|)))
  {
    var counts := Tally(key, Letters(key, responses));
    forall q | 0 <= q < |key| ensures counts[key[q]] == Pooled(key, responses, key[q], |key|) {
      LetterCount(key, responses, key[q]);
    }
  }
}
