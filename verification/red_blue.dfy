/** `minCost` of leetcoding02.py: stations are passed one by one, each on the
    red or the blue line, and the trip starts on red. Every change from red
    onto blue costs `blueCost` extra, however often it happens. The loop
    keeps one running cost `mi` and a flag `isOnBlue` that is never cleared,
    so it charges only the first change; the list `ans` it prints is the
    model's result. The corrected version keeps the best cost for each line
    separately and is proved to be the cheapest route. */
module RedBlue {
  import opened Results

  datatype Error = IndexError

  function Min(a: int, b: int): int {
    if a <= b then a else b
  }

  /** The loop state of `minCost`: `mi`, `isOnBlue` and `ans`. */
  datatype Greedy = Greedy(mi: int, onBlue: bool, ans: seq<int>)

  /** One pass of the loop body (lines 12-24): blue is taken when it costs
      no more than red, and taking it sets the flag. */
  function Station(g: Greedy, red: int, blue: int, blueCost: int): Greedy {
    var charge := if g.onBlue then 0 else blueCost;
    var cRed := g.mi + red;
    var cBlue := g.mi + blue + charge;
    if cBlue <= cRed then Greedy(cBlue, true, g.ans + [cBlue])
    else Greedy(cRed, g.onBlue, g.ans + [cRed])
  }

  /** The loop after its first `i` stations (lines 6-24). `ans` has one
      entry per station passed plus the starting 0, and `mi` is its last
      entry. */
  function Run(red: seq<int>, blue: seq<int>, blueCost: int, i: nat): (g: Greedy)
    requires i <= |red| && i <= |blue|
    ensures |g.ans| == i + 1 && g.ans[0] == 0 && g.mi == g.ans[i]
  {
    if i == 0 then Greedy(0, false, [0])
    else Station(Run(red, blue, blueCost, i - 1), red[i - 1], blue[i - 1], blueCost)
  }

  /** `minCost` (lines 5-29), returning the list it prints. A blue list
      shorter than the red one raises `IndexError`. */
  function MinCost(red: seq<int>, blue: seq<int>, blueCost: int): (r: Result<seq<int>, Error>)
    ensures r.Ok? <==> |red| <= |blue|
    ensures r.Ok? ==> |r.value| == |red| + 1 && r.value[0] == 0
  {
    if |blue| < |red| then Err(IndexError)
    else Ok(Run(red, blue, blueCost, |red|).ans)
  }

  /** Station `j` went to blue: with the charge due at that point, blue cost
      no more than red. */
  predicate ChoseBlue(red: seq<int>, blue: seq<int>, blueCost: int, j: nat)
    requires j < |red| && j < |blue|
  {
    var g := Run(red, blue, blueCost, j);
    g.mi + blue[j] + (if g.onBlue then 0 else blueCost) <= g.mi + red[j]
  }

  /** Later stations only append to `ans`. */
  lemma {:induction false} RunPrefix(red: seq<int>, blue: seq<int>, blueCost: int, i: nat, k: nat)
    requires i <= k <= |red| && k <= |blue|
    ensures Run(red, blue, blueCost, i).ans == Run(red, blue, blueCost, k).ans[..i + 1]
    decreases k - i
  {
    if i < k {
      RunPrefix(red, blue, blueCost, i, k - 1);
      var a := Run(red, blue, blueCost, k - 1).ans;
      assert Run(red, blue, blueCost, k).ans[..k] == a;
      assert Run(red, blue, blueCost, k).ans[..i + 1] == a[..i + 1];
    }
  }

  /** Once set, `isOnBlue` is never cleared: after `i` stations it is set
      exactly when some earlier station went to blue. */
  lemma {:induction false} FlagNeverCleared(red: seq<int>, blue: seq<int>, blueCost: int, i: nat)
    requires i <= |red| && i <= |blue|
    ensures Run(red, blue, blueCost, i).onBlue <==> exists j :: 0 <= j < i && ChoseBlue(red, blue, blueCost, j)
  {
    if i > 0 {
      FlagNeverCleared(red, blue, blueCost, i - 1);
      if Run(red, blue, blueCost, i).onBlue && !ChoseBlue(red, blue, blueCost, i - 1) {
        var j :| 0 <= j < i - 1 && ChoseBlue(red, blue, blueCost, j);
      }
    }
  }

  /** Each printed entry after the first is the cheaper of going on by red
      and going on by blue from the previous entry, where blue carries
      `blueCost` unless some earlier station already went to blue; on a tie
      blue is taken. */
  lemma GreedyEntries(red: seq<int>, blue: seq<int>, blueCost: int, i: nat)
    requires i < |red| <= |blue|
    ensures var ans := MinCost(red, blue, blueCost).value;
      var charge := if exists j :: 0 <= j < i && ChoseBlue(red, blue, blueCost, j) then 0 else blueCost;
      ans[i + 1] == Min(ans[i] + red[i], ans[i] + blue[i] + charge) &&
      (ChoseBlue(red, blue, blueCost, i) <==> ans[i] + blue[i] + charge <= ans[i] + red[i])
  {
    FlagNeverCleared(red, blue, blueCost, i);
    RunPrefix(red, blue, blueCost, i + 1, |red|);
    RunPrefix(red, blue, blueCost, i, |red|);
    var ans := MinCost(red, blue, blueCost).value;
    assert ans[i] == Run(red, blue, blueCost, i + 1).ans[i];
  }

  /** With costs that are never negative, the printed list never
      decreases. */
  lemma GreedyNondecreasing(red: seq<int>, blue: seq<int>, blueCost: int)
    requires |red| <= |blue| && blueCost >= 0
    requires forall i :: 0 <= i < |red| ==> red[i] >= 0 && blue[i] >= 0
    ensures var ans := MinCost(red, blue, blueCost).value;
      forall i, j :: 0 <= i <= j < |ans| ==> ans[i] <= ans[j]
  {
    var ans := MinCost(red, blue, blueCost).value;
    forall k | 0 <= k < |red| ensures ans[k] <= ans[k + 1] {
      GreedyEntries(red, blue, blueCost, k);
    }
    forall i, j | 0 <= i <= j < |ans| ensures ans[i] <= ans[j] {
      Climb(ans, i, j);
    }
  }

  lemma {:induction false} Climb(s: seq<int>, i: nat, j: nat)
    requires i <= j < |s|
    requires forall k :: 0 <= k < |s| - 1 ==> s[k] <= s[k + 1]
    ensures s[i] <= s[j]
    decreases j - i
  {
    if i < j {
      Climb(s, i, j - 1);
    }
  }

  // ---------------------------------------------------------------------
  // Routes and the corrected two-line version.

  /** A route over the first `|p|` stations: `p[j]` says whether station
      `j` is passed on blue. The route starts on red, and every change
      from red onto blue pays `blueCost`. */
  function Cost(red: seq<int>, blue: seq<int>, blueCost: int, p: seq<bool>): int
    requires |p| <= |red| && |p| <= |blue|
  {
    if |p| == 0 then 0
    else
      var j := |p| - 1;
      var fare := if p[j] then blue[j] + (if j == 0 || !p[j - 1] then blueCost else 0) else red[j];
      Cost(red, blue, blueCost, p[..j]) + fare
  }

  /** The cheapest cost of reaching station `i` (i >= 1) with the last
      station on red, and on blue. */
  function Best(red: seq<int>, blue: seq<int>, blueCost: int, i: nat): (int, int)
    requires 1 <= i <= |red| && i <= |blue|
  {
    if i == 1 then (red[0], blueCost + blue[0])
    else
      var (r, b) := Best(red, blue, blueCost, i - 1);
      (Min(r, b) + red[i - 1], Min(r + blueCost, b) + blue[i - 1])
  }

  /** `v` is the cost of the cheapest route over the first `i` stations. */
  ghost predicate Cheapest(red: seq<int>, blue: seq<int>, blueCost: int, i: nat, v: int)
    requires i <= |red| && i <= |blue|
  {
    (forall p: seq<bool> :: |p| == i ==> v <= Cost(red, blue, blueCost, p)) &&
    (exists p: seq<bool> :: |p| == i && Cost(red, blue, blueCost, p) == v)
  }

  /** No route is cheaper than the best cost for the line it ends on. */
  lemma {:induction false} RouteAtLeastBest(red: seq<int>, blue: seq<int>, blueCost: int, p: seq<bool>)
    requires 1 <= |p| <= |red| && |p| <= |blue|
    ensures var b := Best(red, blue, blueCost, |p|);
      Cost(red, blue, blueCost, p) >= if p[|p| - 1] then b.1 else b.0
  {
    var j := |p| - 1;
    if j > 0 {
      var q := p[..j];
      RouteAtLeastBest(red, blue, blueCost, q);
      assert q[j - 1] == p[j - 1];
    }
  }

  /** A route achieving the best cost for reaching station `i` on the line
      `onBlue` names. */
  function BestRoute(red: seq<int>, blue: seq<int>, blueCost: int, i: nat, onBlue: bool): (p: seq<bool>)
    requires 1 <= i <= |red| && i <= |blue|
    ensures |p| == i && p[i - 1] == onBlue
    ensures var b := Best(red, blue, blueCost, i);
      Cost(red, blue, blueCost, p) == if onBlue then b.1 else b.0
  {
    if i == 1 then [onBlue]
    else
      var (r, b) := Best(red, blue, blueCost, i - 1);
      var before :=
        if onBlue then (if r + blueCost <= b then false else true)
        else (if r <= b then false else true);
      var q := BestRoute(red, blue, blueCost, i - 1, before);
      assert (q + [onBlue])[..i - 1] == q;
      q + [onBlue]
  }

  /** The smaller of the two best costs is the cheapest route. */
  lemma BestIsCheapest(red: seq<int>, blue: seq<int>, blueCost: int, i: nat)
    requires 1 <= i <= |red| && i <= |blue|
    ensures var b := Best(red, blue, blueCost, i);
      Cheapest(red, blue, blueCost, i, Min(b.0, b.1))
  {
    var b := Best(red, blue, blueCost, i);
    forall p: seq<bool> | |p| == i ensures Min(b.0, b.1) <= Cost(red, blue, blueCost, p) {
      RouteAtLeastBest(red, blue, blueCost, p);
    }
    var p := BestRoute(red, blue, blueCost, i, b.1 < b.0);
    assert Cost(red, blue, blueCost, p) == Min(b.0, b.1);
  }

  /** The corrected `minCost`: the best cost on each line is kept, and each
      entry of `ans` is the cheaper of the two. Entry `i` is the cost of the
      cheapest route over the first `i` stations. */
  method MinCostFixed(red: seq<int>, blue: seq<int>, blueCost: int) returns (r: Result<seq<int>, Error>)
    ensures r.Ok? <==> |red| <= |blue|
    ensures r.Ok? ==> |r.value| == |red| + 1 && r.value[0] == 0
    ensures r.Ok? ==> forall i :: 0 <= i <= |red| ==> Cheapest(red, blue, blueCost, i, r.value[i])
  {
    if |blue| < |red| {
      return Err(IndexError);
    }
    var ans := [0];
    assert Cheapest(red, blue, blueCost, 0, 0) by {
      var none: seq<bool> := [];
      assert Cost(red, blue, blueCost, none) == 0;
    }
    var onRed, onBlue := 0, 0;
    var i := 0;
    while i < |red|
      invariant 0 <= i <= |red| && |ans| == i + 1 && ans[0] == 0
      invariant i >= 1 ==> (onRed, onBlue) == Best(red, blue, blueCost, i)
      invariant forall k :: 0 <= k <= i ==> Cheapest(red, blue, blueCost, k, ans[k])
    {
      if i == 0 {
        onRed, onBlue := red[0], blueCost + blue[0];
      } else {
        onRed, onBlue := Min(onRed, onBlue) + red[i], Min(onRed + blueCost, onBlue) + blue[i];
      }
      i := i + 1;
      BestIsCheapest(red, blue, blueCost, i);
      ans := ans + [Min(onRed, onBlue)];
    }
    return Ok(ans);
  }

  /** With costs that are never negative, the cheapest cost never drops
      from one station to the next. */
  lemma CheapestNondecreasing(red: seq<int>, blue: seq<int>, blueCost: int, i: nat, u: int, v: int)
    requires i < |red| && i < |blue| && blueCost >= 0
    requires forall k :: 0 <= k < |red| && k < |blue| ==> red[k] >= 0 && blue[k] >= 0
    requires Cheapest(red, blue, blueCost, i, u) && Cheapest(red, blue, blueCost, i + 1, v)
    ensures u <= v
  {
    var p: seq<bool> :| |p| == i + 1 && Cost(red, blue, blueCost, p) == v;
    var q := p[..i];
    assert u <= Cost(red, blue, blueCost, q);
  }

  // ---------------------------------------------------------------------
  // Where the greedy loop goes wrong.

  /** On red [1, 6, 9, 5], blue [5, 2, 3, 10] with `blueCost` 8, the loop
      prints 16 for the third station, although the route red, blue, blue
      costs 14: having chosen red at the second station it never considers
      staying on blue. */
  lemma GreedyMissesCheaperRoute()
    ensures MinCost([1, 6, 9, 5], [5, 2, 3, 10], 8).value[3] == 16
    ensures Cost([1, 6, 9, 5], [5, 2, 3, 10], 8, [false, true, true]) == 14
  {
    var red, blue := [1, 6, 9, 5], [5, 2, 3, 10];
    assert Run(red, blue, 8, 0) == Greedy(0, false, [0]);
    assert Run(red, blue, 8, 1) == Greedy(1, false, [0, 1]);
    assert Run(red, blue, 8, 2) == Greedy(7, false, [0, 1, 7]);
    assert Run(red, blue, 8, 3) == Greedy(16, false, [0, 1, 7, 16]);
    RunPrefix(red, blue, 8, 3, 4);
    assert [false, true, true][..2] == [false, true];
    assert [false, true][..1] == [false];
    assert [false][..0] == [];
  }

  /** On red [10, 1, 10], blue [1, 10, 1] with `blueCost` 8, the loop
      prints 11 for the third station, while every route costs at least
      19: it went
      back to red at the second station but kept `isOnBlue`, so the return
      to blue is not charged. */
  lemma GreedyUndercharges()
    ensures MinCost([10, 1, 10], [1, 10, 1], 8).value[3] == 11
    ensures forall p: seq<bool> :: |p| == 3 ==> Cost([10, 1, 10], [1, 10, 1], 8, p) >= 19
  {
    var red, blue := [10, 1, 10], [1, 10, 1];
    assert Run(red, blue, 8, 0) == Greedy(0, false, [0]);
    assert Run(red, blue, 8, 1) == Greedy(9, true, [0, 9]);
    assert Run(red, blue, 8, 2) == Greedy(10, true, [0, 9, 10]);
    assert Run(red, blue, 8, 3) == Greedy(11, true, [0, 9, 10, 11]);
    assert Best(red, blue, 8, 1) == (10, 9);
    assert Best(red, blue, 8, 2) == (10, 19);
    assert Best(red, blue, 8, 3) == (20, 19);
    forall p: seq<bool> | |p| == 3 ensures Cost(red, blue, 8, p) >= 19 {
      RouteAtLeastBest(red, blue, 8, p);
    }
  }
}
