/** `longestPath` of leetcode/2246.py: the longest path in a tree, given by
    its parent array, on which no two adjacent nodes carry the same
    character. A depth-first walk returns, for each node, the longest chain
    going down from it, and records the best path through a node in `ans`,
    which the model threads through the calls. The recursion carries a fuel
    bound; running out of it stands for Python's recursion error on a
    parent array with a reachable cycle. Python's fixed recursion limit,
    which a very deep tree also reaches, is not modelled. */
module LongestPath {
  import opened Results

  /** Each parent value with the indices naming it, in the order added. */
  type Children = map<int, seq<int>>

  predicate Increasing(s: seq<int>) {
    forall a, b :: 0 <= a < b < |s| ==> s[a] < s[b]
  }

  /** The dictionary-building loop (lines 2-8) over the first `n` entries. */
  function ChildrenOf(parent: seq<int>, n: nat): (t: Children)
    requires n <= |parent|
  {
    if n == 0 then map[]
    else
      var t := ChildrenOf(parent, n - 1);
      var p := parent[n - 1];
      if p in t then t[p := t[p] + [n - 1]] else t[p := [n - 1]]
  }

  /** The children lists hold exactly, for each parent value, the indices
      whose parent it is, in increasing order. */
  lemma ChildrenSpec(parent: seq<int>, n: nat)
    requires n <= |parent|
    ensures var t := ChildrenOf(parent, n);
      (forall p :: p in t <==> exists i :: 0 <= i < n && parent[i] == p) &&
      (forall p, i :: p in t && 0 <= i < |t[p]| ==> 0 <= t[p][i] < n && parent[t[p][i]] == p) &&
      (forall i :: 0 <= i < n ==> parent[i] in t && i in t[parent[i]]) &&
      (forall p :: p in t ==> |t[p]| > 0 && Increasing(t[p]))
  {
    ChildrenMembers(parent, n);
    ChildrenComplete(parent, n);
    ChildrenSorted(parent, n);
  }

  /** Every index listed under `p` is below `n` and has parent `p`. */
  predicate Members(parent: seq<int>, t: Children, n: nat)
    requires n <= |parent|
  {
    forall p, i :: p in t && 0 <= i < |t[p]| ==> 0 <= t[p][i] < n && parent[t[p][i]] == p
  }

  lemma {:induction false} ChildrenMembers(parent: seq<int>, n: nat)
    requires n <= |parent|
    ensures Members(parent, ChildrenOf(parent, n), n)
  {
    if n > 0 {
      ChildrenMembers(parent, n - 1);
      var t := ChildrenOf(parent, n);
      var t0 := ChildrenOf(parent, n - 1);
      var p := parent[n - 1];
      assert t == if p in t0 then t0[p := t0[p] + [n - 1]] else t0[p := [n - 1]];
      forall q, i | q in t && 0 <= i < |t[q]| ensures 0 <= t[q][i] < n && parent[t[q][i]] == q {
        if q != p {
          assert t[q] == t0[q];
        } else if p !in t0 {
          assert t[q] == [n - 1];
        } else if i < |t0[q]| {
          assert t[q][i] == t0[q][i];
        }
      }
    }
  }

  lemma {:induction false} ChildrenComplete(parent: seq<int>, n: nat)
    requires n <= |parent|
    ensures var t := ChildrenOf(parent, n);
      (forall i :: 0 <= i < n ==> parent[i] in t && i in t[parent[i]]) &&
      forall p :: p in t ==> exists i :: 0 <= i < n && parent[i] == p
  {
    if n > 0 {
      ChildrenComplete(parent, n - 1);
    }
  }

  predicate AllSorted(t: Children) {
    forall p :: p in t ==> |t[p]| > 0 && Increasing(t[p])
  }

  lemma {:induction false} ChildrenSorted(parent: seq<int>, n: nat)
    requires n <= |parent|
    ensures AllSorted(ChildrenOf(parent, n))
  {
    if n > 0 {
      ChildrenSorted(parent, n - 1);
      ChildrenMembers(parent, n - 1);
      var t := ChildrenOf(parent, n);
      var t0 := ChildrenOf(parent, n - 1);
      var p := parent[n - 1];
      assert t == if p in t0 then t0[p := t0[p] + [n - 1]] else t0[p := [n - 1]];
      forall q | q in t ensures |t[q]| > 0 && Increasing(t[q]) {
        if q != p {
          assert t[q] == t0[q];
        } else if p !in t0 {
          assert t[q] == [n - 1];
        } else {
          assert t[q] == t0[q] + [n - 1];
          assert forall a :: 0 <= a < |t0[q]| ==> t0[q][a] < n - 1;
        }
      }
    }
  }

  /** Every listed child has a character. */
  predicate Fits(t: Children, s: string) {
    forall p :: p in t ==> forall i :: 0 <= i < |t[p]| ==> 0 <= t[p][i] < |s|
  }

  function Max3(a: int, b: int, c: int): int {
    if a >= b && a >= c then a else if b >= c then b else c
  }

  /** `dfs` (lines 12-34): a node without children answers 1 and leaves
      `ans` alone; otherwise its children are scanned. The result is the
      answer and the new `ans`. */
  function Dfs(t: Children, s: string, p: int, ans: int, fuel: nat): Option<(int, int)>
    requires Fits(t, s) && 0 <= p && (p in t ==> p < |s|)
    decreases fuel, 1, 0
  {
    if fuel == 0 then None
    else if p !in t then Some((1, ans))
    else Scan(t, s, p, 0, 0, 0, 0, ans, fuel)
  }

  /** The loop over the children of `p` (lines 21-29) from the `k`-th on,
      keeping the two longest chains below children whose character differs
      from that of `p`, and the answer of the child visited last; then
      lines 32-34. */
  function Scan(t: Children, s: string, p: int, k: nat, first: int, second: int, last: int,
                ans: int, fuel: nat): Option<(int, int)>
    requires Fits(t, s) && p in t && 0 <= p < |s| && k <= |t[p]| && fuel >= 1
    decreases fuel, 0, |t[p]| - k
  {
    if k == |t[p]| then Some((first + 1, Max3(first + second + 1, last, ans)))
    else
      var c := t[p][k];
      var r := Dfs(t, s, c, ans, fuel - 1);
      if r.None? then None
      else
        var (longest, ans') := r.value;
        if s[c] != s[p] then
          if longest > first then Scan(t, s, p, k + 1, longest, first, longest, ans', fuel)
          else if longest > second then Scan(t, s, p, k + 1, first, longest, longest, ans', fuel)
          else Scan(t, s, p, k + 1, first, second, longest, ans', fuel)
        else Scan(t, s, p, k + 1, first, second, longest, ans', fuel)
  }

  /** `longestPath` (lines 1-38): the walk from node 0 with `ans` at 1,
      and `n + 1` levels of fuel, as deep as a tree on `n` nodes goes. */
  function LongestPath(parent: seq<int>, s: string): Option<int>
    requires |parent| <= |s|
  {
    var t := ChildrenOf(parent, |parent|);
    ChildrenSpec(parent, |parent|);
    var r := Dfs(t, s, 0, 1, |parent| + 1);
    if r.None? then None else Some(r.value.1)
  }

  /** The reference: the longest chain going down from `p` whose adjacent
      characters differ, 1 for the node itself plus the longest such chain
      below a child with another character. */
  function Chain(t: Children, s: string, p: int, fuel: nat): Option<int>
    requires Fits(t, s) && 0 <= p && (p in t ==> p < |s|)
    decreases fuel, 1, 0
  {
    if fuel == 0 then None
    else if p !in t then Some(1)
    else
      var m := Below(t, s, p, 0, fuel);
      if m.None? then None else Some(m.value + 1)
  }

  /** The longest chain below the children of `p` from the `k`-th on whose
      character differs from that of `p`; 0 when there is none. */
  function Below(t: Children, s: string, p: int, k: nat, fuel: nat): Option<int>
    requires Fits(t, s) && p in t && 0 <= p < |s| && k <= |t[p]| && fuel >= 1
    decreases fuel, 0, |t[p]| - k
  {
    if k == |t[p]| then Some(0)
    else
      var c := t[p][k];
      var v := Chain(t, s, c, fuel - 1);
      var rest := Below(t, s, p, k + 1, fuel);
      if v.None? || rest.None? then None
      else if s[c] != s[p] && v.value > rest.value then v
      else rest
  }

  /** `dfs` answers the longest chain down from the node, runs out of fuel
      exactly when the reference does, and never lowers `ans`. */
  lemma {:induction false} DfsIsChain(t: Children, s: string, p: int, ans: int, fuel: nat)
    requires Fits(t, s) && 0 <= p && (p in t ==> p < |s|)
    ensures Dfs(t, s, p, ans, fuel).Some? <==> Chain(t, s, p, fuel).Some?
    ensures Dfs(t, s, p, ans, fuel).Some? ==>
      Dfs(t, s, p, ans, fuel).value.0 == Chain(t, s, p, fuel).value >= 1 &&
      Dfs(t, s, p, ans, fuel).value.1 >= ans
    decreases fuel, 1, 0
  {
    if fuel > 0 && p in t {
      ScanIsBelow(t, s, p, 0, 0, 0, 0, ans, fuel);
    }
  }

  lemma {:induction false} ScanIsBelow(t: Children, s: string, p: int, k: nat, first: int, second: int,
                                       last: int, ans: int, fuel: nat)
    requires Fits(t, s) && p in t && 0 <= p < |s| && k <= |t[p]| && fuel >= 1
    requires 0 <= second <= first
    ensures Scan(t, s, p, k, first, second, last, ans, fuel).Some? <==> Below(t, s, p, k, fuel).Some?
    ensures Scan(t, s, p, k, first, second, last, ans, fuel).Some? ==>
      var r := Scan(t, s, p, k, first, second, last, ans, fuel).value;
      var b := Below(t, s, p, k, fuel).value;
      r.0 == 1 + (if first >= b then first else b) && b >= 0 && r.1 >= ans
    decreases fuel, 0, |t[p]| - k
  {
    if k < |t[p]| {
      var c := t[p][k];
      assert 0 <= c < |s|;
      DfsIsChain(t, s, c, ans, fuel - 1);
      var r := Dfs(t, s, c, ans, fuel - 1);
      if r.Some? {
        var (longest, ans') := r.value;
        if s[c] != s[p] && longest > first {
          ScanIsBelow(t, s, p, k + 1, longest, first, longest, ans', fuel);
        } else if s[c] != s[p] && longest > second {
          ScanIsBelow(t, s, p, k + 1, first, longest, longest, ans', fuel);
        } else {
          ScanIsBelow(t, s, p, k + 1, first, second, longest, ans', fuel);
        }
      }
    }
  }

  function Max(a: int, b: int): int {
    if a >= b then a else b
  }

  /** The reference for a path bending at `p`: over the children of `p`
      from the `k`-th on whose character differs from that of `p`, the
      longest chain below one of them, and the longest two such chains
      together (a single chain counts with an empty second one); both 0
      when there is none. */
  function TopTwo(t: Children, s: string, p: int, k: nat, fuel: nat): (r: Option<(int, int)>)
    requires Fits(t, s) && p in t && 0 <= p < |s| && k <= |t[p]| && fuel >= 1
    ensures r.Some? ==> 0 <= r.value.0 <= r.value.1
    decreases |t[p]| - k
  {
    if k == |t[p]| then Some((0, 0))
    else
      var c := t[p][k];
      var v := Chain(t, s, c, fuel - 1);
      var rest := TopTwo(t, s, p, k + 1, fuel);
      if v.None? || rest.None? then None
      else if s[c] != s[p] then
        Some((Max(v.value, rest.value.0), Max(rest.value.1, v.value + rest.value.0)))
      else rest
  }

  /** The reference answer below `p`: the most nodes on a path of differing
      characters that bends at some node of the subtree of `p`, that is
      that node with the longest two chains below its children. */
  function Best(t: Children, s: string, p: int, fuel: nat): (r: Option<int>)
    requires Fits(t, s) && 0 <= p && (p in t ==> p < |s|)
    ensures r.Some? ==> r.value >= 1
    decreases fuel, 1, 0
  {
    if fuel == 0 then None
    else if p !in t then Some(1)
    else
      var bend := TopTwo(t, s, p, 0, fuel);
      var below := BestBelow(t, s, p, 0, fuel);
      if bend.None? || below.None? then None else Some(Max(bend.value.1 + 1, below.value))
  }

  /** The best of `Best` over the children of `p` from the `k`-th on; 0 when
      there is none. */
  function BestBelow(t: Children, s: string, p: int, k: nat, fuel: nat): (r: Option<int>)
    requires Fits(t, s) && p in t && 0 <= p < |s| && k <= |t[p]| && fuel >= 1
    ensures r.Some? ==> r.value >= 0
    decreases fuel, 0, |t[p]| - k
  {
    if k == |t[p]| then Some(0)
    else
      var b := Best(t, s, t[p][k], fuel - 1);
      var rest := BestBelow(t, s, p, k + 1, fuel);
      if b.None? || rest.None? then None else Some(Max(b.value, rest.value))
  }

  /** The longest single chain the bend reference keeps is the chain
      reference's. */
  lemma {:induction false} TopTwoSingle(t: Children, s: string, p: int, k: nat, fuel: nat)
    requires Fits(t, s) && p in t && 0 <= p < |s| && k <= |t[p]| && fuel >= 1
    ensures TopTwo(t, s, p, k, fuel).Some? <==> Below(t, s, p, k, fuel).Some?
    ensures TopTwo(t, s, p, k, fuel).Some? ==> TopTwo(t, s, p, k, fuel).value.0 == Below(t, s, p, k, fuel).value
    decreases |t[p]| - k
  {
    if k < |t[p]| {
      TopTwoSingle(t, s, p, k + 1, fuel);
    }
  }

  /** The chain down from a node is never longer than the best path in its
      subtree. */
  lemma ChainAtMostBest(t: Children, s: string, p: int, fuel: nat)
    requires Fits(t, s) && 0 <= p && (p in t ==> p < |s|)
    requires Chain(t, s, p, fuel).Some? && Best(t, s, p, fuel).Some?
    ensures Chain(t, s, p, fuel).value <= Best(t, s, p, fuel).value
  {
    if fuel > 0 && p in t {
      TopTwoSingle(t, s, p, 0, fuel);
    }
  }

  /** `dfs` from `p` leaves in `ans` exactly the larger of the old `ans`
      and the reference answer below `p`. */
  lemma {:induction false} DfsExact(t: Children, s: string, p: int, ans: int, fuel: nat)
    requires Fits(t, s) && 0 <= p && (p in t ==> p < |s|) && ans >= 1
    ensures Dfs(t, s, p, ans, fuel).Some? ==>
      Best(t, s, p, fuel).Some? &&
      Dfs(t, s, p, ans, fuel).value.1 == Max(ans, Best(t, s, p, fuel).value)
    decreases fuel, 1, 0, 0
  {
    if fuel > 0 && p in t {
      ScanExact(t, s, p, 0, 0, 0, 0, ans, fuel);
    }
  }

  /** The children loop from the `k`-th child on, whatever the two longest
      chains and the last chain seen so far: `ans` ends as the best of its
      old value, the best path below the children left, and the best bend at
      `p` that pairs the kept chains with those of the children left. */
  lemma {:induction false} ScanExact(t: Children, s: string, p: int, k: nat, first: int, second: int,
                                     last: int, ans: int, fuel: nat)
    requires Fits(t, s) && p in t && 0 <= p < |s| && k <= |t[p]| && fuel >= 1
    requires 0 <= second <= first && last <= ans && ans >= 1
    ensures Scan(t, s, p, k, first, second, last, ans, fuel).Some? ==>
      TopTwo(t, s, p, k, fuel).Some? && BestBelow(t, s, p, k, fuel).Some? &&
      var (single, pair) := TopTwo(t, s, p, k, fuel).value;
      Scan(t, s, p, k, first, second, last, ans, fuel).value.1 ==
        Max(ans, Max(BestBelow(t, s, p, k, fuel).value,
                     1 + Max(first + second, Max(first + single, pair))))
    decreases fuel, 0, |t[p]| - k, 1
  {
    if k == |t[p]| {
      hide Scan, TopTwo, BestBelow;
      ScanEnd(t, s, p, k, first, second, last, ans, fuel);
      EndArith(first, second, last, ans);
    } else {
      ScanExactStep(t, s, p, k, first, second, last, ans, fuel);
    }
  }

  /** `ScanExact` for one more child. */
  lemma {:induction false} ScanExactStep(t: Children, s: string, p: int, k: nat, first: int, second: int,
                                         last: int, ans: int, fuel: nat)
    requires Fits(t, s) && p in t && 0 <= p < |s| && k < |t[p]| && fuel >= 1
    requires 0 <= second <= first && last <= ans && ans >= 1
    ensures Scan(t, s, p, k, first, second, last, ans, fuel).Some? ==>
      TopTwo(t, s, p, k, fuel).Some? && BestBelow(t, s, p, k, fuel).Some? &&
      var (single, pair) := TopTwo(t, s, p, k, fuel).value;
      Scan(t, s, p, k, first, second, last, ans, fuel).value.1 ==
        Max(ans, Max(BestBelow(t, s, p, k, fuel).value,
                     1 + Max(first + second, Max(first + single, pair))))
    decreases fuel, 0, |t[p]| - k, 0
  {
    hide Scan, Dfs, TopTwo, Best, BestBelow, Chain, Below;
    var c := t[p][k];
    assert 0 <= c < |s|;
    DfsIsChain(t, s, c, ans, fuel - 1);
    DfsExact(t, s, c, ans, fuel - 1);
    var r := Dfs(t, s, c, ans, fuel - 1);
    ScanNext(t, s, p, k, first, second, last, ans, fuel);
    if r.Some? {
      var longest := r.value.0;
      var ans' := r.value.1;
      ChainAtMostBest(t, s, c, fuel - 1);
      var differs := s[c] != s[p];
      var (f, g) := if differs && longest > first then (longest, first)
                    else if differs && longest > second then (first, longest)
                    else (first, second);
      TopTwoNext(t, s, p, k, fuel);
      BestBelowNext(t, s, p, k, fuel);
      var top' := TopTwo(t, s, p, k + 1, fuel);
      var below' := BestBelow(t, s, p, k + 1, fuel);
      var bc := Best(t, s, c, fuel - 1);
      assert longest <= ans' && 0 <= g <= f;
      hide Max, Max3;
      ScanExact(t, s, p, k + 1, f, g, longest, ans', fuel);
      if Scan(t, s, p, k + 1, f, g, longest, ans', fuel).Some? {
        var (single, pair) := top'.value;
        var single0 := if differs then Max(longest, single) else single;
        var pair0 := if differs then Max(pair, longest + single) else pair;
        assert TopTwo(t, s, p, k, fuel) == Some((single0, pair0));
        assert BestBelow(t, s, p, k, fuel) == Some(Max(bc.value, below'.value));
        CombineStep(ans, bc.value, below'.value, first, second, longest, differs, f, g,
                    single, pair, single0, pair0);
        var now := Scan(t, s, p, k, first, second, last, ans, fuel).value.1;
        assert now == Max(Max(ans, bc.value), Max(below'.value, 1 + Max(f + g, Max(f + single, pair))));
        assert now == Max(ans, Max(Max(bc.value, below'.value), 1 + Max(first + second, Max(first + single0, pair0))));
        assert now == Max(ans, Max(BestBelow(t, s, p, k, fuel).value,
          1 + Max(first + second, Max(first + TopTwo(t, s, p, k, fuel).value.0, TopTwo(t, s, p, k, fuel).value.1))));
      }
    }
  }

  /** The arithmetic of one child in `ScanExact`: folding the child's chain
      `v` into the kept pair, and its best path into `ans`, leaves the
      overall best unchanged. */
  lemma CombineStep(ans: int, bc: int, below: int, first: int, second: int, v: int, differs: bool,
                    f: int, g: int, single: int, pair: int, single0: int, pair0: int)
    requires 0 <= second <= first && 0 <= single <= pair && v <= bc
    requires (f, g) == if differs && v > first then (v, first)
                       else if differs && v > second then (first, v)
                       else (first, second)
    requires single0 == (if differs then Max(v, single) else single)
    requires pair0 == (if differs then Max(pair, v + single) else pair)
    ensures Max(Max(ans, bc), Max(below, 1 + Max(f + g, Max(f + single, pair)))) ==
            Max(ans, Max(Max(bc, below), 1 + Max(first + second, Max(first + single0, pair0))))
  {
  }

  /** The arithmetic of the end of the loop, with no children left. */
  lemma EndArith(first: int, second: int, last: int, ans: int)
    requires 0 <= second <= first && last <= ans
    ensures Max3(first + second + 1, last, ans) == Max(ans, Max(0, 1 + Max(first + second, Max(first + 0, 0))))
  {
  }

  /** The end of the loop and of both references, with no children left. */
  lemma ScanEnd(t: Children, s: string, p: int, k: nat, first: int, second: int, last: int,
                ans: int, fuel: nat)
    requires Fits(t, s) && p in t && 0 <= p < |s| && k == |t[p]| && fuel >= 1
    ensures Scan(t, s, p, k, first, second, last, ans, fuel) == Some((first + 1, Max3(first + second + 1, last, ans)))
    ensures TopTwo(t, s, p, k, fuel) == Some((0, 0)) && BestBelow(t, s, p, k, fuel) == Some(0)
  {
  }

  /** One child of the loop: the scan goes on from the next child with the
      kept chains updated by the child's chain. */
  lemma ScanNext(t: Children, s: string, p: int, k: nat, first: int, second: int, last: int,
                 ans: int, fuel: nat)
    requires Fits(t, s) && p in t && 0 <= p < |s| && k < |t[p]| && fuel >= 1
    ensures Dfs(t, s, t[p][k], ans, fuel - 1).None? ==> Scan(t, s, p, k, first, second, last, ans, fuel).None?
    ensures Dfs(t, s, t[p][k], ans, fuel - 1).Some? ==>
      var c := t[p][k];
      var (longest, ans') := Dfs(t, s, c, ans, fuel - 1).value;
      var differs := s[c] != s[p];
      var (f, g) := if differs && longest > first then (longest, first)
                    else if differs && longest > second then (first, longest)
                    else (first, second);
      Scan(t, s, p, k, first, second, last, ans, fuel) == Scan(t, s, p, k + 1, f, g, longest, ans', fuel)
  {
  }

  /** One child of the bend reference. */
  lemma TopTwoNext(t: Children, s: string, p: int, k: nat, fuel: nat)
    requires Fits(t, s) && p in t && 0 <= p < |s| && k < |t[p]| && fuel >= 1
    ensures var c := t[p][k];
      var v := Chain(t, s, c, fuel - 1);
      var rest := TopTwo(t, s, p, k + 1, fuel);
      v.Some? && rest.Some? ==>
        TopTwo(t, s, p, k, fuel) ==
          if s[c] != s[p] then Some((Max(v.value, rest.value.0), Max(rest.value.1, v.value + rest.value.0)))
          else rest
  {
  }

  /** One child of the best-below reference. */
  lemma BestBelowNext(t: Children, s: string, p: int, k: nat, fuel: nat)
    requires Fits(t, s) && p in t && 0 <= p < |s| && k < |t[p]| && fuel >= 1
    ensures var b := Best(t, s, t[p][k], fuel - 1);
      var rest := BestBelow(t, s, p, k + 1, fuel);
      b.Some? && rest.Some? ==> BestBelow(t, s, p, k, fuel) == Some(Max(b.value, rest.value))
  {
  }

  /** The reference answer of the whole tree: the best bend over the
      subtree of node 0, with the fuel `longestPath` gives the walk. */
  function LongestBend(parent: seq<int>, s: string): (r: Option<int>)
    requires |parent| <= |s|
    ensures r.Some? ==> r.value >= 1
  {
    ChildrenSpec(parent, |parent|);
    Best(ChildrenOf(parent, |parent|), s, 0, |parent| + 1)
  }

  /** Whenever `longestPath` answers, it answers the reference. */
  lemma LongestPathIsBend(parent: seq<int>, s: string)
    requires |parent| <= |s|
    ensures LongestPath(parent, s).Some? ==> LongestPath(parent, s) == LongestBend(parent, s)
  {
    ChildrenSpec(parent, |parent|);
    DfsExact(ChildrenOf(parent, |parent|), s, 0, 1, |parent| + 1);
  }

  /** `parent` forms a tree rooted at node 0, as `depth` witnesses: node 0
      has no parent, and every other node has a parent in range exactly one
      level above it, so following parents always ends at node 0. */
  predicate IsTree(parent: seq<int>, depth: seq<nat>) {
    |parent| > 0 && |depth| == |parent| && parent[0] < 0 && depth[0] == 0 &&
    forall i :: 1 <= i < |parent| ==> 0 <= parent[i] < |parent| && depth[i] == depth[parent[i]] + 1
  }

  /** The nodes met following parents from `i` to node 0. */
  function Ancestors(parent: seq<int>, depth: seq<nat>, i: int): (a: set<int>)
    requires IsTree(parent, depth) && 0 <= i < |parent|
    ensures i in a && 0 in a
    decreases depth[i]
  {
    if i == 0 then {0} else {i} + Ancestors(parent, depth, parent[i])
  }

  lemma {:induction false} AncestorsCount(parent: seq<int>, depth: seq<nat>, i: int)
    requires IsTree(parent, depth) && 0 <= i < |parent|
    ensures |Ancestors(parent, depth, i)| == depth[i] + 1
    ensures forall a :: a in Ancestors(parent, depth, i) ==> 0 <= a < |parent| && depth[a] <= depth[i]
    decreases depth[i]
  {
    if i != 0 {
      AncestorsCount(parent, depth, parent[i]);
    }
  }

  /** A set of indices below `n` has at most `n` members. */
  lemma {:induction false} IndicesAtMost(a: set<int>, n: nat)
    requires forall x :: x in a ==> 0 <= x < n
    ensures |a| <= n
  {
    if n == 0 {
      assert a == {} by {
        forall x | x in a ensures false { }
      }
    } else {
      var b := a - {n - 1};
      IndicesAtMost(b, n - 1);
      assert a <= b + {n - 1};
      assert |b + {n - 1}| <= |b| + 1;
    }
  }

  /** No node of a tree lies as deep as the number of nodes. */
  lemma DepthBelowSize(parent: seq<int>, depth: seq<nat>, i: int)
    requires IsTree(parent, depth) && 0 <= i < |parent|
    ensures depth[i] < |parent|
  {
    AncestorsCount(parent, depth, i);
    IndicesAtMost(Ancestors(parent, depth, i), |parent|);
  }

  /** In the children lists of a tree, a fuel of the number of nodes less
      the depth of `p` is enough for the walk below `p`. */
  lemma {:induction false} TreeFuel(t: Children, s: string, parent: seq<int>, depth: seq<nat>, p: int, fuel: nat)
    requires IsTree(parent, depth) && Fits(t, s) && 0 <= p < |parent| && (p in t ==> p < |s|)
    requires forall q, i :: q in t && 0 <= i < |t[q]| ==> 0 <= t[q][i] < |parent| && parent[t[q][i]] == q
    requires fuel >= |parent| - depth[p]
    ensures Chain(t, s, p, fuel).Some?
    decreases fuel, 1, 0
  {
    DepthBelowSize(parent, depth, p);
    if p in t {
      TreeFuelBelow(t, s, parent, depth, p, 0, fuel);
    }
  }

  lemma {:induction false} TreeFuelBelow(t: Children, s: string, parent: seq<int>, depth: seq<nat>, p: int,
                                         k: nat, fuel: nat)
    requires IsTree(parent, depth) && Fits(t, s) && p in t && 0 <= p < |parent| && p < |s| && k <= |t[p]|
    requires forall q, i :: q in t && 0 <= i < |t[q]| ==> 0 <= t[q][i] < |parent| && parent[t[q][i]] == q
    requires fuel >= 1 && fuel >= |parent| - depth[p]
    ensures Below(t, s, p, k, fuel).Some?
    decreases fuel, 0, |t[p]| - k
  {
    if k < |t[p]| {
      var c := t[p][k];
      assert c != 0 by {
        assert parent[c] == p;
      }
      TreeFuel(t, s, parent, depth, c, fuel - 1);
      TreeFuelBelow(t, s, parent, depth, p, k + 1, fuel);
    }
  }

  /** On every parent array forming a tree rooted at node 0, `longestPath`
      answers, and its answer is the reference. */
  lemma LongestPathAnswers(parent: seq<int>, s: string, depth: seq<nat>)
    requires |parent| <= |s| && IsTree(parent, depth)
    ensures LongestPath(parent, s).Some? && LongestPath(parent, s) == LongestBend(parent, s)
  {
    var n := |parent|;
    var t := ChildrenOf(parent, n);
    ChildrenSpec(parent, n);
    TreeFuel(t, s, parent, depth, 0, n + 1);
    DfsIsChain(t, s, 0, 1, n + 1);
    LongestPathIsBend(parent, s);
  }

  /** The sample call (lines 40-42): the tree 0 - 1, 1 - 2, 2 - 3, 1 - 4
      labelled "aabcb" has the path 3 - 2 - 1 - 4 of four nodes. */
  lemma SampleCall()
    ensures LongestPath([-1, 0, 1, 2, 1], "aabcb") == Some(4)
  {
    var parent := [-1, 0, 1, 2, 1];
    var s := "aabcb";
    var t := map[-1 := [0], 0 := [1], 1 := [2, 4], 2 := [3]];
    assert ChildrenOf(parent, 1) == map[-1 := [0]];
    assert ChildrenOf(parent, 2) == map[-1 := [0], 0 := [1]];
    assert ChildrenOf(parent, 3) == map[-1 := [0], 0 := [1], 1 := [2]];
    assert ChildrenOf(parent, 4) == map[-1 := [0], 0 := [1], 1 := [2], 2 := [3]];
    assert [2] + [4] == [2, 4];
    assert ChildrenOf(parent, 5) == t;
    assert Dfs(t, s, 3, 1, 2) == Some((1, 1));
    assert Dfs(t, s, 2, 1, 3) == Some((2, 2));
    assert Dfs(t, s, 4, 2, 3) == Some((1, 2));
    assert Dfs(t, s, 1, 1, 4) == Some((3, 4));
    assert Dfs(t, s, 0, 1, 6) == Some((1, 4));
  }
}
