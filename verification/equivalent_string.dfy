/** `smallestEquivalentString` of leetcode/1061_lex.py: the pairs of two
    strings make letters equivalent, and each letter of a base string is
    replaced by the smallest letter equivalent to it. Letters are the
    indices 0 .. 25 (`ord(c) - 97`); the 26 x 26 matrix is the set of its
    cells holding 1. Any other character gives an index that Python's list
    indexing either wraps (-26 .. -1 reach the rows from the end) or refuses
    with an `IndexError`. The `visited` list is only ever appended to and
    asked for membership, so it is a set here. */
module EquivalentString {
  import opened Results

  datatype Error = IndexError

  type Matrix = set<(int, int)>

  const Letters: set<int> := set x | 0 <= x < 26

  function Idx(c: char): int {
    c as int - 97
  }

  /** Python accepts an index into a list of 26 from -26 up to 25. */
  predicate Indexable(c: char) {
    -26 <= Idx(c) < 26
  }

  /** The row or column an accepted index reaches. */
  function Wrap(c: char): (x: int)
    requires Indexable(c)
    ensures 0 <= x < 26 && (x == Idx(c) || x == Idx(c) + 26)
  {
    if Idx(c) < 0 then Idx(c) + 26 else Idx(c)
  }

  function Chr(x: int): char
    requires -26 <= x < 26
  {
    (x + 97) as char
  }

  /** Every marked cell lies in the matrix. */
  predicate InRange(m: Matrix) {
    forall e :: e in m ==> 0 <= e.0 < 26 && 0 <= e.1 < 26
  }

  predicate Symmetric(m: Matrix) {
    forall e :: e in m ==> (e.1, e.0) in m
  }

  /** Pair `i` can be written into the matrix: `s2[i]` exists and both
      characters give accepted indices. */
  predicate PairOk(s1: string, s2: string, i: int)
    requires 0 <= i < |s1|
  {
    i < |s2| && Indexable(s1[i]) && Indexable(s2[i])
  }

  /** The cells marked by the first `n` pairs (lines 24-28). */
  function Marks(s1: string, s2: string, n: nat): (m: Matrix)
    requires n <= |s1| && forall i :: 0 <= i < n ==> PairOk(s1, s2, i)
  {
    if n == 0 then {}
    else
      assert PairOk(s1, s2, n - 1);
      var e := Link(s1, s2, n - 1);
      Marks(s1, s2, n - 1) + {e, (e.1, e.0)}
  }

  /** The matrix-building loop (lines 21-28): it raises an `IndexError` on
      the first pair whose `s2[i]` is missing or whose characters lie
      outside the rows; otherwise the matrix is symmetric and within the
      letters. */
  function Build(s1: string, s2: string): (r: Result<Matrix, Error>)
    ensures r.Err? <==> exists i :: 0 <= i < |s1| && !PairOk(s1, s2, i)
    ensures r.Ok? ==> Symmetric(r.value) && InRange(r.value)
  {
    if exists i :: 0 <= i < |s1| && !PairOk(s1, s2, i) then Err(IndexError)
    else
      MarksSpec(s1, s2, |s1|);
      Ok(Marks(s1, s2, |s1|))
  }

  /** The matrix marks exactly the two directions of each pair, at the
      rows and columns the characters reach, so it is symmetric and stays
      within the letters. */
  lemma MarksSpec(s1: string, s2: string, n: nat)
    requires n <= |s1| && forall i :: 0 <= i < n ==> PairOk(s1, s2, i)
    ensures forall x, y :: (x, y) in Marks(s1, s2, n) <==>
      exists i :: 0 <= i < n && PairOk(s1, s2, i) && ((x, y) == Link(s1, s2, i) || (y, x) == Link(s1, s2, i))
    ensures Symmetric(Marks(s1, s2, n))
    ensures InRange(Marks(s1, s2, n))
  {
    MarksHas(s1, s2, n);
    var m := Marks(s1, s2, n);
    forall e | e in m ensures (e.1, e.0) in m && 0 <= e.0 < 26 && 0 <= e.1 < 26 {
      var x, y := e.0, e.1;
      assert (x, y) in m;
      var i :| 0 <= i < n && PairOk(s1, s2, i) && ((x, y) == Link(s1, s2, i) || (y, x) == Link(s1, s2, i));
    }
  }

  lemma {:induction false} MarksHas(s1: string, s2: string, n: nat)
    requires n <= |s1| && forall i :: 0 <= i < n ==> PairOk(s1, s2, i)
    ensures forall x, y :: (x, y) in Marks(s1, s2, n) <==>
      exists i :: 0 <= i < n && PairOk(s1, s2, i) && ((x, y) == Link(s1, s2, i) || (y, x) == Link(s1, s2, i))
  {
    if n > 0 {
      MarksHas(s1, s2, n - 1);
      assert PairOk(s1, s2, n - 1);
      var e := Link(s1, s2, n - 1);
      var prev := Marks(s1, s2, n - 1);
      assert Marks(s1, s2, n) == prev + {e, (e.1, e.0)};
      forall x, y | (x, y) in Marks(s1, s2, n)
        ensures exists i :: 0 <= i < n && PairOk(s1, s2, i) && ((x, y) == Link(s1, s2, i) || (y, x) == Link(s1, s2, i))
      {
        if (x, y) !in prev {
          assert (x, y) == e || (y, x) == e;
        }
      }
    }
  }

  /** The cell that pair `i` marks. */
  function Link(s1: string, s2: string, i: int): (int, int)
    requires 0 <= i < |s1| && PairOk(s1, s2, i)
  {
    (Wrap(s1[i]), Wrap(s2[i]))
  }

  /** A letter's stored minimum is a letter; a wrapped index stores
      itself. */
  predicate MemoInRange(memo: map<int, int>) {
    forall x :: x in memo ==> (0 <= x < 26 && 0 <= memo[x] < 26) || (-26 <= x < 0 && memo[x] == x)
  }

  /** The memoised `dfs` (lines 4-18). A stored minimum is answered at once
      and letter 0 answers itself; any other letter scans its row, visiting
      each linked letter not yet visited, and keeps the smallest answer. The
      result carries the visited set, which the calls share. */
  function Dfs(m: Matrix, memo: map<int, int>, c: int, visited: set<int>): (r: (int, set<int>))
    requires 0 <= c < 26 && visited <= Letters
    ensures visited <= r.1 <= Letters
    ensures MemoInRange(memo) ==> 0 <= r.0 < 26
    decreases |Letters - visited|, 1, 0
  {
    if c in memo then (memo[c], visited)
    else if c == 0 then (0, visited)
    else Scan(m, memo, c, 0, visited, c)
  }

  /** The `for` loop over the row of `c` (lines 11-16), from column `i` on,
      with the smallest answer so far. */
  function Scan(m: Matrix, memo: map<int, int>, c: int, i: int, visited: set<int>, least: int)
    : (r: (int, set<int>))
    requires 0 <= c < 26 && 0 <= i <= 26 && visited <= Letters
    ensures visited <= r.1 <= Letters
    ensures MemoInRange(memo) && 0 <= least < 26 ==> 0 <= r.0 < 26
    ensures MemoInRange(memo) && least < 0 ==> r.0 == least
    decreases |Letters - visited|, 0, 26 - i
  {
    if i == 26 then (least, visited)
    else if (c, i) in m && i !in visited then
      Fewer(visited, visited + {i});
      var (found, after) := Dfs(m, memo, i, visited + {i});
      Fewer(visited, after);
      Scan(m, memo, c, i + 1, after, if found < least then found else least)
    else Scan(m, memo, c, i + 1, visited, least)
  }

  lemma Fewer(v: set<int>, w: set<int>)
    requires v <= w <= Letters
    ensures |Letters - w| <= |Letters - v|
    ensures v < w ==> |Letters - w| < |Letters - v|
  {
    var a, b := Letters - v, Letters - w;
    assert b <= a;
    assert a == b + (a - b);
    assert b * (a - b) == {};
    if v < w {
      var x :| x in w && x !in v;
      assert x in a - b;
    }
  }

  /** A set of letters the links never leave. */
  ghost predicate Closed(m: Matrix, s: set<int>) {
    forall x, y :: (x, y) in m && x in s ==> y in s
  }

  /** `y` is equivalent to `x`: every closed set holding `x` holds `y`. */
  ghost predicate Equiv(m: Matrix, x: int, y: int) {
    forall s :: Closed(m, s) && x in s ==> y in s
  }

  /** `r` is the smallest letter equivalent to `x`. */
  ghost predicate Smallest(m: Matrix, x: int, r: int) {
    Equiv(m, x, r) && forall y :: 0 <= y < 26 && Equiv(m, x, y) ==> r <= y
  }

  /** Each stored minimum is the smallest letter equivalent to its key. */
  ghost predicate MemoOk(m: Matrix, memo: map<int, int>) {
    forall x :: x in memo && 0 <= x < 26 ==> Smallest(m, x, memo[x])
  }

  /** A path along the links from its first letter to its last. */
  predicate Path(m: Matrix, p: seq<int>) {
    |p| > 0 && forall k :: 0 <= k < |p| - 1 ==> (p[k], p[k + 1]) in m
  }

  /** Every letter a path reaches is equivalent to where it starts. */
  lemma {:induction false} PathEquiv(m: Matrix, p: seq<int>)
    requires Path(m, p)
    ensures Equiv(m, p[0], p[|p| - 1])
    decreases |p|
  {
    if |p| > 1 {
      var q := p[..|p| - 1];
      assert Path(m, q) by {
        forall k | 0 <= k < |q| - 1 ensures (q[k], q[k + 1]) in m {
          assert q[k] == p[k] && q[k + 1] == p[k + 1];
        }
      }
      PathEquiv(m, q);
      forall s | Closed(m, s) && p[0] in s ensures p[|p| - 1] in s {
        assert q[0] == p[0] && q[|q| - 1] == p[|p| - 2];
        var a, b := p[|p| - 2], p[|p| - 1];
        assert a in s;
        assert (a, b) in m;
      }
    }
  }

  /** With symmetric links equivalence is symmetric: the letters outside a
      closed set form a closed set too. */
  lemma EquivSymmetric(m: Matrix, x: int, y: int)
    requires Symmetric(m) && InRange(m) && 0 <= x < 26 && Equiv(m, x, y)
    ensures Equiv(m, y, x)
  {
    forall s | Closed(m, s) && y in s ensures x in s {
      var t := Letters - s;
      assert Closed(m, t) by {
        forall a, b | (a, b) in m && a in t ensures b in t {
          assert (b, a) in m;
        }
      }
      assert x in t ==> y in t;
    }
  }

  /** A letter equivalent to another is a letter: the letters form a
      closed set. */
  lemma EquivLetter(m: Matrix, x: int, y: int)
    requires InRange(m) && Equiv(m, x, y) && 0 <= x < 26
    ensures 0 <= y < 26
  {
    assert Closed(m, Letters);
  }

  /** Linked letters have the same equivalent letters. */
  lemma SameClass(m: Matrix, x: int, y: int)
    requires Symmetric(m) && InRange(m) && (x, y) in m
    ensures forall z :: Equiv(m, x, z) <==> Equiv(m, y, z)
  {
    assert Equiv(m, x, y);
    EquivSymmetric(m, x, y);
    forall z ensures Equiv(m, x, z) <==> Equiv(m, y, z) {
      if Equiv(m, x, z) {
        forall s | Closed(m, s) && y in s ensures z in s { assert x in s; }
      }
      if Equiv(m, y, z) {
        forall s | Closed(m, s) && x in s ensures z in s { assert y in s; }
      }
    }
  }

  /** What a call from `c` with visited set `v` achieves: its answer is
      equivalent to `c` and at most `c`; and either it is already the
      smallest, or every letter entered since (and `c`) has all its links
      inside the final visited set and is at least the answer. */
  ghost predicate Achieves(m: Matrix, c: int, v: set<int>, r: (int, set<int>)) {
    Equiv(m, c, r.0) && 0 <= r.0 <= c &&
    (Smallest(m, c, r.0) ||
     forall x :: x in (r.1 - v) + {c} ==> r.0 <= x && forall y :: (x, y) in m ==> y in r.1)
  }

  /** The scan of row `c` from column `i`, begun when the visited set was
      `v0`: `least` so far is equivalent to `c` and, unless already the
      smallest, bounds the letters entered so far, whose links are all
      visited, as are the links of `c` before column `i`. */
  ghost predicate ScanSoFar(m: Matrix, c: int, v0: set<int>, i: int, v: set<int>, least: int) {
    Equiv(m, c, least) && 0 <= least <= c && v0 <= v &&
    (Smallest(m, c, least) ||
     ((forall y :: 0 <= y < i && (c, y) in m ==> y in v) &&
      forall x :: x in v - v0 ==> least <= x && forall y :: (x, y) in m ==> y in v))
  }

  lemma {:induction false} DfsSpec(m: Matrix, memo: map<int, int>, c: int, v: set<int>)
    requires Symmetric(m) && InRange(m) && MemoOk(m, memo)
    requires 0 <= c < 26 && v <= Letters
    ensures Achieves(m, c, v, Dfs(m, memo, c, v))
    decreases |Letters - v|, 1, 0, 0
  {
    if c in memo {
      assert Smallest(m, c, memo[c]);
      EquivLetter(m, c, memo[c]);
      assert memo[c] <= c by { assert Equiv(m, c, c); }
    } else if c == 0 {
      assert Equiv(m, c, c);
    } else {
      assert Equiv(m, c, c);
      ScanSpec(m, memo, c, v, 0, v, c);
    }
  }

  lemma {:induction false} ScanSpec(m: Matrix, memo: map<int, int>, c: int, v0: set<int>, i: int,
                                    v: set<int>, least: int)
    requires Symmetric(m) && InRange(m) && MemoOk(m, memo)
    requires 0 <= c < 26 && 0 <= i <= 26 && v <= Letters
    requires ScanSoFar(m, c, v0, i, v, least)
    ensures Achieves(m, c, v0, Scan(m, memo, c, i, v, least))
    decreases |Letters - v|, 0, 26 - i, 1
  {
    if i == 26 {
      ScanEnd(m, c, v0, v, least);
    } else if (c, i) in m && i !in v {
      ScanVisit(m, memo, c, v0, i, v, least);
    } else {
      ScanSpec(m, memo, c, v0, i + 1, v, least);
    }
  }

  /** The step of the scan that visits the linked letter `i`. */
  lemma {:induction false} ScanVisit(m: Matrix, memo: map<int, int>, c: int, v0: set<int>, i: int,
                                     v: set<int>, least: int)
    requires Symmetric(m) && InRange(m) && MemoOk(m, memo)
    requires 0 <= c < 26 && 0 <= i < 26 && v <= Letters && (c, i) in m && i !in v
    requires ScanSoFar(m, c, v0, i, v, least)
    ensures Achieves(m, c, v0, Scan(m, memo, c, i, v, least))
    decreases |Letters - v|, 0, 26 - i, 0
  {
    hide Symmetric, InRange, MemoOk, ScanSoFar, Achieves, Dfs;
    Fewer(v, v + {i});
    var d := Dfs(m, memo, i, v + {i});
    DfsSpec(m, memo, i, v + {i});
    Fewer(v, d.1);
    ScanChild(m, c, v0, i, v, least, d.0, d.1);
    var least' := if d.0 < least then d.0 else least;
    assert Scan(m, memo, c, i, v, least) == Scan(m, memo, c, i + 1, d.1, least');
    ScanSpec(m, memo, c, v0, i + 1, d.1, least');
  }

  /** At the end of the row every link of `c` is visited. */
  lemma ScanEnd(m: Matrix, c: int, v0: set<int>, v: set<int>, least: int)
    requires InRange(m) && ScanSoFar(m, c, v0, 26, v, least)
    ensures Achieves(m, c, v0, (least, v))
  {
    if !Smallest(m, c, least) {
      forall x | x in (v - v0) + {c} ensures least <= x && forall y :: (x, y) in m ==> y in v {
        if x == c {
          forall y | (x, y) in m ensures y in v { assert 0 <= y < 26; }
        }
      }
    }
  }

  /** Visiting the linked letter `i` and taking the smaller answer keeps
      the scan's progress. */
  lemma ScanChild(m: Matrix, c: int, v0: set<int>, i: int, v: set<int>, least: int,
                  found: int, after: set<int>)
    requires Symmetric(m) && InRange(m) && 0 <= c < 26 && 0 <= i < 26
    requires ScanSoFar(m, c, v0, i, v, least)
    requires (c, i) in m && i !in v && v + {i} <= after
    requires Achieves(m, i, v + {i}, (found, after))
    ensures ScanSoFar(m, c, v0, i + 1, after, if found < least then found else least)
  {
    var least' := if found < least then found else least;
    SameClass(m, c, i);
    assert Equiv(m, c, found);
    if Smallest(m, c, least) {
      assert least <= found;
    } else if Smallest(m, i, found) {
      assert Smallest(m, c, found);
    } else {
      assert forall x :: x in (after - (v + {i})) + {i} ==>
        found <= x && forall y :: (x, y) in m ==> y in after;
      assert forall x :: x in v - v0 ==> least <= x && forall y :: (x, y) in m ==> y in v;
      forall x | x in after - v0 ensures least' <= x && forall y :: (x, y) in m ==> y in after {
        if x in v {
          assert x in v - v0;
        } else {
          assert x in (after - (v + {i})) + {i};
        }
      }
    }
  }

  /** The top-level call from an empty visited list answers the smallest
      letter equivalent to `c`. */
  lemma TopLevel(m: Matrix, memo: map<int, int>, c: int)
    requires Symmetric(m) && InRange(m) && MemoOk(m, memo) && 0 <= c < 26
    ensures Smallest(m, c, Dfs(m, memo, c, {}).0)
  {
    var r := Dfs(m, memo, c, {});
    DfsSpec(m, memo, c, {});
    if !Smallest(m, c, r.0) {
      var s := r.1 + {c};
      assert (r.1 - {}) + {c} == s;
      assert Closed(m, s);
      forall y | 0 <= y < 26 && Equiv(m, c, y) ensures r.0 <= y {
        assert y in s;
      }
    }
  }

  /** The top-level call `dfs(ord(char) - 97, minOfGroup, [])` (line 34)
      for any character. A letter runs `dfs`. Any other index is first
      looked up in the memo; an index from -26 to -1 then scans the row it
      wraps to, starting from the index itself, which every letter found
      exceeds; an index beyond that raises at `matrix[char]`. */
  function Lookup(m: Matrix, memo: map<int, int>, x: int): (r: Result<int, Error>)
    requires MemoInRange(memo)
    ensures r.Err? <==> !(-26 <= x < 26)
    ensures r.Ok? && x < 0 ==> r.value == x
    ensures r.Ok? && 0 <= x ==> 0 <= r.value < 26
  {
    if 0 <= x < 26 then Ok(Dfs(m, memo, x, {}).0)
    else if x in memo then Ok(memo[x])
    else if -26 <= x < 0 then Ok(Scan(m, memo, x + 26, 0, {}, x).0)
    else Err(IndexError)
  }

  /** The main loop over `baseStr` (lines 31-37): each character's answer
      is stored in the memo before the next character is looked up; the
      first character outside the rows raises. */
  function Translate(m: Matrix, memo: map<int, int>, base: string): (r: Result<string, Error>)
    requires MemoInRange(memo)
    ensures r.Err? <==> exists k :: 0 <= k < |base| && !Indexable(base[k])
    ensures r.Ok? ==> |r.value| == |base|
    decreases |base|
  {
    if base == [] then Ok([])
    else
      var c := Idx(base[0]);
      var least :- Lookup(m, memo, c);
      var rest :- Translate(m, memo[c := least], base[1..]);
      assert forall k :: 1 <= k < |base| ==> base[k] == base[1..][k - 1];
      Ok([Chr(least)] + rest)
  }

  /** `smallestEquivalentString` (lines 1-41): an `IndexError` while
      building the matrix or while translating, otherwise one character
      per character of `baseStr`. */
  function SmallestEquivalentString(s1: string, s2: string, base: string): (r: Result<string, Error>)
    ensures r.Err? <==>
      (exists i :: 0 <= i < |s1| && !PairOk(s1, s2, i)) || (exists k :: 0 <= k < |base| && !Indexable(base[k]))
    ensures r.Ok? ==> |r.value| == |base|
  {
    var m :- Build(s1, s2);
    Translate(m, map[], base)
  }

  /** With a correct memo, every letter is replaced by the smallest letter
      equivalent to it, which is never larger, and every wrapped index by
      itself; the memo stays correct. */
  lemma {:induction false} TranslateSpec(m: Matrix, memo: map<int, int>, base: string)
    requires Symmetric(m) && InRange(m) && MemoOk(m, memo) && MemoInRange(memo)
    requires forall k :: 0 <= k < |base| ==> Indexable(base[k])
    ensures Translate(m, memo, base).Ok?
    ensures var r := Translate(m, memo, base).value;
      forall k :: 0 <= k < |base| ==>
        if Idx(base[k]) < 0 then r[k] == base[k]
        else 'a' <= r[k] <= base[k] && Smallest(m, Idx(base[k]), Idx(r[k]))
    decreases |base|
  {
    if base != [] {
      var c := Idx(base[0]);
      HeadSpec(m, memo, base[0]);
      var least := Lookup(m, memo, c).value;
      var memo' := memo[c := least];
      var tail := base[1..];
      forall j | 0 <= j < |tail| ensures Indexable(tail[j]) {
        assert tail[j] == base[j + 1];
      }
      TranslateCons(m, memo, base);
      hide *;
      TranslateSpec(m, memo', tail);
      var rest := Translate(m, memo', tail).value;
      var r := Translate(m, memo, base).value;
      assert r == [Chr(least)] + rest;
      forall k | 0 < k < |base|
        ensures if Idx(base[k]) < 0 then r[k] == base[k]
                else 'a' <= r[k] <= base[k] && Smallest(m, Idx(base[k]), Idx(r[k]))
      {
        assert base[k] == tail[k - 1];
        assert r[k] == rest[k - 1];
      }
    }
  }

  /** One character through the loop: a letter gets the smallest letter
      equivalent to it, a wrapped index itself, and the memo stays
      correct. */
  lemma HeadSpec(m: Matrix, memo: map<int, int>, ch: char)
    requires Symmetric(m) && InRange(m) && MemoOk(m, memo) && MemoInRange(memo) && Indexable(ch)
    ensures Lookup(m, memo, Idx(ch)).Ok?
    ensures var least := Lookup(m, memo, Idx(ch)).value;
      && -26 <= least < 26
      && (Idx(ch) < 0 ==> Chr(least) == ch)
      && (0 <= Idx(ch) ==> 'a' <= Chr(least) <= ch && Smallest(m, Idx(ch), Idx(Chr(least))))
      && MemoOk(m, memo[Idx(ch) := least]) && MemoInRange(memo[Idx(ch) := least])
  {
    var c := Idx(ch);
    var least := Lookup(m, memo, c).value;
    assert Idx(Chr(least)) == least;
    if 0 <= c {
      TopLevel(m, memo, c);
      assert Equiv(m, c, c);
    }
  }

  /** The loop takes the first character, then the rest with the memo
      extended. */
  lemma TranslateCons(m: Matrix, memo: map<int, int>, base: string)
    requires MemoInRange(memo) && base != [] && Indexable(base[0])
    ensures var c := Idx(base[0]);
      Lookup(m, memo, c).Ok? &&
      var least := Lookup(m, memo, c).value;
      MemoInRange(memo[c := least]) &&
      (Translate(m, memo[c := least], base[1..]).Ok? ==>
       Translate(m, memo, base) == Ok([Chr(least)] + Translate(m, memo[c := least], base[1..]).value))
  {
  }

  /** When every pair and every character of `baseStr` is accepted, each
      letter becomes the smallest letter equivalent to it under the pairs,
      no larger than every letter a chain of pairs leads to, and each
      wrapped character stays as it is. */
  lemma SmallestEquivalentStringSpec(s1: string, s2: string, base: string)
    requires forall i :: 0 <= i < |s1| ==> PairOk(s1, s2, i)
    requires forall k :: 0 <= k < |base| ==> Indexable(base[k])
    ensures var r := SmallestEquivalentString(s1, s2, base);
      r.Ok? && |r.value| == |base| &&
      forall k :: 0 <= k < |base| ==>
        if Idx(base[k]) < 0 then r.value[k] == base[k]
        else
          r.value[k] <= base[k] && Smallest(Marks(s1, s2, |s1|), Idx(base[k]), Idx(r.value[k])) &&
          forall p :: Path(Marks(s1, s2, |s1|), p) && p[0] == Idx(base[k]) ==> Idx(r.value[k]) <= p[|p| - 1]
  {
    var m := Marks(s1, s2, |s1|);
    MarksSpec(s1, s2, |s1|);
    assert Build(s1, s2) == Ok(m);
    TranslateSpec(m, map[], base);
    var r := Translate(m, map[], base).value;
    forall k, p | 0 <= k < |base| && 0 <= Idx(base[k]) && Path(m, p) && p[0] == Idx(base[k])
      ensures Idx(r[k]) <= p[|p| - 1]
    {
      PathEquiv(m, p);
      assert 0 <= p[|p| - 1] < 26 by {
        if |p| > 1 { assert (p[|p| - 2], p[|p| - 1]) in m; }
      }
    }
  }

  /** A backquote in `s1` wraps to row 25, so pairing it with `a` makes `z`
      equivalent to `a`; the backquote in `baseStr` stays as it is. */
  lemma WrappedPair(s1: string, s2: string, base: string)
    requires s1 == "`" && s2 == "a" && base == "z`"
    ensures SmallestEquivalentString(s1, s2, base) == Ok("a`")
  {
    assert PairOk(s1, s2, 0);
    assert Indexable(base[0]) && Indexable(base[1]);
    SmallestEquivalentStringSpec(s1, s2, base);
    var m := Marks(s1, s2, 1);
    var r := SmallestEquivalentString(s1, s2, base).value;
    assert Link(s1, s2, 0) == (25, 0);
    assert (25, 0) in m;
    PathEquiv(m, [25, 0]);
    assert Idx(r[0]) <= 0;
    assert r == "a`";
  }
}
