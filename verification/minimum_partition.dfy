/** `minimumPartition` of leetcode/324_weekly_contest.py: cut a string of
    decimal digits into consecutive pieces whose values are at most `k`,
    greedily taking each piece as long as the next longer one still fits. The
    string is given as its digit values. */
module MinimumPartition {

  predicate Digits(d: seq<int>) {
    forall i :: 0 <= i < |d| ==> 0 <= d[i] <= 9
  }

  /** `int(...)` of a digit string. */
  function Value(d: seq<int>): int
    decreases |d|
  {
    if d == [] then 0 else Value(d[..|d| - 1]) * 10 + d[|d| - 1]
  }

  /** The piece of length `len` from `a` exists and has a value at most `k`. */
  predicate Fits(d: seq<int>, a: int, len: int, k: int) {
    0 <= a && 1 <= len && a + len <= |d| && Value(d[a..a + len]) <= k
  }

  /** The inner loop (lines 62-71) from length `len`: grow while one more
      digit is available and still fits. */
  function Grow(d: seq<int>, a: int, k: int, len: int): (r: int)
    requires 0 <= a && 1 <= len && a + len <= |d|
    ensures len <= r && a + r <= |d|
    decreases |d| - len
  {
    if a + len + 1 <= |d| && Value(d[a..a + len + 1]) <= k then Grow(d, a, k, len + 1) else len
  }

  /** The lengths of the pieces cut from position `a` on (lines 61-71). */
  function Pieces(d: seq<int>, a: int, k: int): (r: seq<int>)
    requires 0 <= a <= |d|
    decreases |d| - a
  {
    if a == |d| then [] else var len := Grow(d, a, k, 1); [len] + Pieces(d, a + len, k)
  }

  /** Lines 47-77: -1 when `k` is below 9 and some digit exceeds it,
      otherwise the number of greedy pieces. */
  method Partition(d: seq<int>, k: int) returns (result: int)
    requires Digits(d)
    ensures (k < 9 && exists i :: 0 <= i < |d| && d[i] > k) ==> result == -1
    ensures !(k < 9 && exists i :: 0 <= i < |d| && d[i] > k) ==> result == |Pieces(d, 0, k)|
  {
    if k < 9 {
      var i := 0;
      while i < |d|
        invariant 0 <= i <= |d|
        invariant forall j :: 0 <= j < i ==> d[j] <= k
      {
        if d[i] > k {
          return -1;
        }
        i := i + 1;
      }
    }
    var remaining := |d|;
    result := 0;
    var prevLength := 1;
    var start := 0;
    while remaining > 0
      invariant 0 <= start <= |d| && remaining == |d| - start && prevLength == 1
      invariant result + |Pieces(d, start, k)| == |Pieces(d, 0, k)|
    {
      while true
        invariant 1 <= prevLength <= remaining
        invariant Grow(d, start, k, prevLength) == Grow(d, start, k, 1)
        decreases remaining - prevLength
      {
        var currentLength := prevLength + 1;
        if currentLength > remaining || Value(d[start..start + currentLength]) > k {
          result := result + 1;
          remaining := remaining - prevLength;
          start := start + prevLength;
          prevLength := 1;
          break;
        }
        prevLength := currentLength;
      }
    }
    assert Pieces(d, start, k) == [];
  }

  /** `P` cuts `d` from position `a` into consecutive pieces that each fit. */
  predicate Partitions(d: seq<int>, a: int, p: seq<int>, k: int)
    decreases |p|
  {
    if p == [] then a == |d| else Fits(d, a, p[0], k) && Partitions(d, a + p[0], p[1..], k)
  }

  /** Every piece is maximal: the piece one digit longer is missing or does
      not fit. */
  predicate Maximal(d: seq<int>, a: int, p: seq<int>, k: int)
    decreases |p|
  {
    p == [] || (
      0 <= a && 1 <= p[0] && a + p[0] <= |d| &&
      (a + p[0] == |d| || Value(d[a..a + p[0] + 1]) > k) &&
      Maximal(d, a + p[0], p[1..], k))
  }

  lemma {:induction false} ValueNonneg(s: seq<int>)
    requires Digits(s)
    ensures Value(s) >= 0
    decreases |s|
  {
    if s != [] { ValueNonneg(s[..|s| - 1]); }
  }

  /** A longer piece from the same start has at least the value. */
  lemma {:induction false} ValuePrefix(s: seq<int>, m: int)
    requires Digits(s) && 0 <= m <= |s|
    ensures Value(s[..m]) <= Value(s)
    decreases |s| - m
  {
    if m < |s| {
      var t := s[..|s| - 1];
      assert t[..m] == s[..m];
      assert Digits(t);
      ValuePrefix(t, m);
      ValueNonneg(t);
      assert Value(s) == Value(t) * 10 + s[|s| - 1];
    } else {
      assert s[..m] == s;
    }
  }

  /** Dropping the leading digit does not increase the value. */
  lemma {:induction false} ValueDropFront(s: seq<int>)
    requires Digits(s) && |s| >= 1
    ensures Value(s[1..]) <= Value(s)
    decreases |s|
  {
    if |s| >= 2 {
      var t := s[..|s| - 1];
      ValueDropFront(t);
      assert s[1..][..|s[1..]| - 1] == t[1..];
    }
  }

  /** A piece ending at the same place but starting later has at most the
      value. */
  lemma {:induction false} ValueSuffix(s: seq<int>, m: int)
    requires Digits(s) && 0 <= m < |s|
    ensures Value(s[m..]) <= Value(s)
    decreases m
  {
    if m > 0 {
      ValueSuffix(s, m - 1);
      ValueDropFront(s[m - 1..]);
      assert s[m - 1..][1..] == s[m..];
    }
  }

  /** The greedy piece fits, cannot be extended, and is the longest piece
      from `a` that fits. */
  lemma {:induction false} GrowSpec(d: seq<int>, a: int, k: int, len: int)
    requires Digits(d) && Fits(d, a, len, k)
    ensures var g := Grow(d, a, k, len);
      Fits(d, a, g, k) && (a + g == |d| || Value(d[a..a + g + 1]) > k) &&
      forall m :: g < m && a + m <= |d| ==> !Fits(d, a, m, k)
    decreases |d| - len
  {
    var g := Grow(d, a, k, len);
    if a + len + 1 <= |d| && Value(d[a..a + len + 1]) <= k {
      GrowSpec(d, a, k, len + 1);
    } else {
      forall m | g < m && a + m <= |d| ensures !Fits(d, a, m, k) {
        ValuePrefix(d[a..a + m], len + 1);
        assert d[a..a + m][..len + 1] == d[a..a + len + 1];
      }
    }
  }

  /** With every digit at most `k`, the greedy pieces partition the digits
      into maximal fitting pieces. */
  lemma {:induction false} PiecesSpec(d: seq<int>, a: int, k: int)
    requires Digits(d) && 0 <= a <= |d|
    requires forall i :: 0 <= i < |d| ==> d[i] <= k
    ensures Partitions(d, a, Pieces(d, a, k), k)
    ensures Maximal(d, a, Pieces(d, a, k), k)
    decreases |d| - a
  {
    if a < |d| {
      assert Value(d[a..a + 1]) == d[a] by {
        assert d[a..a + 1][..0] == [];
      }
      GrowSpec(d, a, k, 1);
      PiecesSpec(d, a + Grow(d, a, k, 1), k);
    }
  }

  /** The first greedy piece from `a`: it fits and is the longest that
      does. */
  lemma FirstPiece(d: seq<int>, a: int, k: int)
    requires Digits(d) && 0 <= a < |d|
    requires forall i :: 0 <= i < |d| ==> d[i] <= k
    ensures var g := Grow(d, a, k, 1);
      Pieces(d, a, k) == [g] + Pieces(d, a + g, k) && Fits(d, a, g, k) &&
      forall m :: g < m && a + m <= |d| ==> !Fits(d, a, m, k)
  {
    assert Value(d[a..a + 1]) == d[a] by {
      assert d[a..a + 1][..0] == [];
    }
    GrowSpec(d, a, k, 1);
  }

  /** The tail of a fitting piece fits. */
  lemma SuffixFits(d: seq<int>, a: int, len: int, b: int, k: int)
    requires Digits(d) && Fits(d, a, len, k) && a <= b < a + len
    ensures Fits(d, b, a + len - b, k)
  {
    ValueSuffix(d[a..a + len], b - a);
    assert d[a..a + len][b - a..] == d[b..a + len];
  }

  /** Starting later never needs more greedy pieces. */
  lemma {:induction false} PiecesMonotone(d: seq<int>, a: int, b: int, k: int)
    requires Digits(d) && 0 <= a <= b <= |d|
    requires forall i :: 0 <= i < |d| ==> d[i] <= k
    ensures |Pieces(d, b, k)| <= |Pieces(d, a, k)|
    decreases |d| - a
  {
    if a < b && b < |d| {
      FirstPiece(d, a, k);
      var la := Grow(d, a, k, 1);
      if b < a + la {
        FirstPiece(d, b, k);
        var lb := Grow(d, b, k, 1);
        SuffixFits(d, a, la, b, k);
        PiecesMonotone(d, a + la, b + lb, k);
      } else {
        PiecesMonotone(d, a + la, b, k);
      }
    }
  }

  /** The greedy count is the minimum: no partition into fitting pieces has
      fewer pieces. */
  lemma {:induction false} PiecesOptimal(d: seq<int>, a: int, p: seq<int>, k: int)
    requires Digits(d) && 0 <= a <= |d|
    requires forall i :: 0 <= i < |d| ==> d[i] <= k
    requires Partitions(d, a, p, k)
    ensures |Pieces(d, a, k)| <= |p|
    decreases |p|
  {
    if p != [] {
      FirstPiece(d, a, k);
      var g := Grow(d, a, k, 1);
      PiecesOptimal(d, a + p[0], p[1..], k);
      PiecesMonotone(d, a + p[0], a + g, k);
    }
  }
}
