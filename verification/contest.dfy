/** `distinctPrimeFactors` and `closestPrimes` of
    leetcode/324_weekly_contest.py. */
module WeeklyContest {
  import opened Results
  import opened Primes
  import Sieve

  datatype Error = ValueError

  function Max(xs: seq<int>): (r: int)
    requires |xs| > 0
    ensures r in xs && forall i :: 0 <= i < |xs| ==> xs[i] <= r
    decreases |xs|
  {
    if |xs| == 1 then xs[0]
    else var m := Max(xs[1..]); if xs[0] >= m then xs[0] else m
  }

  function Product(xs: seq<int>): int
    decreases |xs|
  {
    if xs == [] then 1 else xs[0] * Product(xs[1..])
  }

  /** The trial division of lines 18-23: no number from 2 below `k` divides
      it. */
  method IsPrimeTrial(k: int) returns (b: bool)
    requires k >= 2
    ensures b <==> Prime(k)
  {
    var i := 2;
    while i < k
      invariant 2 <= i <= k
      invariant forall d :: 2 <= d < i ==> k % d != 0
    {
      if k % i == 0 {
        return false;
      }
      i := i + 1;
    }
    return true;
  }

  /** The loop of lines 12-25: 2 and 3 are taken at once, every other
      candidate after trial division. */
  method TrialPrimes(m: int) returns (ps: seq<int>)
    ensures Increasing(ps)
    ensures forall i :: 0 <= i < |ps| ==> Prime(ps[i]) && ps[i] <= m
    ensures forall q :: 2 <= q <= m && Prime(q) ==> q in ps
  {
    ps := [];
    var k := 2;
    while k <= m
      invariant 2 <= k <= if m >= 2 then m + 1 else 2
      invariant Increasing(ps)
      invariant forall i :: 0 <= i < |ps| ==> Prime(ps[i]) && ps[i] < k
      invariant forall q :: 2 <= q < k && Prime(q) ==> q in ps
    {
      if k == 2 || k == 3 {
        assert Prime(k);
        ps := ps + [k];
      } else {
        var isPrime := IsPrimeTrial(k);
        if isPrime {
          ps := ps + [k];
        }
      }
      k := k + 1;
    }
  }

  /** The primes from the list that divide `product`. */
  ghost function Dividing(ps: seq<int>, product: int): set<int> {
    set p | p in ps && p != 0 && product % p == 0
  }

  /** `distinctPrimeFactors` (lines 6-41): the number of primes up to the
      largest element that divide the product of all elements; `max` of an
      empty list raises. */
  method DistinctPrimeFactors(nums: seq<int>) returns (r: Result<int, Error>)
    ensures r.Err? <==> nums == []
    ensures r.Ok? ==> r.value == |set p | 2 <= p <= Max(nums) && Prime(p) && Product(nums) % p == 0|
  {
    if nums == [] {
      return Err(ValueError);
    }
    var m := Max(nums);
    var ps := TrialPrimes(m);
    var product := Product(nums);
    var result := 0;
    var i := 0;
    while i < |ps|
      invariant 0 <= i <= |ps|
      invariant result == |Dividing(ps[..i], product)|
    {
      DividingSnoc(ps, i, product);
      if product % ps[i] == 0 {
        result := result + 1;
      }
      i := i + 1;
    }
    assert ps[..i] == ps;
    DividingAll(ps, m, product);
    return Ok(result);
  }

  lemma DividingSnoc(ps: seq<int>, i: int, product: int)
    requires Increasing(ps) && 0 <= i < |ps| && ps[i] != 0
    ensures |Dividing(ps[..i + 1], product)| ==
      |Dividing(ps[..i], product)| + if product % ps[i] == 0 then 1 else 0
  {
    assert ps[..i + 1] == ps[..i] + [ps[i]];
    assert ps[i] !in ps[..i];
    if product % ps[i] == 0 {
      assert Dividing(ps[..i + 1], product) == Dividing(ps[..i], product) + {ps[i]};
    } else {
      assert Dividing(ps[..i + 1], product) == Dividing(ps[..i], product);
    }
  }

  lemma DividingAll(ps: seq<int>, m: int, product: int)
    requires forall i :: 0 <= i < |ps| ==> Prime(ps[i]) && ps[i] <= m
    requires forall q :: 2 <= q <= m && Prime(q) ==> q in ps
    ensures Dividing(ps, product) == set p | 2 <= p <= m && Prime(p) && product % p == 0
  {
  }

  /** The primes from `lo` to `hi` in increasing order: the reference for
      `closestPrimes`. */
  function PrimesBetween(lo: int, hi: int): (r: seq<int>)
    decreases hi - lo
  {
    if hi < lo then [] else PrimesBetween(lo, hi - 1) + (if Prime(hi) then [hi] else [])
  }

  lemma {:induction false} PrimesBetweenSpec(lo: int, hi: int)
    ensures Increasing(PrimesBetween(lo, hi))
    ensures forall x :: x in PrimesBetween(lo, hi) <==> lo <= x <= hi && Prime(x)
    decreases hi - lo
  {
    if hi >= lo {
      PrimesBetweenSpec(lo, hi - 1);
      var p := PrimesBetween(lo, hi - 1);
      forall i | 0 <= i < |p| ensures p[i] < hi {
        assert p[i] in p;
      }
    }
  }

  /** Two increasing sequences with the same elements are equal. */
  lemma {:induction false} IncreasingUnique(a: seq<int>, b: seq<int>)
    requires Increasing(a) && Increasing(b)
    requires forall x :: x in a <==> x in b
    ensures a == b
    decreases |a|
  {
    assert |b| == 0 || b[0] in b;
    if a != [] {
      assert a[0] in a;
      assert a[0] in b;
      assert b[0] in a;
      assert a[0] == b[0];
      forall x ensures x in a[1..] <==> x in b[1..] {
        assert x in a[1..] <==> x in a && x != a[0];
        assert x in b[1..] <==> x in b && x != b[0];
      }
      IncreasingUnique(a[1..], b[1..]);
      assert a == [a[0]] + a[1..];
      assert b == [b[0]] + b[1..];
    }
  }

  /** The gap between the `i`-th prime of the list and the next. */
  function Gap(q: seq<int>, i: int): int
    requires 0 <= i < |q| - 1
  {
    q[i + 1] - q[i]
  }

  /** The pair at `i` has the smallest gap, and every earlier pair a larger
      one. */
  predicate FirstClosest(q: seq<int>, i: int)
    requires 0 <= i < |q| - 1
  {
    (forall k :: 0 <= k < |q| - 1 ==> Gap(q, k) >= Gap(q, i)) &&
    (forall k :: 0 <= k < i ==> Gap(q, k) > Gap(q, i))
  }

  /** `closestPrimes` (lines 97-118): the primes up to `right` from the sieve
      without the early exit, those from `left` on kept; fewer than two give
      [-1, -1]. Otherwise the first adjacent pair with the smallest gap below
      the initial bound 1e6 is returned, and [] when no gap is below it. */
  method ClosestPrimes(left: int, right: int) returns (result: seq<int>)
    ensures var q := PrimesBetween(left, right);
      (|q| < 2 ==> result == [-1, -1]) &&
      (|q| >= 2 ==> (result == [] <==> forall k :: 0 <= k < |q| - 1 ==> Gap(q, k) >= 1000000)) &&
      (|q| >= 2 && result != [] ==>
        exists i :: 0 <= i < |q| - 1 && result == q[i..i + 2] && FirstClosest(q, i))
  {
    var primes := Sieve.EulerFlagPrime(right, false);
    var q := KeepFrom(primes, left);
    PrimesBetweenSpec(left, right);
    IncreasingUnique(q, PrimesBetween(left, right));
    if |q| < 2 {
      return [-1, -1];
    }
    result := ClosestPair(q);
  }

  /** Lines 103-106: the primes from `left` on, in order. */
  method KeepFrom(primes: seq<int>, left: int) returns (q: seq<int>)
    requires Increasing(primes)
    ensures Increasing(q)
    ensures forall x :: x in q <==> x in primes && left <= x
  {
    q := [];
    var j := 0;
    while j < |primes|
      invariant 0 <= j <= |primes|
      invariant Increasing(q)
      invariant forall x :: x in q <==> x in primes[..j] && left <= x
      invariant j < |primes| ==> forall i :: 0 <= i < |q| ==> q[i] < primes[j]
    {
      assert primes[..j + 1] == primes[..j] + [primes[j]];
      if left <= primes[j] {
        q := q + [primes[j]];
      }
      j := j + 1;
    }
    assert primes[..j] == primes;
  }

  /** Lines 110-118: the first adjacent pair whose gap is smaller than every
      gap before it and than 1e6, kept as the running answer. */
  method ClosestPair(q: seq<int>) returns (result: seq<int>)
    requires |q| >= 2
    ensures result == [] <==> forall k :: 0 <= k < |q| - 1 ==> Gap(q, k) >= 1000000
    ensures result != [] ==> exists i :: 0 <= i < |q| - 1 && result == q[i..i + 2] && FirstClosest(q, i)
  {
    var smallest := 1000000;
    result := [];
    ghost var best := -1;
    var i := 0;
    while i < |q| - 1
      invariant 0 <= i <= |q| - 1
      invariant result == [] <==> best == -1
      invariant best == -1 ==> smallest == 1000000 && forall k :: 0 <= k < i ==> Gap(q, k) >= 1000000
      invariant best != -1 ==> 0 <= best < i && result == q[best..best + 2] && smallest == Gap(q, best)
      invariant best != -1 ==> forall k :: 0 <= k < i ==> Gap(q, k) >= smallest
      invariant best != -1 ==> forall k :: 0 <= k < best ==> Gap(q, k) > smallest
      invariant best != -1 ==> smallest < 1000000
    {
      var diff := q[i + 1] - q[i];
      if diff < smallest {
        smallest := diff;
        result := q[i..i + 2];
        best := i;
      }
      i := i + 1;
    }
    if best != -1 {
      assert FirstClosest(q, best);
    }
  }
}
