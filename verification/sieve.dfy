/** The Euler (linear) sieve: `euler_flag_prime` of
    leetcode/euler_prime_flag.py, and `euler_prime_flag` of
    leetcode/324_weekly_contest.py, which is the same loop without the
    early exit once the prime divides `num`. */
module Sieve {
  import opened Primes

  /** `num * p` is within range and flagged. */
  ghost predicate Flagged(flag: seq<bool>, n: int, num: int, p: int) {
    0 <= num * p < |flag| && num * p <= n && flag[num * p]
  }

  /** Every prime up to `bound` whose product with `num` is within range
      has had that product flagged. */
  ghost predicate MarkedBelow(flag: seq<bool>, n: int, num: int, bound: int) {
    forall p :: Prime(p) && p <= bound && 0 <= num * p <= n ==> Flagged(flag, n, num, p)
  }

  /** Flags are only ever set on numbers that are not prime. */
  ghost predicate Sound(flag: seq<bool>) {
    forall c :: 0 <= c < |flag| && flag[c] ==> c >= 4 && !Prime(c)
  }

  /** Every non-prime whose cofactor is below `num` is flagged. */
  ghost predicate Complete(flag: seq<bool>, num: int) {
    forall c :: 2 <= c < |flag| && !Prime(c) && c / Spf(c) < num ==> flag[c]
  }

  /** The primes listed so far: increasing, and exactly those up to `top`. */
  ghost predicate Listed(primes: seq<int>, top: int) {
    Increasing(primes) &&
    (forall i :: 0 <= i < |primes| ==> Prime(primes[i]) && primes[i] <= top) &&
    (forall q :: 2 <= q <= top && Prime(q) ==> q in primes)
  }

  /** Lines 1-14 with `breakOnFactor`, lines 81-94 of the contest file
      without it: the primes up to `n` in increasing order. */
  method EulerFlagPrime(n: int, breakOnFactor: bool) returns (primes: seq<int>)
    ensures Increasing(primes)
    ensures forall i :: 0 <= i < |primes| ==> Prime(primes[i]) && primes[i] <= n
    ensures forall q :: 2 <= q <= n && Prime(q) ==> q in primes
  {
    var flag := seq(if n + 1 > 0 then n + 1 else 0, _ => false);
    primes := [];
    var num := 2;
    while num <= n
      invariant 2 <= num <= if n >= 2 then n + 1 else 2
      invariant |flag| == if n + 1 > 0 then n + 1 else 0
      invariant Listed(primes, num - 1)
      invariant Sound(flag) && Complete(flag, num)
    {
      assert num < |flag|;
      hide *;
      FlagIsComposite(flag, num);
      ListNext(primes, num);
      if !flag[num] {
        primes := primes + [num];
      }
      ghost var before := flag;
      flag := MarkMultiples(flag, n, num, primes, breakOnFactor);
      NextComplete(flag, n, num, before);
      num := num + 1;
    }
  }

  /** The `for prime in prime_numbers` loop for one `num` (lines 8-13, resp.
      88-93): flags `num * prime` for the listed primes in order, stopping at
      the first product out of range and, with `breakOnFactor`, after the
      first prime dividing `num`. It flags at least every prime up to the
      smallest divisor of `num`. */
  method MarkMultiples(flag: seq<bool>, n: int, num: int, primes: seq<int>, breakOnFactor: bool)
    returns (r: seq<bool>)
    requires 2 <= num <= n && |flag| == n + 1
    requires Listed(primes, num) && Sound(flag)
    ensures |r| == |flag| && Sound(r)
    ensures forall c :: 0 <= c < |flag| && flag[c] ==> r[c]
    ensures MarkedBelow(r, n, num, Spf(num))
  {
    r := flag;
    var j := 0;
    var stop := false;
    while j < |primes| && !stop
      decreases |primes| - j, if stop then 0 else 1
      invariant 0 <= j <= |primes| && |r| == |flag|
      invariant Sound(r)
      invariant forall c :: 0 <= c < |flag| && flag[c] ==> r[c]
      invariant forall i :: 0 <= i < j ==> Flagged(r, n, num, primes[i])
      invariant stop ==> MarkedBelow(r, n, num, Spf(num))
    {
      var p := primes[j];
      if num * p > n {
        stop := true;
        RangeStop(r, n, num, primes, j);
      } else {
        ProductNotPrime(num, p);
        r := r[num * p := true];
        if breakOnFactor && num % p == 0 {
          stop := true;
          FactorStop(r, n, num, primes, j);
        }
        j := j + 1;
      }
    }
    if !stop {
      AllMarked(r, n, num, primes);
    }
  }

  /** Before `num`'s pass its flag tells exactly whether it is prime. */
  lemma FlagIsComposite(flag: seq<bool>, num: int)
    requires 2 <= num < |flag| && Sound(flag) && Complete(flag, num)
    ensures !flag[num] <==> Prime(num)
  {
    if !Prime(num) { CompositeSplit(num); }
  }

  /** Appending `num` exactly when it is prime lists the primes up to it. */
  lemma ListNext(primes: seq<int>, num: int)
    requires num >= 2 && Listed(primes, num - 1)
    ensures Listed(if Prime(num) then primes + [num] else primes, num)
  {
  }

  lemma MulMono(a: int, b: int, c: int)
    requires a >= 0 && b >= c
    ensures a * b >= a * c
  {
  }

  /** Stopping at the first prime whose product with `num` is out of range:
      every smaller prime was handled, every larger one is out of range too. */
  lemma RangeStop(flag: seq<bool>, n: int, num: int, primes: seq<int>, j: int)
    requires num >= 2 && 0 <= j < |primes| && num * primes[j] > n
    requires Listed(primes, num)
    requires forall i :: 0 <= i < j ==> Flagged(flag, n, num, primes[i])
    ensures MarkedBelow(flag, n, num, Spf(num))
  {
    forall p | Prime(p) && p <= Spf(num) && 0 <= num * p <= n
      ensures Flagged(flag, n, num, p)
    {
      var i :| 0 <= i < |primes| && primes[i] == p;
      if i >= j {
        MulMono(num, primes[i], primes[j]);
      }
    }
  }

  /** Stopping at the first prime dividing `num`: it is the smallest
      divisor, and every prime up to it was handled. */
  lemma FactorStop(flag: seq<bool>, n: int, num: int, primes: seq<int>, j: int)
    requires num >= 2 && 0 <= j < |primes| && Listed(primes, num)
    requires num % primes[j] == 0
    requires forall i :: 0 <= i <= j ==> Flagged(flag, n, num, primes[i])
    ensures MarkedBelow(flag, n, num, Spf(num))
  {
    assert Spf(num) <= primes[j];
    forall p | Prime(p) && p <= Spf(num) && 0 <= num * p <= n
      ensures Flagged(flag, n, num, p)
    {
      var i :| 0 <= i < |primes| && primes[i] == p;
      assert i <= j;
    }
  }

  /** Running through all the primes handles every prime up to the
      smallest divisor, since all of them are listed. */
  lemma AllMarked(flag: seq<bool>, n: int, num: int, primes: seq<int>)
    requires num >= 2 && Listed(primes, num)
    requires forall i :: 0 <= i < |primes| ==> Flagged(flag, n, num, primes[i])
    ensures MarkedBelow(flag, n, num, Spf(num))
  {
    forall p | Prime(p) && p <= Spf(num) && 0 <= num * p <= n
      ensures Flagged(flag, n, num, p)
    {
      var i :| 0 <= i < |primes| && primes[i] == p;
    }
  }

  /** After `num`'s pass, every non-prime whose cofactor is `num` is
      flagged too. */
  lemma NextComplete(flag: seq<bool>, n: int, num: int, before: seq<bool>)
    requires num >= 2 && |flag| == |before| <= n + 1
    requires Complete(before, num)
    requires forall c :: 0 <= c < |flag| && before[c] ==> flag[c]
    requires MarkedBelow(flag, n, num, Spf(num))
    ensures Complete(flag, num + 1)
  {
    forall c | 2 <= c < |flag| && !Prime(c) && c / Spf(c) < num + 1 ensures flag[c] {
      if c / Spf(c) == num {
        CompositeSplit(c);
        SpfPrime(c);
        assert Flagged(flag, n, num, Spf(c));
      }
    }
  }
}
