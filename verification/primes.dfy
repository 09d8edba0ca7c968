/** Primality and the smallest divisor, shared by the sieves and by the
    contest solutions of leetcode/euler_prime_flag.py and
    leetcode/324_weekly_contest.py. */
module Primes {

  /** `k` is at least 2 and no number from 2 below it divides it. */
  predicate Prime(k: int) {
    k >= 2 && forall d :: 2 <= d < k ==> k % d != 0
  }

  predicate Increasing(s: seq<int>) {
    forall i, j :: 0 <= i < j < |s| ==> s[i] < s[j]
  }

  function SmallestDivisorFrom(c: int, d: int): (r: int)
    requires 2 <= d <= c
    ensures d <= r <= c && c % r == 0
    ensures forall k :: d <= k < r ==> c % k != 0
    decreases c - d
  {
    if c % d == 0 then d else SmallestDivisorFrom(c, d + 1)
  }

  /** The smallest divisor of `c` from 2 on. */
  function Spf(c: int): (r: int)
    requires c >= 2
    ensures 2 <= r <= c && c % r == 0
    ensures forall k :: 2 <= k < r ==> c % k != 0
  {
    SmallestDivisorFrom(c, 2)
  }

  lemma MultipleMod(a: int, m: int)
    requires a >= 1
    ensures (a * m) % a == 0
  {
    var q, r := (a * m) / a, (a * m) % a;
    assert a * m == a * q + r && 0 <= r < a;
    assert a * (m - q) == r;
  }

  /** Divisibility is transitive. */
  lemma DividesTrans(a: int, b: int, c: int)
    requires a >= 1 && b >= 1 && b % a == 0 && c % b == 0
    ensures c % a == 0
  {
    var q1, q2 := c / b, b / a;
    assert c == b * q1;
    assert b == a * q2;
    assert c == a * (q2 * q1);
    MultipleMod(a, q2 * q1);
  }

  /** The smallest divisor is prime, and it is the number itself exactly for
      primes. */
  lemma SpfPrime(c: int)
    requires c >= 2
    ensures Prime(Spf(c))
    ensures Prime(c) <==> Spf(c) == c
  {
    var s := Spf(c);
    forall k | 2 <= k < s ensures s % k != 0 {
      if s % k == 0 { DividesTrans(k, s, c); }
    }
  }

  /** A number of at least 2 that is not prime is its smallest divisor times
      a cofactor of at least 2 whose own smallest divisor is no smaller. */
  lemma CompositeSplit(c: int)
    requires c >= 2 && !Prime(c)
    ensures var s, m := Spf(c), c / Spf(c);
      c == s * m && 2 <= m < c && s <= Spf(m)
  {
    SpfPrime(c);
    var s, m := Spf(c), c / Spf(c);
    Cofactor(c, s);
    DividesTrans(Spf(m), m, c);
  }

  /** Dividing by a proper divisor from 2 on leaves a cofactor from 2 on,
      below the number, that divides it too. */
  lemma Cofactor(c: int, s: int)
    requires 2 <= s < c && c % s == 0
    ensures var m := c / s; c == s * m && 2 <= m < c && c % m == 0
  {
    var m := c / s;
    assert c == s * m;
    assert m != 1;
    assert m < c;
    MultipleMod(m, s);
    assert c == m * s;
  }

  /** A product of two numbers from 2 on is not prime. */
  lemma ProductNotPrime(a: int, b: int)
    requires a >= 2 && b >= 2
    ensures a * b >= 4 && !Prime(a * b)
  {
    MultipleMod(a, b);
    assert a < a * b;
  }
}
