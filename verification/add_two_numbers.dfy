/** `addTwoNumbers` of leetcode/addtwonumbers.py: two numbers stored as
    little-endian digit lists are added in place into the first list, the
    shorter list being padded with 0 nodes as the walk goes on. A list is
    modelled as the sequence of its node values, `None` as the empty
    sequence. */
module AddTwoNumbers {

  predicate Digits(d: seq<int>) {
    forall i :: 0 <= i < |d| ==> 0 <= d[i] <= 9
  }

  function Pow10(n: nat): (r: nat)
    ensures r >= 1
  {
    if n == 0 then 1 else 10 * Pow10(n - 1)
  }

  /** The number a little-endian digit list stands for. */
  function Num(d: seq<int>): int
    decreases |d|
  {
    if d == [] then 0 else d[0] + 10 * Num(d[1..])
  }

  function Zeros(n: nat): (r: seq<int>)
    ensures |r| == n && forall i :: 0 <= i < n ==> r[i] == 0
  {
    seq(n, _ => 0)
  }

  function Max(a: int, b: int): int {
    if a >= b then a else b
  }

  /** The `i`-th digit, 0 past the end: what the padded walk reads. */
  function Digit(l: seq<int>, i: int): int {
    if 0 <= i < |l| then l[i] else 0
  }

  /** The first `i` digits, as many as there are. */
  function Take(l: seq<int>, i: nat): seq<int> {
    if i <= |l| then l[..i] else l
  }

  /** Appending a most significant digit. */
  lemma {:induction false} NumSnoc(x: seq<int>, d: int)
    ensures Num(x + [d]) == Num(x) + Pow10(|x|) * d
    decreases |x|
  {
    if x != [] {
      assert (x + [d])[1..] == x[1..] + [d];
      NumSnoc(x[1..], d);
    }
  }

  lemma TakeNext(l: seq<int>, i: nat)
    ensures Num(Take(l, i + 1)) == Num(Take(l, i)) + Pow10(i) * Digit(l, i)
  {
    if i < |l| {
      assert l[..i + 1] == l[..i] + [l[i]];
      NumSnoc(l[..i], l[i]);
    } else {
      assert l[..|l|] == l;
    }
  }

  lemma Distrib(p: int, d: int, c: int)
    ensures p * d + (10 * p) * c == p * (d + 10 * c)
  {
  }

  lemma Distrib3(p: int, x: int, y: int, z: int)
    ensures p * (x + y + z) == p * x + p * y + p * z
  {
  }

  /** One pass of the loop body keeps the sum invariant: the digit written
      and the new carry account for the two digits read and the old carry. */
  lemma Step(a: seq<int>, l1: seq<int>, l2: seq<int>, i: nat, carry: int, sum: int)
    requires i < |a| && sum == Digit(l1, i) + Digit(l2, i) + carry
    requires Num(a[..i]) + Pow10(i) * carry == Num(Take(l1, i)) + Num(Take(l2, i))
    ensures var c := sum / 10; var a' := a[i := sum - c * 10];
      Num(a'[..i + 1]) + Pow10(i + 1) * c == Num(Take(l1, i + 1)) + Num(Take(l2, i + 1))
  {
    var c := sum / 10;
    var d := sum - c * 10;
    var a' := a[i := d];
    assert a'[..i + 1] == a[..i] + [d];
    NumSnoc(a[..i], d);
    TakeNext(l1, i);
    TakeNext(l2, i);
    var p := Pow10(i);
    assert Pow10(i + 1) == 10 * p;
    assert d + 10 * c == sum;
    Distrib(p, d, c);
    Distrib3(p, Digit(l1, i), Digit(l2, i), carry);
    assert Num(a'[..i + 1]) + Pow10(i + 1) * c == Num(a[..i]) + p * sum;
  }

  /** What holds at the head of the loop on the `i`-th pair of nodes: the
      first `i` digits of `a` are written, the rest of `a` is still the first
      list padded with zeros, `b` is the second list padded with zeros, and
      the written digits with the carry make up the sum of the first `i`
      digits of both lists. */
  ghost predicate Shape(l1: seq<int>, l2: seq<int>, a: seq<int>, b: seq<int>, i: int, carry: int) {
    0 <= i <= Max(|l1|, |l2|) &&
    |a| == Max(|l1|, i + 1) && |b| == Max(|l2|, i + 1) &&
    b == l2 + Zeros(|b| - |l2|) &&
    (forall j :: i <= j < |a| ==> a[j] == Digit(l1, j)) &&
    Digits(a) && 0 <= carry <= 1 &&
    (i == Max(|l1|, |l2|) ==> carry == 1)
  }

  ghost predicate Inv(l1: seq<int>, l2: seq<int>, a: seq<int>, b: seq<int>, i: int, carry: int) {
    Shape(l1, l2, a, b, i, carry) &&
    Num(a[..i]) + Pow10(i) * carry == Num(Take(l1, i)) + Num(Take(l2, i))
  }

  /** What holds when the loop breaks after writing digit `i`. */
  ghost predicate Done(l1: seq<int>, l2: seq<int>, a: seq<int>, b: seq<int>) {
    Digits(a) && Num(a) == Num(l1) + Num(l2) &&
    Max(|l1|, |l2|) <= |a| <= Max(|l1|, |l2|) + 1 && b == l2 + Zeros(|a| - |l2|) &&
    (|a| == Max(|l1|, |l2|) + 1 ==> a[|a| - 1] == 1)
  }

  /** Adding two digits and a carry gives a digit and a carry again. */
  lemma Carry(x: int, y: int, carry: int)
    requires 0 <= x <= 9 && 0 <= y <= 9 && 0 <= carry <= 1
    ensures var s := x + y + carry;
      (s < 10 ==> s / 10 == 0) && (s >= 10 ==> s / 10 == 1) && 0 <= s - s / 10 * 10 <= 9
  {
  }

  /** One turn of the loop that breaks: the sum is written. */
  lemma TurnBreaks(l1: seq<int>, l2: seq<int>, a: seq<int>, b: seq<int>, i: int, carry: int)
    requires Digits(l1) && Digits(l2) && Inv(l1, l2, a, b, i, carry)
    requires var sum := a[i] + b[i] + carry; sum / 10 == 0 && i + 1 == |a| && i + 1 == |b|
    ensures var sum := a[i] + b[i] + carry; Done(l1, l2, a[i := sum - sum / 10 * 10], b)
  {
    var sum := a[i] + b[i] + carry;
    assert a[i] == Digit(l1, i) && b[i] == Digit(l2, i);
    Step(a, l1, l2, i, carry, sum);
    Carry(a[i], b[i], carry);
    var a1 := a[i := sum - sum / 10 * 10];
    assert a1[i] == sum && sum <= 9;
    assert a1[..i + 1] == a1 && Take(l1, i + 1) == l1 && Take(l2, i + 1) == l2;
    assert Digits(a1) by {
      forall j | 0 <= j < |a1| ensures 0 <= a1[j] <= 9 {
        if j != i { assert a1[j] == a[j]; }
      }
    }
    if i == Max(|l1|, |l2|) {
      assert a[i] == 0 && b[i] == 0 && carry == 1;
    }
  }

  /** The padding after a turn that goes on keeps the shape of the lists. */
  lemma ShapeNext(l1: seq<int>, l2: seq<int>, a: seq<int>, b: seq<int>, i: int, carry: int)
    requires Digits(l1) && Digits(l2) && Shape(l1, l2, a, b, i, carry)
    requires var sum := a[i] + b[i] + carry; !(sum / 10 == 0 && i + 1 == |a| && i + 1 == |b|)
    ensures var sum := a[i] + b[i] + carry; var c := sum / 10; var a1 := a[i := sum - c * 10];
      i < Max(|l1|, |l2|) &&
      Shape(l1, l2, if i + 1 == |a1| then a1 + [0] else a1, if i + 1 == |b| then b + [0] else b, i + 1, c)
  {
    var sum := a[i] + b[i] + carry;
    assert b[i] == Digit(l2, i);
    Carry(a[i], b[i], carry);
    var c := sum / 10;
    var a1 := a[i := sum - c * 10];
    var b2 := if i + 1 == |b| then b + [0] else b;
    assert b2 == l2 + Zeros(|b2| - |l2|);
  }

  /** One turn of the loop that goes on: the loop has not reached its last
      possible turn, and after the padding the invariant holds again. */
  lemma TurnContinues(l1: seq<int>, l2: seq<int>, a: seq<int>, b: seq<int>, i: int, carry: int)
    requires Digits(l1) && Digits(l2) && Inv(l1, l2, a, b, i, carry)
    requires var sum := a[i] + b[i] + carry; !(sum / 10 == 0 && i + 1 == |a| && i + 1 == |b|)
    ensures var sum := a[i] + b[i] + carry; var c := sum / 10; var a1 := a[i := sum - c * 10];
      i < Max(|l1|, |l2|) &&
      Inv(l1, l2, if i + 1 == |a1| then a1 + [0] else a1, if i + 1 == |b| then b + [0] else b, i + 1, c)
  {
    var sum := a[i] + b[i] + carry;
    assert b[i] == Digit(l2, i);
    Step(a, l1, l2, i, carry, sum);
    ShapeNext(l1, l2, a, b, i, carry);
    var c := sum / 10;
    var a1 := a[i := sum - c * 10];
    var a2 := if i + 1 == |a1| then a1 + [0] else a1;
    assert a2[..i + 1] == a1[..i + 1];
    hide Shape, Num, Take, Pow10, Digits, Zeros;
  }

  /** `addTwoNumbers` (lines 7-23). Returns the first list, which holds the
      result, and the second list as the padding left it. */
  method Add(l1: seq<int>, l2: seq<int>) returns (r1: seq<int>, r2: seq<int>)
    requires Digits(l1) && Digits(l2)
    ensures l1 == [] || l2 == [] ==> r1 == l1 && r2 == l2
    ensures l1 != [] && l2 != [] ==> Digits(r1) && Num(r1) == Num(l1) + Num(l2)
    ensures l1 != [] && l2 != [] ==>
      Max(|l1|, |l2|) <= |r1| <= Max(|l1|, |l2|) + 1 && r2 == l2 + Zeros(|r1| - |l2|)
    ensures l1 != [] && l2 != [] && |r1| == Max(|l1|, |l2|) + 1 ==> r1[|r1| - 1] == 1
  {
    if l1 == [] || l2 == [] {
      return l1, l2;
    }
    var a, b := l1, l2;
    var carry := 0;
    var i := 0;
    assert a[..0] == [] && Take(l1, 0) == [] && Take(l2, 0) == [];
    assert b == l2 + Zeros(0);
    while true
      invariant Inv(l1, l2, a, b, i, carry)
      decreases Max(|l1|, |l2|) - i
    {
      assert i < |a| && i < |b|;
      hide *;
      var sum := a[i] + b[i] + carry;
      if sum / 10 == 0 && i + 1 == |a| && i + 1 == |b| {
        TurnBreaks(l1, l2, a, b, i, carry);
        a := a[i := sum - sum / 10 * 10];
        break;
      }
      TurnContinues(l1, l2, a, b, i, carry);
      carry := sum / 10;
      a := a[i := sum - carry * 10];
      if i + 1 == |a| {
        a := a + [0];
      }
      if i + 1 == |b| {
        b := b + [0];
      }
      i := i + 1;
    }
    return a, b;
  }
}
