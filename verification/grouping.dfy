/** Python dictionaries filled by a loop, with their keys in insertion order:
    the dict of lists that `d[k].append(v)` (or the `if k not in d: d[k] = [v]`
    idiom) builds, the counter that `d[k] += 1` builds, and `max` with a key
    function, which keeps the first of several maximal items. */
module Grouping {
  import opened Counting

  /** The first components of a sequence of pairs. */
  function Firsts<K, V>(kvs: seq<(K, V)>): (r: seq<K>)
    ensures |r| == |kvs|
    ensures forall i :: 0 <= i < |kvs| ==> r[i] == kvs[i].0
    decreases |kvs|
  {
    if |kvs| == 0 then [] else Firsts(kvs[..|kvs| - 1]) + [kvs[|kvs| - 1].0]
  }

  /** The second components of a sequence of pairs. */
  function Seconds<K, V>(kvs: seq<(K, V)>): (r: seq<V>)
    ensures |r| == |kvs|
    ensures forall i :: 0 <= i < |kvs| ==> r[i] == kvs[i].1
    decreases |kvs|
  {
    if |kvs| == 0 then [] else Seconds(kvs[..|kvs| - 1]) + [kvs[|kvs| - 1].1]
  }

  lemma SecondsSnoc<K, V>(kvs: seq<(K, V)>, kv: (K, V))
    ensures Seconds(kvs + [kv]) == Seconds(kvs) + [kv.1]
  {
    assert (kvs + [kv])[..|kvs|] == kvs;
  }

  lemma SecondsConcat<K, V>(a: seq<(K, V)>, b: seq<(K, V)>)
    ensures Seconds(a + b) == Seconds(a) + Seconds(b)
  {
    assert forall i :: 0 <= i < |a + b| ==> Seconds(a + b)[i] == (Seconds(a) + Seconds(b))[i];
  }

  /** Pairs whose key is `k`. */
  function KeyIs<K(==), V>(k: K): ((K, V)) -> bool {
    (kv: (K, V)) => kv.0 == k
  }

  /** The values paired with `k`, in order. */
  function ValuesAt<K(==), V>(kvs: seq<(K, V)>, k: K): seq<V> {
    Seconds(Filter(kvs, KeyIs(k)))
  }

  /** A dict of lists: its keys in insertion order and the list under each. */
  datatype Groups<K, V> = Groups(keys: seq<K>, lists: map<K, seq<V>>)

  /** Keys are not repeated and are exactly the dict's keys; no list is
      empty. */
  predicate WellFormed<K, V>(g: Groups<K, V>) {
    && NoDups(g.keys)
    && g.lists.Keys == Elements(g.keys)
    && (forall i :: 0 <= i < |g.keys| ==> g.lists[g.keys[i]] != [])
  }

  /** Appends `v` to the list under `k`, creating it at the end of the key
      order when `k` is new. */
  function Append<K, V>(g: Groups<K, V>, k: K, v: V): (r: Groups<K, V>)
    requires WellFormed(g)
    ensures WellFormed(r)
  {
    if k !in g.lists then
      assert NoDups(g.keys + [k]) by {
        forall i, j | 0 <= i < j < |g.keys + [k]| ensures (g.keys + [k])[i] != (g.keys + [k])[j] {
          assert (g.keys + [k])[i] == g.keys[i];
          if j < |g.keys| { assert (g.keys + [k])[j] == g.keys[j]; }
        }
      }
      Groups(g.keys + [k], g.lists[k := [v]])
    else Groups(g.keys, g.lists[k := g.lists[k] + [v]])
  }

  /** Appending every pair, in order, to an empty dict. */
  function GroupBy<K, V>(kvs: seq<(K, V)>): (g: Groups<K, V>)
    ensures WellFormed(g)
    decreases |kvs|
  {
    if |kvs| == 0 then Groups([], map[])
    else
      var kv := kvs[|kvs| - 1];
      Append(GroupBy(kvs[..|kvs| - 1]), kv.0, kv.1)
  }

  /** The lists in key order, `d.values()`. */
  function Values<K, V>(g: Groups<K, V>): seq<seq<V>>
    requires WellFormed(g)
  {
    seq(|g.keys|, i requires 0 <= i < |g.keys| => g.lists[g.keys[i]])
  }

  /** A key that no pair has owns no value. */
  lemma ValuesAtAbsent<K, V>(kvs: seq<(K, V)>, k: K)
    requires k !in Distinct(Firsts(kvs))
    ensures ValuesAt(kvs, k) == []
  {
    forall i | 0 <= i < |kvs| ensures !KeyIs(k)(kvs[i]) {
      assert Firsts(kvs)[i] == kvs[i].0;
    }
    FilterNone(kvs, KeyIs(k));
  }

  /** One append keeps the list under `k` equal to the values paired with
      `k` so far. */
  lemma AppendKeepsValues<K, V>(kvs: seq<(K, V)>, g: Groups<K, V>, kv: (K, V), k: K)
    requires WellFormed(g)
    requires k in g.lists <==> k in Distinct(Firsts(kvs))
    requires k in g.lists ==> g.lists[k] == ValuesAt(kvs, k)
    requires k in Append(g, kv.0, kv.1).lists
    ensures Append(g, kv.0, kv.1).lists[k] == ValuesAt(kvs + [kv], k)
  {
    var p := KeyIs(k);
    var f := Filter(kvs, p);
    FilterSnoc(kvs, kv, p);
    var a := Append(g, kv.0, kv.1);
    if kv.0 == k {
      assert p(kv);
      assert Filter(kvs + [kv], p) == f + [kv];
      SecondsSnoc(f, kv);
      if k !in g.lists {
        ValuesAtAbsent(kvs, k);
        assert a.lists[k] == [kv.1];
      } else {
        assert a.lists[k] == g.lists[k] + [kv.1];
      }
    } else {
      assert !p(kv);
      assert Filter(kvs + [kv], p) == f;
      assert a.lists[k] == g.lists[k];
    }
  }

  /** The dict's keys are the distinct keys of the pairs, in
      first-occurrence order. */
  lemma {:induction false} GroupByKeys<K, V>(kvs: seq<(K, V)>)
    ensures GroupBy(kvs).keys == Distinct(Firsts(kvs))
    decreases |kvs|
  {
    if |kvs| > 0 {
      var ys := kvs[..|kvs| - 1];
      var kv := kvs[|kvs| - 1];
      assert kvs == ys + [kv];
      GroupByKeys(ys);
      assert Firsts(kvs) == Firsts(ys) + [kv.0];
      DistinctSnoc(Firsts(ys), kv.0);
    }
  }

  /** The dict against an independent description: its keys are the
      distinct keys of the pairs in first-occurrence order, and the list
      under each key holds the values paired with it, in order. */
  lemma {:induction false} GroupByIsFilter<K, V>(kvs: seq<(K, V)>)
    ensures GroupBy(kvs).keys == Distinct(Firsts(kvs))
    ensures forall k :: k in GroupBy(kvs).lists ==> GroupBy(kvs).lists[k] == ValuesAt(kvs, k)
    decreases |kvs|
  {
    if |kvs| > 0 {
      var ys := kvs[..|kvs| - 1];
      var kv := kvs[|kvs| - 1];
      assert kvs == ys + [kv];
      GroupByIsFilter(ys);
      var g := GroupBy(ys);
      assert GroupBy(kvs) == Append(g, kv.0, kv.1);
      assert Firsts(kvs) == Firsts(ys) + [kv.0];
      DistinctSnoc(Firsts(ys), kv.0);
      forall k | k in Append(g, kv.0, kv.1).lists
        ensures Append(g, kv.0, kv.1).lists[k] == ValuesAt(ys + [kv], k)
      {
        AppendKeepsValues(ys, g, kv, k);
      }
    }
  }

  /** The lists concatenated. */
  function Flatten<V>(r: seq<seq<V>>): seq<V>
    decreases |r|
  {
    if |r| == 0 then [] else Flatten(r[..|r| - 1]) + r[|r| - 1]
  }

  lemma FlattenSnoc<V>(r: seq<seq<V>>, l: seq<V>)
    ensures Flatten(r + [l]) == Flatten(r) + l
  {
    assert (r + [l])[..|r|] == r;
  }

  /** Appending one value to one list adds it once to the concatenation. */
  lemma {:induction false} FlattenAppend<V>(r: seq<seq<V>>, j: int, x: V)
    requires 0 <= j < |r|
    ensures multiset(Flatten(r[j := r[j] + [x]])) == multiset(Flatten(r)) + multiset{x}
    decreases |r|
  {
    var r0 := r[..|r| - 1];
    var last := r[|r| - 1];
    assert r == r0 + [last];
    if j == |r| - 1 {
      assert r[j := r[j] + [x]] == r0 + [last + [x]];
      FlattenSnoc(r0, last + [x]);
      FlattenSnoc(r0, last);
    } else {
      assert r[j := r[j] + [x]] == r0[j := r0[j] + [x]] + [last];
      FlattenAppend(r0, j, x);
      FlattenSnoc(r0[j := r0[j] + [x]], last);
      FlattenSnoc(r0, last);
    }
  }

  /** One append adds its value once to the lists taken together. */
  lemma AppendValues<K, V>(g: Groups<K, V>, k: K, v: V)
    requires WellFormed(g)
    ensures multiset(Flatten(Values(Append(g, k, v)))) == multiset(Flatten(Values(g))) + multiset{v}
  {
    var e := Append(g, k, v);
    var w := Values(g);
    if k !in g.lists {
      assert Values(e) == w + [[v]];
      FlattenSnoc(w, [v]);
    } else {
      var j :| 0 <= j < |g.keys| && g.keys[j] == k;
      forall i | 0 <= i < |g.keys| ensures Values(e)[i] == w[j := w[j] + [v]][i] {
        if i != j { assert g.keys[i] != k; }
      }
      assert Values(e) == w[j := w[j] + [v]];
      FlattenAppend(w, j, v);
    }
  }

  /** Every value lands in exactly one list, as often as it occurs: the
      lists together are a rearrangement of the values. */
  lemma {:induction false} GroupByPartition<K, V>(kvs: seq<(K, V)>)
    ensures multiset(Flatten(Values(GroupBy(kvs)))) == multiset(Seconds(kvs))
    decreases |kvs|
  {
    if |kvs| > 0 {
      var ys := kvs[..|kvs| - 1];
      var kv := kvs[|kvs| - 1];
      assert kvs == ys + [kv];
      GroupByPartition(ys);
      assert GroupBy(kvs) == Append(GroupBy(ys), kv.0, kv.1);
      AppendValues(GroupBy(ys), kv.0, kv.1);
      SecondsSnoc(ys, kv);
    }
  }

  /** A counter dict: its keys in insertion order and the count of each. */
  datatype Tally<K> = Tally(keys: seq<K>, counts: map<K, nat>)

  /** `d[k] += 1` on a `defaultdict(int)`, or `d[k] = d.get(k, 0) + 1`. */
  function Bump<K>(t: Tally<K>, k: K): Tally<K> {
    if k in t.counts then Tally(t.keys, t.counts[k := t.counts[k] + 1])
    else Tally(t.keys + [k], t.counts[k := 1])
  }

  /** Counting `xs` from an empty dict. */
  function TallyOf<K>(xs: seq<K>): Tally<K>
    decreases |xs|
  {
    if |xs| == 0 then Tally([], map[]) else Bump(TallyOf(xs[..|xs| - 1]), xs[|xs| - 1])
  }

  /** The counter against an independent description: the keys are the
      distinct elements in first-occurrence order, and each count is the
      number of occurrences. */
  lemma {:induction false} TallyIsCount<K>(xs: seq<K>)
    ensures TallyOf(xs).keys == Distinct(xs)
    ensures forall k :: k in TallyOf(xs).counts <==> k in xs
    ensures forall k :: k in TallyOf(xs).counts ==> TallyOf(xs).counts[k] == Count(xs, k)
    decreases |xs|
  {
    if |xs| > 0 {
      var ys := xs[..|xs| - 1];
      var y := xs[|xs| - 1];
      assert xs == ys + [y];
      TallyIsCount(ys);
      DistinctSnoc(ys, y);
      forall k ensures Count(xs, k) == Count(ys, k) + (if k == y then 1 else 0) {
        CountSnoc(ys, y, k);
      }
    }
  }

  /** The counter's keys all have counts, and counting something gives a
      key. */
  lemma TallyKeys<K>(xs: seq<K>)
    ensures forall k :: k in TallyOf(xs).keys ==> k in TallyOf(xs).counts
    ensures |xs| > 0 ==> |TallyOf(xs).keys| > 0
  {
    TallyIsCount(xs);
    if |xs| > 0 {
      assert xs[0] in Distinct(xs);
    }
  }

  /** The counter's `items()`. */
  function Items<K>(t: Tally<K>): seq<(K, nat)>
    requires forall k :: k in t.keys ==> k in t.counts
  {
    seq(|t.keys|, i requires 0 <= i < |t.keys| => (t.keys[i], t.counts[t.keys[i]]))
  }

  /** The counter's items are the distinct elements, in first-occurrence
      order, each with its number of occurrences. */
  lemma ItemsOfTally<K>(xs: seq<K>)
    ensures forall k :: k in TallyOf(xs).keys ==> k in TallyOf(xs).counts
    ensures |Items(TallyOf(xs))| == |Distinct(xs)|
    ensures forall i :: 0 <= i < |Distinct(xs)| ==>
      Items(TallyOf(xs))[i] == (Distinct(xs)[i], Count(xs, Distinct(xs)[i]))
  {
    TallyIsCount(xs);
    TallyKeys(xs);
  }

  /** A key occurs among the pairs exactly when some value is paired with
      it. */
  lemma ValuesAtPresent<K, V>(kvs: seq<(K, V)>, k: K)
    ensures k in Firsts(kvs) <==> ValuesAt(kvs, k) != []
  {
    var f := Filter(kvs, KeyIs(k));
    FilterMembers(kvs, KeyIs(k));
    if k in Firsts(kvs) {
      var i :| 0 <= i < |kvs| && Firsts(kvs)[i] == k;
      assert KeyIs(k)(kvs[i]);
      assert kvs[i] in f;
    }
    if f != [] {
      assert f[0] in kvs && KeyIs(k)(f[0]);
      var i :| 0 <= i < |kvs| && kvs[i] == f[0];
      assert Firsts(kvs)[i] == k;
    }
  }

  /** `max(items, key=lambda x: x[1])`: the running maximum is replaced only
      by a strictly greater count. The result is a maximal item, and no
      earlier item has as high a count. */
  function FirstMax<K>(items: seq<(K, nat)>): (r: (K, nat))
    requires |items| > 0
    ensures r in items
    ensures forall i :: 0 <= i < |items| ==> items[i].1 <= r.1
    ensures exists i :: 0 <= i < |items| && items[i] == r && forall j :: 0 <= j < i ==> items[j].1 < r.1
    decreases |items|
  {
    if |items| == 1 then items[0]
    else
      var m := FirstMax(items[..|items| - 1]);
      var last := items[|items| - 1];
      assert forall i :: 0 <= i < |items| - 1 ==> items[i] == items[..|items| - 1][i];
      if last.1 > m.1 then last else m
  }

  /** The first maximal item of a counter: its key occurs, no element occurs
      more often, and it first occurs no later than any element occurring as
      often. */
  lemma TallyFirstMax<K>(xs: seq<K>)
    requires |xs| > 0
    ensures forall k :: k in TallyOf(xs).keys ==> k in TallyOf(xs).counts
    ensures |Items(TallyOf(xs))| > 0
    ensures var r := FirstMax(Items(TallyOf(xs))).0;
      && r in xs
      && (forall y :: y in xs ==> Count(xs, y) <= Count(xs, r))
      && (forall p :: 0 <= p < |xs| && Count(xs, xs[p]) == Count(xs, r) ==>
            exists p0 :: 0 <= p0 <= p && xs[p0] == r)
  {
    ItemsOfTally(xs);
    TallyKeys(xs);
    var d := Distinct(xs);
    var items := Items(TallyOf(xs));
    var m := FirstMax(items);
    var i0 :| 0 <= i0 < |items| && items[i0] == m && forall j :: 0 <= j < i0 ==> items[j].1 < m.1;
    var r := m.0;
    assert r == d[i0] && m.1 == Count(xs, r);
    forall y | y in xs ensures Count(xs, y) <= Count(xs, r) {
      var iy :| 0 <= iy < |d| && d[iy] == y;
      assert items[iy].1 <= m.1;
    }
    forall p | 0 <= p < |xs| && Count(xs, xs[p]) == Count(xs, r)
      ensures exists p0 :: 0 <= p0 <= p && xs[p0] == r
    {
      var iy :| 0 <= iy < |d| && d[iy] == xs[p];
      assert items[iy].1 == m.1;
      if iy == i0 {
        assert xs[p] == r;
      } else {
        assert i0 < iy;
        DistinctFirstOccurrence(xs, i0, iy, p);
      }
    }
  }
}
