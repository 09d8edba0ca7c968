/** Anagram grouping: `groupAnagrams1` and `groupAnagrams2` of
    leetcode/compare_time.py and `groupAnagrams` of test.py. Each string is
    filed under its characters in sorted order, in a dictionary whose keys
    keep their insertion order. The tuple of sorted characters used by
    compare_time.py and the joined string used by test.py compare equal
    exactly when the sorted character sequences are equal, so both keys are
    the sorted character sequence here. */
module Anagrams {
  import opened Sorting
  import opened Counting
  import opened Grouping

  predicate CharLe(a: char, b: char) {
    a <= b
  }

  lemma CharLeOrder()
    ensures TotalPreorder(CharLe) && Antisymmetric(CharLe)
  {
  }

  /** The grouping key, `sorted(item)`. */
  function Key(s: string): string {
    Sort(s, CharLe)
  }

  /** The key holds the same characters in ascending order. */
  lemma KeySpec(s: string)
    ensures multiset(Key(s)) == multiset(s)
    ensures SortedBy(Key(s), CharLe)
  {
    CharLeOrder();
    SortSorted(s, CharLe);
    SortPerm(s, CharLe);
  }

  /** Two strings get the same key exactly when they are anagrams of each
      other. */
  lemma KeyIffAnagram(a: string, b: string)
    ensures Key(a) == Key(b) <==> multiset(a) == multiset(b)
  {
    KeySpec(a);
    KeySpec(b);
    if multiset(a) == multiset(b) {
      CharLeOrder();
      SortedUnique(Key(a), Key(b), CharLe);
    }
  }

  /** Each input string paired with its key, in input order. */
  function Pairs(strs: seq<string>): (r: seq<(string, string)>)
    ensures |r| == |strs|
    ensures forall i :: 0 <= i < |strs| ==> r[i] == (Key(strs[i]), strs[i])
    decreases |strs|
  {
    if |strs| == 0 then [] else Pairs(strs[..|strs| - 1]) + [(Key(strs[|strs| - 1]), strs[|strs| - 1])]
  }

  /** The key of every input string, in input order. */
  function KeysOf(strs: seq<string>): seq<string> {
    Firsts(Pairs(strs))
  }

  /** Membership in the group of key `k`. */
  function HasKey(k: string): string -> bool {
    s => Key(s) == k
  }

  /** `groupAnagrams1` (compare_time.py lines 1-15): the loop of lines 4-9
      files each string under its key, and the lists are returned in key
      order. `groupAnagrams` of test.py (lines 4-12) is the same loop and
      returns the same lists. */
  function GroupAnagrams1(strs: seq<string>): seq<seq<string>> {
    Values(GroupBy(Pairs(strs)))
  }

  /** `groupAnagrams2` (compare_time.py lines 17-27): the same loop, keys
      only. */
  function GroupAnagrams2(strs: seq<string>): seq<string> {
    GroupBy(Pairs(strs)).keys
  }

  /** The strings filed under `k` are the input strings with key `k`. */
  lemma {:induction false} PairsAt(strs: seq<string>, k: string)
    ensures ValuesAt(Pairs(strs), k) == Filter(strs, HasKey(k))
    decreases |strs|
  {
    if |strs| > 0 {
      var ys := strs[..|strs| - 1];
      var y := strs[|strs| - 1];
      assert strs == ys + [y];
      PairsAt(ys, k);
      assert Pairs(strs) == Pairs(ys) + [(Key(y), y)];
      FilterSnoc(Pairs(ys), (Key(y), y), KeyIs(k));
      FilterSnoc(ys, y, HasKey(k));
      SecondsSnoc(Filter(Pairs(ys), KeyIs(k)), (Key(y), y));
    }
  }

  /** `groupAnagrams1`'s result described without the dictionary: one list
      per distinct key, in first-occurrence order, each holding the input
      strings with that key in input order. */
  lemma GroupsAreFilters(strs: seq<string>)
    ensures |GroupAnagrams1(strs)| == |Distinct(KeysOf(strs))|
    ensures forall i :: 0 <= i < |GroupAnagrams1(strs)| ==>
      GroupAnagrams1(strs)[i] == Filter(strs, HasKey(Distinct(KeysOf(strs))[i]))
  {
    GroupByIsFilter(Pairs(strs));
    forall i | 0 <= i < |GroupAnagrams1(strs)|
      ensures GroupAnagrams1(strs)[i] == Filter(strs, HasKey(Distinct(KeysOf(strs))[i]))
    {
      PairsAt(strs, Distinct(KeysOf(strs))[i]);
    }
  }

  /** `groupAnagrams2` returns exactly the keys `groupAnagrams1` groups by,
      position for position: no key twice, and every string of group `i`
      has key `i`. */
  lemma KeysMatchGroups(strs: seq<string>)
    ensures GroupAnagrams2(strs) == Distinct(KeysOf(strs))
    ensures |GroupAnagrams2(strs)| == |GroupAnagrams1(strs)|
    ensures forall i, s :: 0 <= i < |GroupAnagrams1(strs)| && s in GroupAnagrams1(strs)[i] ==>
      Key(s) == GroupAnagrams2(strs)[i]
  {
    GroupsAreFilters(strs);
    GroupByIsFilter(Pairs(strs));
  }

  /** The group at position `i` holds the input strings whose key is the
      `i`-th key, and that key is the key of some input string. */
  lemma GroupAt(strs: seq<string>, i: int)
    requires 0 <= i < |GroupAnagrams1(strs)|
    ensures i < |GroupAnagrams2(strs)|
    ensures GroupAnagrams1(strs)[i] == Filter(strs, HasKey(GroupAnagrams2(strs)[i]))
    ensures GroupAnagrams2(strs)[i] in KeysOf(strs)
  {
    var g := GroupBy(Pairs(strs));
    GroupByIsFilter(Pairs(strs));
    var k := g.keys[i];
    assert k in g.lists;
    assert GroupAnagrams1(strs)[i] == g.lists[k];
    PairsAt(strs, k);
  }

  /** Every group is non-empty, and a string of the input lies in the group
      of position `i` exactly when its key is the `i`-th key: so it lies in
      exactly one group. */
  lemma GroupMembership(strs: seq<string>, s: string, i: int)
    requires s in strs && 0 <= i < |GroupAnagrams1(strs)|
    ensures GroupAnagrams1(strs)[i] != []
    ensures s in GroupAnagrams1(strs)[i] <==> Key(s) == GroupAnagrams2(strs)[i]
  {
    GroupAt(strs, i);
    var k := GroupAnagrams2(strs)[i];
    var ks := KeysOf(strs);
    var j :| 0 <= j < |ks| && ks[j] == k;
    var w := strs[j];
    assert HasKey(k)(w);
    FilterIn(strs, HasKey(k), w);
    FilterIn(strs, HasKey(k), s);
  }

  /** Two input strings share a group exactly when they have the same key,
      i.e. when they are anagrams. */
  lemma SameGroupIffAnagrams(strs: seq<string>, a: string, b: string)
    requires a in strs && b in strs
    ensures (exists i :: 0 <= i < |GroupAnagrams1(strs)| && a in GroupAnagrams1(strs)[i] && b in GroupAnagrams1(strs)[i])
      <==> multiset(a) == multiset(b)
  {
    KeyIffAnagram(a, b);
    var r := GroupAnagrams1(strs);
    if exists i :: 0 <= i < |r| && a in r[i] && b in r[i] {
      var i :| 0 <= i < |r| && a in r[i] && b in r[i];
      GroupMembership(strs, a, i);
      GroupMembership(strs, b, i);
    }
    if Key(a) == Key(b) {
      KeyListed(strs, a);
      var i :| 0 <= i < |GroupAnagrams2(strs)| && GroupAnagrams2(strs)[i] == Key(a);
      GroupMembership(strs, a, i);
      GroupMembership(strs, b, i);
    }
  }

  /** The key of every input string is among the keys. */
  lemma KeyListed(strs: seq<string>, s: string)
    requires s in strs
    ensures Key(s) in GroupAnagrams2(strs)
    ensures |GroupAnagrams2(strs)| == |GroupAnagrams1(strs)|
  {
    GroupByKeys(Pairs(strs));
    var j :| 0 <= j < |strs| && strs[j] == s;
    assert KeysOf(strs)[j] == Key(s);
  }

  /** Every input string lands in exactly one group, as often as it occurs:
      the groups together are a rearrangement of the input, so the total size
      is preserved. */
  lemma GroupsPartitionInput(strs: seq<string>)
    ensures multiset(Flatten(GroupAnagrams1(strs))) == multiset(strs)
    ensures |Flatten(GroupAnagrams1(strs))| == |strs|
  {
    GroupByPartition(Pairs(strs));
    assert Seconds(Pairs(strs)) == strs;
    assert |multiset(Flatten(GroupAnagrams1(strs)))| == |Flatten(GroupAnagrams1(strs))|;
  }

  /** Groups come in the order in which their keys first occur: before the
      first string of a later group there is a string of every earlier one. */
  lemma GroupsInFirstOccurrenceOrder(strs: seq<string>, i: int, j: int, q: int)
    requires 0 <= i < j < |GroupAnagrams2(strs)|
    requires 0 <= q < |strs| && Key(strs[q]) == GroupAnagrams2(strs)[j]
    ensures exists p :: 0 <= p < q && Key(strs[p]) == GroupAnagrams2(strs)[i]
  {
    KeysMatchGroups(strs);
    DistinctFirstOccurrence(KeysOf(strs), i, j, q);
    var p :| 0 <= p < q && KeysOf(strs)[p] == Distinct(KeysOf(strs))[i];
  }
}
