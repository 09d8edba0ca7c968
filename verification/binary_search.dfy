/** `binary_search_first` and `binary_search_last` of
    my_data_structures/binary_tree_search_2boundaries.py: recursive bisection
    for the boundaries of a run of equal keys in a sorted array. */
module BinarySearch {

  predicate Sorted(a: seq<int>) {
    forall i, j :: 0 <= i < j < |a| ==> a[i] <= a[j]
  }

  /** `int((low + high) / 2)`: true division then truncation toward zero. */
  function Mid(low: int, high: int): int {
    var s := low + high;
    if s >= 0 then s / 2 else -((-s) / 2)
  }

  /** `binary_search_last` (lines 4-13): on `low > high` the answer is `high`;
      otherwise a middle element above the key sends the search left, any
      other one right. The answer is the last position in `low .. high`
      holding a value at most the key, `low - 1` when there is none. */
  function SearchLast(a: seq<int>, key: int, low: int, high: int): (r: int)
    requires Sorted(a) && 0 <= low && high < |a|
    ensures low > high ==> r == high
    ensures low <= high ==> low - 1 <= r <= high
    ensures forall i :: low <= i <= r ==> a[i] <= key
    ensures forall i :: r < i <= high ==> a[i] > key
    decreases high - low + 1
  {
    if low > high then high
    else
      var mid := Mid(low, high);
      if a[mid] > key then SearchLast(a, key, low, mid - 1)
      else SearchLast(a, key, mid + 1, high)
  }

  /** `binary_search_first` (lines 16-25): on `low > high` the answer is
      `low`; otherwise a middle element below the key sends the search
      right, any other one left. The answer is the first position in
      `low .. high` holding a value at least the key, `high + 1` when there
      is none. */
  function SearchFirst(a: seq<int>, key: int, low: int, high: int): (r: int)
    requires Sorted(a) && 0 <= low && high < |a|
    ensures low > high ==> r == low
    ensures low <= high ==> low <= r <= high + 1
    ensures forall i :: low <= i < r ==> a[i] < key
    ensures forall i :: r <= i <= high ==> a[i] >= key
    decreases high - low + 1
  {
    if low > high then low
    else
      var mid := Mid(low, high);
      if a[mid] < key then SearchFirst(a, key, mid + 1, high)
      else SearchFirst(a, key, low, mid - 1)
  }

  /** Over the whole array the positions from the first boundary to the last
      hold exactly the copies of the key. */
  lemma EqualRun(a: seq<int>, key: int)
    requires Sorted(a)
    ensures var f, l := SearchFirst(a, key, 0, |a| - 1), SearchLast(a, key, 0, |a| - 1);
      0 <= f <= |a| && -1 <= l < |a| &&
      forall i :: 0 <= i < |a| ==> (a[i] == key <==> f <= i <= l)
  {
  }

  /** The sample call on [1, 2, 3, 4] with key 3 answers 2 from both ends. */
  lemma SampleCall()
    ensures SearchLast([1, 2, 3, 4], 3, 0, 3) == 2
    ensures SearchFirst([1, 2, 3, 4], 3, 0, 3) == 2
  {
    var a := [1, 2, 3, 4];
    assert a[2] == 3 && a[3] == 4 && a[1] == 2;
  }
}
