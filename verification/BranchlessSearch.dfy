/** The branchless binary search over the segment keys. */
module BranchlessSearch {

  ghost predicate Increasing(a: seq<int>) {
    forall i, j :: 0 <= i < j < |a| ==> a[i] < a[j]
  }

  ghost predicate Sorted(a: seq<int>) {
    forall i, j :: 0 <= i < j < |a| ==> a[i] <= a[j]
  }

  /** `r` elements are less than `key`, and they come first: what
      `std::lower_bound` computes on a sorted range. */
  ghost predicate IsRank(a: seq<int>, key: int, r: nat) {
    && r <= |a|
    && (forall i :: 0 <= i < r ==> a[i] < key)
    && (forall i :: r <= i < |a| ==> key <= a[i])
  }

  function Pow2(n: nat): (p: nat)
    ensures p >= 1
  {
    if n == 0 then 1 else 2 * Pow2(n - 1)
  }

  /** The position of the highest set bit. */
  function Bsr(x: nat): (r: nat)
    requires x > 0
    ensures Pow2(r) <= x < 2 * Pow2(r)
  {
    if x == 1 then 0 else 1 + Bsr(x / 2)
  }

  method BinarySearch(arr: seq<int>, key: int) returns (r: nat)
    requires |arr| >= 2 && Sorted(arr)
    ensures IsRank(arr, key, r)
  {
    hide Pow2, IsRank;
    var n := |arr|;
    var pos := -1;
    ghost var logstep := Bsr(n - 1);
    var step := Pow2(Bsr(n - 1));
    pos := if arr[pos + n - step] < key then pos + n - step else pos;
    HalfPow2(logstep);
    step := step / 2;
    while step > 0
      invariant -1 <= pos
      invariant step == 0 ==> logstep == 0
      invariant step > 0 ==> logstep > 0 && step == Pow2(logstep - 1)
      invariant pos + Pow2(logstep) < n
      invariant pos >= 0 ==> arr[pos] < key
      invariant pos + Pow2(logstep) < n - 1 ==> key <= arr[pos + Pow2(logstep)]
      decreases step
    {
      HalfPow2(logstep);
      pos := if arr[pos + step] < key then pos + step else pos;
      logstep := logstep - 1;
      HalfPow2(logstep);
      step := step / 2;
    }
    HalfPow2(0);
    pos := pos + 1;
    RankAt(arr, key, pos);
    return if arr[pos] >= key then pos else n;
  }

  lemma HalfPow2(l: nat)
    ensures Pow2(l) / 2 == if l == 0 then 0 else Pow2(l - 1)
    ensures l > 0 ==> Pow2(l) == 2 * Pow2(l - 1)
    ensures l == 0 ==> Pow2(l) == 1
  {
  }

  /** Next to a smaller element, and itself not smaller unless it is the last. */
  lemma RankAt(arr: seq<int>, key: int, pos: nat)
    requires Sorted(arr) && pos < |arr| && (pos > 0 ==> arr[pos - 1] < key) && (pos < |arr| - 1 ==> key <= arr[pos])
    ensures IsRank(arr, key, if arr[pos] >= key then pos else |arr|)
  {
  }
}
