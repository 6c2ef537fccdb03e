/** Sorted key sequences: ranks, and sorting without duplicates. */
module Sorting {
  import opened BranchlessSearch

  /** The number of keys less than k in a sorted sequence. */
  function Rank(a: seq<int>, k: int): (r: nat)
    ensures r <= |a|
  {
    if |a| == 0 then 0 else if a[|a| - 1] < k then |a| else Rank(a[..|a| - 1], k)
  }

  lemma {:induction false} RankIsRank(a: seq<int>, k: int)
    requires Sorted(a)
    ensures IsRank(a, k, Rank(a, k))
  {
    if |a| > 0 && a[|a| - 1] >= k {
      var b := a[..|a| - 1];
      RankIsRank(b, k);
      assert forall i :: 0 <= i < |b| ==> b[i] == a[i];
    }
  }

  lemma RankUnique(a: seq<int>, k: int, r: nat)
    requires Sorted(a) && IsRank(a, k, r)
    ensures r == Rank(a, k)
  {
    RankIsRank(a, k);
  }

  /** Sort keys and drop duplicates. */
  method SortUnique(load: seq<int>) returns (a: seq<int>)
    ensures Increasing(a) && |a| <= |load| && (load != [] ==> a != [])
    ensures forall x :: x in a <==> x in load
    ensures (forall i, j :: 0 <= i < j < |load| ==> load[i] != load[j]) ==> |a| == |load|
  {
    a := [];
    for i := 0 to |load|
      invariant Increasing(a) && |a| <= i && (i > 0 ==> a != [])
      invariant forall x :: x in a <==> x in load[..i]
      invariant (forall i, j :: 0 <= i < j < |load| ==> load[i] != load[j]) ==> |a| == i
    {
      var r := Rank(a, load[i]);
      RankIsRank(a, load[i]);
      assert load[..i + 1] == load[..i] + [load[i]];
      if r == |a| || a[r] != load[i] {
        InsertAt(a, r, load[i]);
        a := a[..r] + [load[i]] + a[r..];
      } else {
        assert load[i] in load[..i];
      }
    }
    assert load[..|load|] == load;
  }

  lemma InsertAt(a: seq<int>, r: nat, k: int)
    requires Increasing(a) && IsRank(a, k, r) && (r == |a| || a[r] != k)
    ensures var b := a[..r] + [k] + a[r..]; Increasing(b) && forall x :: x in b <==> x in a || x == k
  {
    var b := a[..r] + [k] + a[r..];
    assert b[r] == k;
    forall x
      ensures x in b <==> x in a || x == k
    {
      assert a == a[..r] + a[r..];
    }
  }
}
