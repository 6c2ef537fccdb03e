/** From a key to leaf numbers: the leaves a lookup reads, the leaf an insert
    writes, and why the second is among the first. */
module Routing {
  import opened DivMod
  import opened Lines
  import opened Stabbing
  import opened Plr
  import opened BranchlessSearch
  import opened Sorting
  import opened SubModel
  import opened Index

  function ModelForKey(ix: Index, k: int): (m: nat)
    requires |ix.models| == |ix.modelKeys| > 0
    ensures m < |ix.models|
  {
    var i := Rank(ix.modelKeys, k);
    if i < |ix.models| then i else |ix.models| - 1
  }

  /** The leaves read for a key: first and last, as global leaf numbers. */
  function LeafRange(ix: Index, k: nat, epsilon: nat, span: nat): (nat, nat)
    requires |ix.models| == |ix.modelKeys| > 0 && |ix.leafIdxOffsets| == |ix.models| + 1 && span > 0
    requires ix.models[ModelForKey(ix, k)].capacity > 0
  {
    var m := ModelForKey(ix, k);
    var (l, r) := ix.models[m].PredictRange(k, epsilon, span);
    (ix.leafIdxOffsets[m] + l, ix.leafIdxOffsets[m] + r)
  }

  /** The leaf an insert of k writes. */
  function Home(ix: Index, keys: seq<int>, k: nat, span: nat): int
    requires |ix.models| == |ix.modelKeys| > 0 && span > 0
    requires |ix.leafIdxOffsets| == |ix.capacityOffsets| == |ix.models| + 1
  {
    var m := ModelForKey(ix, k);
    ix.leafIdxOffsets[m] + (Rank(keys, k) - ix.capacityOffsets[m]) / span
  }

  /** Keys that can be inserted: those up to the largest loaded key and, when
      the last leaf of the last segment has room to spare, those past it. */
  ghost predicate Insertable(ix: Index, keys: seq<int>, k: nat, span: nat)
    requires |ix.models| > 0 && |keys| > 0 && span > 0
  {
    k <= keys[|keys| - 1] || ix.models[|ix.models| - 1].capacity % span != 0
  }

  // ---- segments and ranks -------------------------------------------------

  lemma {:induction false} OffsetsGrow(ix: Index, keys: seq<int>, epsilon: nat, span: nat, i: nat, j: nat)
    requires Trained(ix, keys, epsilon, span) && i <= j <= |ix.models|
    ensures ix.capacityOffsets[i] <= ix.capacityOffsets[j] && ix.leafIdxOffsets[i] <= ix.leafIdxOffsets[j]
    ensures i < j ==> ix.capacityOffsets[i] < ix.capacityOffsets[j]
    decreases j
  {
    if i < j {
      OffsetsGrow(ix, keys, epsilon, span, i, j - 1);
      assert SegmentOk(ix, keys, j - 1, epsilon, span);
    }
  }

  lemma ModelKeysSorted(ix: Index, keys: seq<int>, epsilon: nat, span: nat)
    requires Trained(ix, keys, epsilon, span)
    ensures Sorted(ix.modelKeys)
  {
    forall i, j | 0 <= i < j < |ix.modelKeys|
      ensures ix.modelKeys[i] <= ix.modelKeys[j]
    {
      assert SegmentOk(ix, keys, i, epsilon, span) && SegmentOk(ix, keys, j, epsilon, span);
      OffsetsGrow(ix, keys, epsilon, span, i + 1, j);
      OffsetsGrow(ix, keys, epsilon, span, j, j + 1);
    }
  }

  /** The chosen segment is the one that holds the key's rank. */
  lemma RankInSegment(ix: Index, keys: seq<int>, epsilon: nat, span: nat, k: int)
    requires Trained(ix, keys, epsilon, span)
    ensures var m, rank := ModelForKey(ix, k), Rank(keys, k);
            && SegmentOk(ix, keys, m, epsilon, span)
            && ix.capacityOffsets[m] <= rank <= ix.capacityOffsets[m + 1]
            && (rank == ix.capacityOffsets[m + 1] <==> k > keys[|keys| - 1])
            && (k > keys[|keys| - 1] ==> m == |ix.models| - 1)
            && IsRank(keys[ix.capacityOffsets[m]..ix.capacityOffsets[m + 1]], k, rank - ix.capacityOffsets[m])
  {
    var m, rank, n := ModelForKey(ix, k), Rank(keys, k), |ix.models|;
    ModelKeysSorted(ix, keys, epsilon, span);
    RankIsRank(ix.modelKeys, k);
    RankIsRank(keys, k);
    assert SegmentOk(ix, keys, n - 1, epsilon, span) && SegmentOk(ix, keys, m, epsilon, span);
    OffsetsGrow(ix, keys, epsilon, span, m + 1, n);
    if m > 0 {
      assert SegmentOk(ix, keys, m - 1, epsilon, span);
      assert ix.modelKeys[m - 1] < k;
    }
    LocalRank(keys, k, rank, ix.capacityOffsets[m], ix.capacityOffsets[m + 1]);
  }

  lemma LocalRank(keys: seq<int>, k: int, rank: nat, from: nat, to: nat)
    requires IsRank(keys, k, rank) && from <= to <= |keys|
    requires from > 0 ==> keys[from - 1] < k
    requires (to < |keys| || (to > 0 && keys[to - 1] >= k)) ==> to > 0 && keys[to - 1] >= k
    ensures from <= rank <= to && IsRank(keys[from..to], k, rank - from)
  {
  }

  // ---- the insertion leaf is predicted ------------------------------------

  /** The assertion of the insert path, `l <= insert_idx <= r`, holds exactly
      for the insertable keys; the lower half always holds. */
  lemma HomePredicted(ix: Index, keys: seq<int>, epsilon: nat, span: nat, k: nat)
    requires Trained(ix, keys, epsilon, span)
    ensures var (l, r) := LeafRange(ix, k, epsilon, span);
            var h := Home(ix, keys, k, span);
            l <= h && l <= r && (h <= r <==> Insertable(ix, keys, k, span))
  {
    RankInSegment(ix, keys, epsilon, span, k);
    var m := ModelForKey(ix, k);
    var model, from, to := ix.models[m], ix.capacityOffsets[m], ix.capacityOffsets[m + 1];
    var local := Rank(keys, k) - from;
    WindowHoldsRank(model, keys[from..to], epsilon, k, local);
    var p := model.Predict(k, epsilon);
    DivMono(p.lo, p.hi, span);
    DivMono(p.lo, local, span);
    if local < model.capacity {
      DivMono(local, p.hi, span);
    } else {
      DivStep(model.capacity, span);
    }
  }

  /** The leaves read are few, and near the insertion leaf. */
  lemma RangeNear(ix: Index, keys: seq<int>, epsilon: nat, span: nat, k: nat)
    requires Trained(ix, keys, epsilon, span)
    ensures var (l, r) := LeafRange(ix, k, epsilon, span);
            var h := Home(ix, keys, k, span);
            && r - l <= (2 * epsilon + 2) / span + 1
            && h - l <= (2 * epsilon + 1) / span + 1 && r - h <= (2 * epsilon + 1) / span + 1
  {
    hide Model.Predict, Model.Fits, Stabbable, IsRank, Rank, ModelForKey, Model.TableSize, Increasing;
    RankInSegment(ix, keys, epsilon, span, k);
    var m := ModelForKey(ix, k);
    var model, from, to := ix.models[m], ix.capacityOffsets[m], ix.capacityOffsets[m + 1];
    var local := Rank(keys, k) - from;
    WindowNearRank(model, keys[from..to], epsilon, k, local);
    var p := model.Predict(k, epsilon);
    DivSpread(p.lo, p.hi, 2 * epsilon + 2, span);
    DivSpread(p.lo, local, 2 * epsilon + 1, span);
    DivSpread(local, p.hi, 2 * epsilon + 1, span);
  }

  // ---- homes and keys rise together ---------------------------------------

  lemma RankMono(a: seq<int>, k: int, k': int)
    requires Sorted(a) && k <= k'
    ensures Rank(a, k) <= Rank(a, k')
  {
    RankIsRank(a, k);
    RankIsRank(a, k');
  }

  /** The home of a key lies among the leaves of its segment. */
  lemma HomeInSegment(ix: Index, keys: seq<int>, epsilon: nat, span: nat, k: nat)
    requires Trained(ix, keys, epsilon, span)
    ensures var m := ModelForKey(ix, k);
            ix.leafIdxOffsets[m] <= Home(ix, keys, k, span) < ix.leafIdxOffsets[m + 1]
  {
    RankInSegment(ix, keys, epsilon, span, k);
    var m := ModelForKey(ix, k);
    var local := Rank(keys, k) - ix.capacityOffsets[m];
    DivMono(0, local, span);
    DivMono(local, ix.models[m].capacity, span);
  }

  lemma HomeMonotone(ix: Index, keys: seq<int>, epsilon: nat, span: nat, k: nat, k': nat)
    requires Trained(ix, keys, epsilon, span) && k <= k'
    ensures Home(ix, keys, k, span) <= Home(ix, keys, k', span)
  {
    var m, m' := ModelForKey(ix, k), ModelForKey(ix, k');
    ModelKeysSorted(ix, keys, epsilon, span);
    RankMono(ix.modelKeys, k, k');
    RankMono(keys, k, k');
    HomeInSegment(ix, keys, epsilon, span, k);
    HomeInSegment(ix, keys, epsilon, span, k');
    if m < m' {
      OffsetsGrow(ix, keys, epsilon, span, m + 1, m');
    } else {
      DivMono(Rank(keys, k) - ix.capacityOffsets[m], Rank(keys, k') - ix.capacityOffsets[m], span);
    }
  }

  lemma LoadedRank(keys: seq<int>, i: nat)
    requires Increasing(keys) && i < |keys|
    ensures Sorted(keys) && Rank(keys, keys[i]) == i
  {
    RankUnique(keys, keys[i], i);
  }

  /** No leaf is the home of more loaded keys than it has slots. */
  lemma HomesSpread(ix: Index, keys: seq<int>, epsilon: nat, span: nat, i: nat, j: nat)
    requires Trained(ix, keys, epsilon, span) && i < j < |keys|
    requires Home(ix, keys, keys[i], span) == Home(ix, keys, keys[j], span)
    ensures j - i < span
  {
    var m, m' := ModelForKey(ix, keys[i]), ModelForKey(ix, keys[j]);
    LoadedRank(keys, i);
    LoadedRank(keys, j);
    ModelKeysSorted(ix, keys, epsilon, span);
    RankMono(ix.modelKeys, keys[i], keys[j]);
    HomeInSegment(ix, keys, epsilon, span, keys[i]);
    HomeInSegment(ix, keys, epsilon, span, keys[j]);
    if m < m' {
      OffsetsGrow(ix, keys, epsilon, span, m + 1, m');
    } else {
      SameQuotient(i - ix.capacityOffsets[m], j - ix.capacityOffsets[m], span);
    }
  }

  /** The leaves read for a range hold the home of every insertable key in it. */
  lemma RangePredicted(ix: Index, keys: seq<int>, epsilon: nat, span: nat, from: nat, to: nat, k: nat)
    requires Trained(ix, keys, epsilon, span) && from <= k < to && Insertable(ix, keys, k, span)
    ensures LeafRange(ix, from, epsilon, span).0 <= Home(ix, keys, k, span) <= LeafRange(ix, to, epsilon, span).1
  {
    HomePredicted(ix, keys, epsilon, span, from);
    HomeMonotone(ix, keys, epsilon, span, from, k);
    HomePredicted(ix, keys, epsilon, span, to);
    if Insertable(ix, keys, to, span) {
      HomeMonotone(ix, keys, epsilon, span, k, to);
    } else {
      var last := keys[|keys| - 1];
      HomeMonotone(ix, keys, epsilon, span, k, last);
      LastHome(ix, keys, epsilon, span, to);
    }
  }

  /** Past the largest key the prediction ends at that key's home. */
  lemma LastHome(ix: Index, keys: seq<int>, epsilon: nat, span: nat, k: nat)
    requires Trained(ix, keys, epsilon, span) && k > keys[|keys| - 1]
    ensures LeafRange(ix, k, epsilon, span).1 == Home(ix, keys, keys[|keys| - 1], span)
  {
    var last, n := keys[|keys| - 1], |ix.models|;
    LastRange(ix, keys, epsilon, span, k);
    LastModel(ix, keys, epsilon, span, last);
    LastRank(keys);
    RankInSegment(ix, keys, epsilon, span, k);
    hide Model.PredictRange, IsRank, Model.Fits, Stabbable;
  }

  lemma LastRank(keys: seq<int>)
    requires |keys| > 0 && Increasing(keys)
    ensures Rank(keys, keys[|keys| - 1]) == |keys| - 1
  {
    assert IsRank(keys, keys[|keys| - 1], |keys| - 1);
    RankUnique(keys, keys[|keys| - 1], |keys| - 1);
  }

  lemma LastRange(ix: Index, keys: seq<int>, epsilon: nat, span: nat, k: nat)
    requires Trained(ix, keys, epsilon, span) && k > keys[|keys| - 1]
    ensures var n := |ix.models|;
            LeafRange(ix, k, epsilon, span).1 == ix.leafIdxOffsets[n - 1] + (ix.models[n - 1].capacity - 1) / span
  {
    RankInSegment(ix, keys, epsilon, span, k);
    var n := |ix.models|;
    var from := ix.capacityOffsets[n - 1];
    hide Trained, IsRank;
    assert keys[from..ix.capacityOffsets[n]] == keys[from..];
    WindowHoldsRank(ix.models[n - 1], keys[from..], epsilon, k, |keys| - from);
  }

  lemma LastModel(ix: Index, keys: seq<int>, epsilon: nat, span: nat, k: int)
    requires Trained(ix, keys, epsilon, span) && k == keys[|keys| - 1]
    ensures ModelForKey(ix, k) == |ix.models| - 1
  {
    var m := ModelForKey(ix, k);
    RankInSegment(ix, keys, epsilon, span, k);
    RankIsRank(keys, k);
    if m + 1 < |ix.models| {
      OffsetsGrow(ix, keys, epsilon, span, m + 1, |ix.models|);
    }
  }

  // ---- the condition is not idle ------------------------------------------

  /** Keys 0, 1, 3, 4 with Epsilon 1 and two slots per leaf make two segments
      that fill whole leaves, so the assertion fails for key 5. */
  lemma PastTheEnd()
    ensures var keys := [0, 1, 3, 4];
            var ix := Index([1, 4], [Model(Line(1.0, 0.0), 2), Model(Line(1.0, -3.0), 2)], [0, 2, 4], [0, 2, 4]);
            && Trained(ix, keys, 1, 2) && !Insertable(ix, keys, 5, 2)
            && LeafRange(ix, 5, 1, 2).1 < Home(ix, keys, 5, 2)
  {
    var keys := [0, 1, 3, 4];
    var ix := Index([1, 4], [Model(Line(1.0, 0.0), 2), Model(Line(1.0, -3.0), 2)], [0, 2, 4], [0, 2, 4]);
    TwoSegments(ix, keys);
    hide Trained, LeafRange, Home;
    HomePredicted(ix, keys, 1, 2, 5);
  }

  lemma TwoSegments(ix: Index, keys: seq<int>)
    requires keys == [0, 1, 3, 4]
    requires ix == Index([1, 4], [Model(Line(1.0, 0.0), 2), Model(Line(1.0, -3.0), 2)], [0, 2, 4], [0, 2, 4])
    ensures Trained(ix, keys, 1, 2)
  {
    assert keys[0..2] == [0, 1] && keys[2..4] == [3, 4];
    FirstSegmentEnds(keys);
    hide Stabbable, Points;
    assert SegmentOk(ix, keys, 0, 1, 2) && SegmentOk(ix, keys, 1, 1, 2);
  }

  lemma FirstSegmentEnds(keys: seq<int>)
    requires keys == [0, 1, 3, 4]
    ensures !Stabbable(Points(keys, 0, 3, 0))
  {
    var s := Points(keys, 0, 3, 0);
    assert s[0] == Clipped(0, 0, 0) && s[1] == Clipped(1, 1, 0) && s[2] == Clipped(3, 2, 0);
    forall l: Line
      ensures !Stabs(l, s)
    {
    }
  }
}
