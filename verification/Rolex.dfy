/** Training the index from the loaded keys, one segment after another. */
module Rolex {
  import opened Stabbing
  import opened Plr
  import opened Segment
  import opened BranchlessSearch
  import opened Sorting
  import opened SubModel
  import opened Index
  import opened Routing

  class Rolex {
    const epsilon: nat
    const span: nat
    var modelKeys: seq<int>
    var models: seq<Model>
    var leafIdxOffsets: seq<nat>
    var capacityOffsets: seq<nat>

    function View(): Index
      reads this
    {
      Index(modelKeys, models, leafIdxOffsets, capacityOffsets)
    }

    constructor (keys: seq<int>, epsilon: nat, span: nat)
      requires 0 < epsilon <= MAX_Y && span > 0 && Increasing(keys) && 0 < |keys| <= MAX_Y
      requires forall i :: 0 <= i < |keys| ==> keys[i] >= 0
      ensures this.epsilon == epsilon && this.span == span && Trained(View(), keys, epsilon, span)
    {
      this.epsilon, this.span := epsilon, span;
      modelKeys, models := [], [];
      leafIdxOffsets, capacityOffsets := [0], [0];
      new;
      Train(keys);
    }

    /** Cut the keys into segments, each closed by the first key that no line
        can take in. */
    method Train(keys: seq<int>)
      requires Increasing(keys) && 0 < |keys| <= MAX_Y && forall i :: 0 <= i < |keys| ==> keys[i] >= 0
      requires 0 < epsilon <= MAX_Y && CoversKeys(View(), keys, 0, epsilon, span)
      modifies `modelKeys, `models, `leafIdxOffsets, `capacityOffsets
      ensures Trained(View(), keys, epsilon, span)
    {
      hide PLR.Valid, CoversKeys, Stabbable, Clipped, Points;
      var opt := Start(keys, 0);
      var pos, begin := 0, 0;
      for i := 1 to |keys|
        invariant fresh(opt) && opt.Valid() && opt.epsilon == epsilon - 1
        invariant opt.pointsInHull > 0 && opt.lastX == keys[i - 1]
        invariant 0 <= begin < i && pos == i - 1 - begin
        invariant opt.accepted == Points(keys, begin, i, epsilon - 1)
        invariant CoversKeys(View(), keys, begin, epsilon, span)
      {
        pos := pos + 1;
        NextPoint(keys, begin, i, epsilon - 1);
        var added := opt.AddPoint(keys[i], pos);
        if added == Refused {
          Close(opt, keys, begin, pos);
          begin := begin + pos;
          pos := 0;
          opt := Start(keys, i);
        }
      }
      Close(opt, keys, begin, pos + 1);
    }

    /** A new fit that holds the key i at position 0. */
    method Start(keys: seq<int>, i: nat) returns (opt: PLR)
      requires 0 < epsilon <= MAX_Y && i < |keys| <= MAX_Y
      ensures fresh(opt) && opt.Valid() && opt.epsilon == epsilon - 1
      ensures opt.pointsInHull > 0 && opt.lastX == keys[i]
      ensures opt.accepted == Points(keys, i, i + 1, epsilon - 1)
    {
      hide PLR.Valid;
      opt := new PLR(epsilon - 1);
      FirstPoint(keys, i, epsilon - 1);
      var added := opt.AddPoint(keys[i], 0);
    }

    /** Turn the fit of `size` keys into a model. */
    method Close(opt: PLR, keys: seq<int>, begin: nat, size: nat)
      requires opt.Valid() && size > 0 && begin + size <= |keys| && Increasing(keys)
      requires CoversKeys(View(), keys, begin, epsilon, span)
      requires opt.accepted == Points(keys, begin, begin + size, epsilon - 1)
      requires begin + size < |keys| ==> !Stabbable(Points(keys, begin, begin + size + 1, epsilon - 1))
      modifies `modelKeys, `models, `leafIdxOffsets, `capacityOffsets
      ensures CoversKeys(View(), keys, begin + size, epsilon, span) && |models| > 0
    {
      hide *;
      Bounds(View(), keys, begin, epsilon, span);
      var g := opt.GetSegment();
      SegmentFits(g, keys, begin, begin + size, epsilon);
      AppendModel(g, keys, begin, size);
    }

    method AppendModel(g: CanonicalSegment, keys: seq<int>, begin: nat, size: nat)
      requires (g.OnePoint() || g.rectangle.Proper()) && begin + size <= |keys|
      requires CoversKeys(View(), keys, begin, epsilon, span)
      requires Model(g.FinalLine(), size).Fits(keys[begin..begin + size], epsilon)
      requires begin + size < |keys| ==> !Stabbable(Points(keys, begin, begin + size + 1, epsilon - 1))
      modifies `modelKeys, `models, `leafIdxOffsets, `capacityOffsets
      ensures CoversKeys(View(), keys, begin + size, epsilon, span) && |models| == old(|models|) + 1
      ensures var n := old(|models|);
              && |leafIdxOffsets| == n + 2 && leafIdxOffsets[..n + 1] == old(leafIdxOffsets)
              && leafIdxOffsets[n] <= leafIdxOffsets[n + 1]
              && var count := leafIdxOffsets[n + 1] - leafIdxOffsets[n];
                 (count - 2) * span < size <= (count - 1) * span
    {
      hide Points, Increasing;
      var model := Model(g.FinalLine(), size);
      ghost var ix := View();
      AppendCovers(ix, keys, begin, model, epsilon, span);
      assert |ix.leafIdxOffsets| == |ix.capacityOffsets| == |models| + 1 && model.capacity > 0;
      hide Model.TableSize, CoversKeys, Stabbable, Model.Fits, CanonicalSegment.FinalLine;
      modelKeys := modelKeys + [keys[begin + size - 1]];
      models := models + [model];
      var leafNumSum, capacitySum := leafIdxOffsets[|leafIdxOffsets| - 1], capacityOffsets[|capacityOffsets| - 1];
      leafIdxOffsets := leafIdxOffsets + [leafNumSum + model.TableSize(span)];
      capacityOffsets := capacityOffsets + [capacitySum + model.capacity];
      assert View() == Appended(ix, keys[begin + size - 1], model, span);
      TableSizeFits(model, span);
    }

    /** First and last leaf within the key's segment, and the segment's offsets. */
    method GetLeafRange(key: nat, ghost keys: seq<int>) returns (l: nat, r: nat, leafOffset: nat, capacityOffset: nat)
      requires Trained(View(), keys, epsilon, span) && |models| >= 2
      ensures (leafOffset + l, leafOffset + r) == LeafRange(View(), key, epsilon, span)
      ensures leafOffset == leafIdxOffsets[ModelForKey(View(), key)]
      ensures capacityOffset == capacityOffsets[ModelForKey(View(), key)]
    {
      ModelKeysSorted(View(), keys, epsilon, span);
      var idx := BinarySearch(modelKeys, key);
      RankUnique(modelKeys, key, idx);
      var id := if idx < |models| then idx else |models| - 1;
      var (lo, hi) := models[id].PredictRange(key, epsilon, span);
      return lo, hi, leafIdxOffsets[id], capacityOffsets[id];
    }
  }

  lemma FirstPoint(keys: seq<int>, i: nat, epsilon: nat)
    requires i < |keys| <= MAX_Y && epsilon <= MAX_Y
    ensures [] + [Clipped(keys[i], 0, epsilon)] == Points(keys, i, i + 1, epsilon)
    ensures Stabbable([] + [Clipped(keys[i], 0, epsilon)])
  {
    OneStabbed(Clipped(keys[i], 0, epsilon));
  }

  lemma NextPoint(keys: seq<int>, begin: nat, i: nat, epsilon: nat)
    requires begin < i < |keys| <= MAX_Y && epsilon <= MAX_Y
    ensures Points(keys, begin, i, epsilon) + [Clipped(keys[i], i - begin, epsilon)] ==
              Points(keys, begin, i + 1, epsilon)
  {
  }
}
