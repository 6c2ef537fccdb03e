/** The trained index as a value, and what training guarantees about it. */
module Index {
  import opened Lines
  import opened Stabbing
  import opened Plr
  import opened Segment
  import opened BranchlessSearch
  import opened SubModel

  /** The vectors of the index; both offset vectors have one entry more. */
  datatype Index = Index(modelKeys: seq<int>, models: seq<Model>,
                         leafIdxOffsets: seq<nat>, capacityOffsets: seq<nat>)

  /** The intervals of the keys `from..to`, each at its local position. */
  function Points(keys: seq<int>, from: nat, to: nat, epsilon: nat): (s: seq<Interval>)
    requires from <= to <= |keys| <= MAX_Y && epsilon <= MAX_Y
    ensures |s| == to - from
    ensures forall j :: 0 <= j < |s| ==> s[j] == Clipped(keys[from + j], j, epsilon)
  {
    seq(to - from, j requires 0 <= j < to - from => Clipped(keys[from + j], j, epsilon))
  }

  /** Segment i: its offsets, its greatest key, its line, and that it could
      not have been extended by the next key. */
  ghost predicate SegmentOk(ix: Index, keys: seq<int>, i: nat, epsilon: nat, span: nat)
    requires i < |ix.models| == |ix.modelKeys| && |ix.leafIdxOffsets| == |ix.capacityOffsets| == |ix.models| + 1
    requires |keys| <= MAX_Y && 0 < epsilon <= MAX_Y && span > 0
  {
    var m, from, to := ix.models[i], ix.capacityOffsets[i], ix.capacityOffsets[i + 1];
    && to == from + m.capacity && from < to <= |keys|
    && ix.leafIdxOffsets[i + 1] == ix.leafIdxOffsets[i] + m.TableSize(span)
    && ix.modelKeys[i] == keys[to - 1]
    && m.Fits(keys[from..to], epsilon)
    && (to < |keys| ==> !Stabbable(Points(keys, from, to + 1, epsilon - 1)))
  }

  /** The segments so far cover the first n keys. */
  ghost predicate CoversKeys(ix: Index, keys: seq<int>, n: nat, epsilon: nat, span: nat) {
    && |keys| <= MAX_Y && 0 < epsilon <= MAX_Y && span > 0 && Increasing(keys) && n <= |keys|
    && |ix.models| == |ix.modelKeys| && |ix.leafIdxOffsets| == |ix.capacityOffsets| == |ix.models| + 1
    && ix.capacityOffsets[0] == 0 && ix.leafIdxOffsets[0] == 0 && ix.capacityOffsets[|ix.models|] == n
    && (forall i :: 0 <= i < |ix.models| ==> ix.models[i].capacity > 0)
    && (forall i :: 0 <= i < |ix.models| ==> SegmentOk(ix, keys, i, epsilon, span))
  }

  lemma Bounds(ix: Index, keys: seq<int>, n: nat, epsilon: nat, span: nat)
    requires CoversKeys(ix, keys, n, epsilon, span)
    ensures |keys| <= MAX_Y && 0 < epsilon <= MAX_Y && span > 0 && Increasing(keys)
  {
  }

  /** What training leaves behind. */
  ghost predicate Trained(ix: Index, keys: seq<int>, epsilon: nat, span: nat) {
    && CoversKeys(ix, keys, |keys|, epsilon, span)
    && |ix.models| > 0 && |keys| > 0
    && (forall i :: 0 <= i < |keys| ==> keys[i] >= 0)
  }

  /** Between two leaf offsets lie the leaves that hold the segment's keys, and
      one whole leaf more. */
  lemma LeavesPerSegment(ix: Index, keys: seq<int>, n: nat, epsilon: nat, span: nat, i: nat)
    requires CoversKeys(ix, keys, n, epsilon, span) && i < |ix.models|
    ensures ix.leafIdxOffsets[i] <= ix.leafIdxOffsets[i + 1] && ix.capacityOffsets[i] <= ix.capacityOffsets[i + 1]
    ensures var count := ix.leafIdxOffsets[i + 1] - ix.leafIdxOffsets[i];
            var size := ix.capacityOffsets[i + 1] - ix.capacityOffsets[i];
            (count - 2) * span < size <= (count - 1) * span
  {
    hide Model.TableSize, Model.Fits, Stabbable;
    assert SegmentOk(ix, keys, i, epsilon, span);
    TableSizeFits(ix.models[i], span);
  }

  function Appended(ix: Index, key: int, m: Model, span: nat): Index
    requires |ix.leafIdxOffsets| > 0 && |ix.capacityOffsets| > 0 && span > 0
  {
    Index(ix.modelKeys + [key], ix.models + [m],
          ix.leafIdxOffsets + [ix.leafIdxOffsets[|ix.leafIdxOffsets| - 1] + m.TableSize(span)],
          ix.capacityOffsets + [ix.capacityOffsets[|ix.capacityOffsets| - 1] + m.capacity])
  }

  lemma AppendCovers(ix: Index, keys: seq<int>, n: nat, m: Model, epsilon: nat, span: nat)
    requires CoversKeys(ix, keys, n, epsilon, span) && n + m.capacity <= |keys|
    requires m.Fits(keys[n..n + m.capacity], epsilon)
    requires n + m.capacity < |keys| ==> !Stabbable(Points(keys, n, n + m.capacity + 1, epsilon - 1))
    ensures CoversKeys(Appended(ix, keys[n + m.capacity - 1], m, span), keys, n + m.capacity, epsilon, span)
  {
    var jx := Appended(ix, keys[n + m.capacity - 1], m, span);
    assert m.capacity > 0;
    hide Model.Fits, Stabbable, Increasing, Model.TableSize;
    forall i | 0 <= i < |jx.models|
      ensures SegmentOk(jx, keys, i, epsilon, span) && jx.models[i].capacity > 0
    {
      if i < |ix.models| {
        assert SegmentOk(ix, keys, i, epsilon, span);
        SegmentKept(ix, jx, keys, i, epsilon, span);
      }
    }
  }

  lemma SegmentKept(ix: Index, jx: Index, keys: seq<int>, i: nat, epsilon: nat, span: nat)
    requires i < |ix.models| == |ix.modelKeys| && |ix.leafIdxOffsets| == |ix.capacityOffsets| == |ix.models| + 1
    requires i < |jx.models| == |jx.modelKeys| && |jx.leafIdxOffsets| == |jx.capacityOffsets| == |jx.models| + 1
    requires |keys| <= MAX_Y && 0 < epsilon <= MAX_Y && span > 0 && SegmentOk(ix, keys, i, epsilon, span)
    requires jx.models[i] == ix.models[i] && jx.modelKeys[i] == ix.modelKeys[i]
    requires jx.leafIdxOffsets[i..i + 2] == ix.leafIdxOffsets[i..i + 2]
    requires jx.capacityOffsets[i..i + 2] == ix.capacityOffsets[i..i + 2]
    ensures SegmentOk(jx, keys, i, epsilon, span)
  {
    hide Model.Fits, Stabbable, Model.TableSize;
    assert jx.leafIdxOffsets[i..i + 2][0] == ix.leafIdxOffsets[i..i + 2][0];
    assert jx.leafIdxOffsets[i..i + 2][1] == ix.leafIdxOffsets[i..i + 2][1];
    assert jx.capacityOffsets[i..i + 2][0] == ix.capacityOffsets[i..i + 2][0];
    assert jx.capacityOffsets[i..i + 2][1] == ix.capacityOffsets[i..i + 2][1];
  }

  /** A finished segment yields a model that fits its keys. */
  lemma SegmentFits(g: CanonicalSegment, keys: seq<int>, from: nat, to: nat, epsilon: nat)
    requires |keys| <= MAX_Y && 0 < epsilon <= MAX_Y && from < to <= |keys| && Increasing(keys)
    requires g.Of(Points(keys, from, to, epsilon - 1))
    ensures (g.OnePoint() || g.rectangle.Proper()) && Model(g.FinalLine(), to - from).Fits(keys[from..to], epsilon)
  {
    hide CanonicalSegment.FinalLine, CanonicalSegment.Of, CanonicalSegment.OnePoint, Line.At;
    var s := Points(keys, from, to, epsilon - 1);
    FinalStabs(g, s);
    FinalRises(g, s);
    StabbedWithin(g.FinalLine(), keys, from, to, epsilon - 1);
  }

  /** A line through clipped intervals is within epsilon of the positions. */
  lemma StabbedWithin(l: Line, keys: seq<int>, from: nat, to: nat, epsilon: nat)
    requires |keys| <= MAX_Y && epsilon <= MAX_Y && from <= to <= |keys|
    requires Stabs(l, Points(keys, from, to, epsilon))
    ensures forall j :: 0 <= j < to - from ==>
              (j - epsilon) as real <= l.At(keys[from..to][j]) <= (j + epsilon) as real
  {
    var s := Points(keys, from, to, epsilon);
    forall j | 0 <= j < to - from
      ensures (j - epsilon) as real <= l.At(keys[from..to][j]) <= (j + epsilon) as real
    {
      assert l.Above(s[j].Lo()) && l.Below(s[j].Hi());
    }
  }
}
