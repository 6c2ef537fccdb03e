/** The per-client cache: the loaded keys, sorted and without duplicates, and
    the index trained on them. */
module RolexCache {
  import opened Plr
  import opened Index
  import opened Routing
  import opened Sorting
  import Rolex

  class RolexCache {
    var intKeys: seq<int>
    var rolex: Rolex.Rolex

    ghost predicate Valid()
      reads this, rolex
    {
      Trained(rolex.View(), intKeys, rolex.epsilon, rolex.span)
    }

    constructor (load: seq<int>, epsilon: nat, span: nat)
      requires 0 < epsilon <= MAX_Y && span > 0 && 0 < |load| <= MAX_Y
      requires forall i :: 0 <= i < |load| ==> load[i] >= 0
      ensures Valid() && fresh(rolex) && rolex.epsilon == epsilon && rolex.span == span
      ensures forall x :: x in intKeys <==> x in load
    {
      var keys := SortUnique(load);
      forall i | 0 <= i < |keys|
        ensures keys[i] >= 0
      {
        assert keys[i] in keys;
      }
      intKeys := keys;
      rolex := new Rolex.Rolex(keys, epsilon, span);
    }

    method SearchFromCache(key: nat) returns (l: nat, r: nat)
      requires Valid() && |rolex.models| >= 2
      ensures (l, r) == LeafRange(rolex.View(), key, rolex.epsilon, rolex.span)
      ensures Insertable(rolex.View(), intKeys, key, rolex.span) ==>
                l <= Home(rolex.View(), intKeys, key, rolex.span) <= r
      ensures l <= r && r - l <= (2 * rolex.epsilon + 2) / rolex.span + 1
    {
      RangeNear(rolex.View(), intKeys, rolex.epsilon, rolex.span, key);
      HomePredicted(rolex.View(), intKeys, rolex.epsilon, rolex.span, key);
      var lo, hi, leafOffset, _ := rolex.GetLeafRange(key, intKeys);
      return leafOffset + lo, leafOffset + hi;
    }

    /** `holds` is the assertion on the insertion leaf. */
    method SearchFromCacheForInsert(key: nat) returns (l: nat, r: nat, insertIdx: int, holds: bool)
      requires Valid() && |rolex.models| >= 2
      ensures (l, r) == LeafRange(rolex.View(), key, rolex.epsilon, rolex.span)
      ensures insertIdx == Home(rolex.View(), intKeys, key, rolex.span)
      ensures holds <==> l <= insertIdx <= r
      ensures l <= r && r - l <= (2 * rolex.epsilon + 2) / rolex.span + 1
      ensures holds <==>
                key <= intKeys[|intKeys| - 1] || rolex.models[|rolex.models| - 1].capacity % rolex.span != 0
    {
      RangeNear(rolex.View(), intKeys, rolex.epsilon, rolex.span, key);
      HomePredicted(rolex.View(), intKeys, rolex.epsilon, rolex.span, key);
      var lo, hi, leafOffset, capacityOffset := rolex.GetLeafRange(key, intKeys);
      var globalKeyIdx := Rank(intKeys, key);
      var idx := (globalKeyIdx - capacityOffset) / rolex.span;
      holds := idx >= lo && idx <= hi;
      return leafOffset + lo, leafOffset + hi, leafOffset + idx, holds;
    }

    method SearchRangeFromCache(from: nat, to: nat) returns (l: nat, r: nat)
      requires Valid() && |rolex.models| >= 2
      ensures l == LeafRange(rolex.View(), from, rolex.epsilon, rolex.span).0
      ensures r == LeafRange(rolex.View(), to, rolex.epsilon, rolex.span).1
      ensures forall k: nat :: from <= k < to && Insertable(rolex.View(), intKeys, k, rolex.span) ==>
                l <= Home(rolex.View(), intKeys, k, rolex.span) <= r
    {
      var lo, _, leafOffsetFrom, _ := rolex.GetLeafRange(from, intKeys);
      var _, hi, leafOffsetTo, _ := rolex.GetLeafRange(to, intKeys);
      forall k: nat | from <= k < to && Insertable(rolex.View(), intKeys, k, rolex.span)
        ensures leafOffsetFrom + lo <= Home(rolex.View(), intKeys, k, rolex.span) <= leafOffsetTo + hi
      {
        RangePredicted(rolex.View(), intKeys, rolex.epsilon, rolex.span, from, to, k);
      }
      return leafOffsetFrom + lo, leafOffsetTo + hi;
    }
  }
}
