/** Splitting a hopscotch leaf that could not take a key, at a key chosen so
    that the pending key fits afterwards. */
module HopSplit {
  import opened LeafSlots
  import opened Hopscotch
  import opened HopInsert
  import opened Sorting
  import opened BranchlessSearch

  /** Follow the hops from j without moving anything. */
  method Simulate(t: Table, a: array<Entry>, g: int, j: int) returns (ok: bool)
    requires 0 < t.span == a.Length && t.neighbor > 0
    ensures ok <==> Reaches(t, a[..], g, j)
  {
    var i := j;
    while i >= g + t.neighbor
      invariant Reaches(t, a[..], g, j) <==> Reaches(t, a[..], g, i)
      decreases i - g
    {
      var h, _ := HopTarget(t, a, i);
      if h == i {
        return false;
      }
      i := h;
    }
    return true;
  }

  /** Logical index i is critical: occupied with everything before it, and if
      it were empty, hopping from it would succeed. */
  ghost predicate Critical(t: Table, rec: seq<Entry>, g: int, i: int)
    requires 0 < t.span == |rec| && t.neighbor > 0
  {
    g <= i < FirstEmpty(t, rec, g, g + t.span) && Reaches(t, rec, g, i)
  }

  /** The keys at the critical indices. */
  ghost predicate CriticalKeysAre(t: Table, rec: seq<Entry>, g: int, crit: seq<int>)
    requires 0 < t.span == |rec| && t.neighbor > 0
  {
    && (forall c :: c in crit ==> exists i :: Critical(t, rec, g, i) && rec[t.Slot(i)].key == c)
    && (forall i :: Critical(t, rec, g, i) ==> rec[t.Slot(i)].key in crit)
    && (forall x, y :: 0 <= x < y < |crit| ==> crit[x] != crit[y])
  }

  // ---- a freed critical slot is enough ------------------------------------

  /** Some keys of `rec` have been taken out. */
  ghost predicate Thinned(rec: seq<Entry>, out: seq<Entry>) {
    |rec| == |out| && forall s :: 0 <= s < |rec| ==> out[s].key == rec[s].key || out[s].key == NULL_KEY
  }

  lemma FreedSlotSuffices(t: Table, rec: seq<Entry>, out: seq<Entry>, k: nat, i: int)
    requires t.Valid() && |rec| == t.span && Thinned(rec, out)
    requires Critical(t, rec, t.hash(k), i) && out[t.Slot(i)].key == NULL_KEY
    ensures CanInsert(t, out, k)
  {
    var g := t.hash(k);
    var f := FirstEmpty(t, out, g, g + t.span);
    assert f <= i;
    ReachesPrefix(t, rec, g, f, i);
    ReachesLocal(t, rec, out, g, f);
  }

  /** A slot before the first empty one is critical exactly if emptying it alone
      lets the insert succeed. */
  lemma CriticalExactly(t: Table, rec: seq<Entry>, out: seq<Entry>, k: nat, i: int)
    requires t.Valid() && |rec| == |out| == t.span && t.hash(k) <= i < FirstEmpty(t, rec, t.hash(k), t.hash(k) + t.span)
    requires forall s :: 0 <= s < t.span ==> out[s].key == if s == t.Slot(i) then NULL_KEY else rec[s].key
    ensures Critical(t, rec, t.hash(k), i) <==> CanInsert(t, out, k)
  {
    hide Reaches, Table.Slot;
    var g := t.hash(k);
    forall u | g <= u < i
      ensures out[t.Slot(u)].key == rec[t.Slot(u)].key != NULL_KEY
    {
      SlotsDiffer(t, g, u, i);
    }
    var f := FirstEmpty(t, out, g, g + t.span);
    assert f == i;
    ReachesLocal(t, rec, out, g, i);
  }

  /** After a failed insert there is at least one critical key. */
  lemma SomeCritical(t: Table, rec: seq<Entry>, k: nat)
    requires t.Valid() && |rec| == t.span && !CanInsert(t, rec, k)
    ensures Critical(t, rec, t.hash(k), t.hash(k))
  {
  }

  /** The keys below the split key stay, the others go. */
  ghost predicate SplitAt(rec: seq<Entry>, left: seq<Entry>, right: seq<Entry>, split: int) {
    && |rec| == |left| == |right|
    && (forall s :: 0 <= s < |rec| ==>
          && left[s].key == (if rec[s].key >= split then NULL_KEY else rec[s].key)
          && (left[s].key != NULL_KEY ==> left[s].value == rec[s].value))
    && (forall s :: 0 <= s < |rec| ==>
          && right[s].key == (if rec[s].key >= split then rec[s].key else NULL_KEY)
          && (right[s].key != NULL_KEY ==> right[s].value == rec[s].value))
  }

  lemma SplitThins(rec: seq<Entry>, left: seq<Entry>, right: seq<Entry>, split: int)
    requires SplitAt(rec, left, right, split)
    ensures Thinned(rec, left) && Thinned(rec, right)
    ensures forall s :: 0 <= s < |rec| && rec[s].key >= split ==> left[s].key == NULL_KEY
    ensures forall s :: 0 <= s < |rec| && rec[s].key < split ==> right[s].key == NULL_KEY
  {
  }

  lemma FreedKeySuffices(t: Table, rec: seq<Entry>, out: seq<Entry>, k: nat, crit: seq<int>, c: int)
    requires t.Valid() && |rec| == t.span && Thinned(rec, out)
    requires CriticalKeysAre(t, rec, t.hash(k), crit) && c in crit
    requires forall s :: 0 <= s < |rec| && rec[s].key == c ==> out[s].key == NULL_KEY
    ensures CanInsert(t, out, k)
  {
    hide CanInsert, Critical, Thinned;
    var i :| Critical(t, rec, t.hash(k), i) && rec[t.Slot(i)].key == c;
    FreedSlotSuffices(t, rec, out, k, i);
  }

  /** A split key that is not the least of the critical keys and the pending
      key makes room for the pending key on whichever side it goes to. */
  lemma PendingFits(t: Table, rec: seq<Entry>, left: seq<Entry>, right: seq<Entry>, k: nat, crit: seq<int>, split: int)
    requires t.Valid() && |rec| == t.span && SplitAt(rec, left, right, split) && split > NULL_KEY
    requires CriticalKeysAre(t, rec, t.hash(k), crit)
    requires (split in crit || split == k) && exists c :: (c in crit || c == k) && c < split
    ensures k < split ==> CanInsert(t, left, k)
    ensures k >= split ==> CanInsert(t, right, k)
  {
    SplitThins(rec, left, right, split);
    hide *;
    if k < split {
      FreedKeySuffices(t, rec, left, k, crit, split);
    } else {
      var c :| (c in crit || c == k) && c < split;
      FreedKeySuffices(t, rec, right, k, crit, c);
    }
  }

  // ---- choosing the split key ---------------------------------------------

  method CriticalKeys(t: Table, a: array<Entry>, g: int) returns (crit: seq<int>)
    requires t.Valid() && a.Length == t.span && 0 <= g < t.span && Distinct(a[..])
    ensures CriticalKeysAre(t, a[..], g, crit) && forall c :: c in crit ==> c > NULL_KEY && Has(a[..], c)
  {
    ghost var rec := a[..];
    ghost var end := FirstEmpty(t, rec, g, g + t.span);
    crit := [];
    var i := g;
    while i < g + t.span
      invariant g <= i <= end
      invariant forall c :: c in crit ==> exists u :: g <= u < i && Critical(t, rec, g, u) && rec[t.Slot(u)].key == c
      invariant forall u :: g <= u < i && Critical(t, rec, g, u) ==> rec[t.Slot(u)].key in crit
      invariant forall x, y :: 0 <= x < y < |crit| ==> crit[x] != crit[y]
      decreases g + t.span - i
    {
      if a[t.Slot(i)].key == NULL_KEY {
        break;
      }
      var ok := Simulate(t, a, g, i);
      if ok {
        FreshCritical(t, rec, g, i, crit);
        crit := crit + [a[t.Slot(i)].key];
      }
      i := i + 1;
    }
    assert i == end;
    forall c | c in crit
      ensures c > NULL_KEY && Has(rec, c)
    {
      var u :| g <= u < i && Critical(t, rec, g, u) && rec[t.Slot(u)].key == c;
    }
  }

  lemma FreshCritical(t: Table, rec: seq<Entry>, g: int, i: int, crit: seq<int>)
    requires t.Valid() && |rec| == t.span && 0 <= g < t.span && Distinct(rec) && g <= i < g + t.span
    requires rec[t.Slot(i)].key != NULL_KEY
    requires forall c :: c in crit ==> exists u :: g <= u < i && Critical(t, rec, g, u) && rec[t.Slot(u)].key == c
    ensures rec[t.Slot(i)].key !in crit
  {
    forall u | g <= u < i
      ensures rec[t.Slot(u)].key != rec[t.Slot(i)].key
    {
      SlotsDiffer(t, g, u, i);
    }
  }

  /** The median of the critical keys and the pending key. */
  method GetSplitKey(t: Table, a: array<Entry>, k: nat)
    returns (split: int, ghost crit: seq<int>, ghost order: seq<int>)
    requires t.Valid() && a.Length == t.span && Distinct(a[..]) && k != NULL_KEY && !Has(a[..], k)
    requires !CanInsert(t, a[..], k)
    ensures CriticalKeysAre(t, a[..], t.hash(k), crit)
    ensures Increasing(order) && |order| == |crit| + 1 >= 2 && forall c :: c in order <==> c in crit || c == k
    ensures split == order[|order| / 2] > NULL_KEY
  {
    var keys := CriticalKeys(t, a, t.hash(k));
    crit := keys;
    SomeCritical(t, a[..], k);
    assert k !in keys;
    keys := keys + [k];
    var sorted := SortUnique(keys);
    order := sorted;
    split := sorted[|keys| / 2];
    assert split in keys;
  }

  /** The middle one of the critical keys and the pending key, in order. */
  ghost predicate IsSplitKey(t: Table, rec: seq<Entry>, k: nat, split: int)
    requires t.Valid() && |rec| == t.span
  {
    exists crit, order :: MiddleOf(t, rec, k, split, crit, order)
  }

  ghost predicate MiddleOf(t: Table, rec: seq<Entry>, k: nat, split: int, crit: seq<int>, order: seq<int>)
    requires t.Valid() && |rec| == t.span
  {
    && CriticalKeysAre(t, rec, t.hash(k), crit) && Increasing(order) && |order| == |crit| + 1
    && (forall c :: c in order <==> c in crit || c == k) && split == order[|order| / 2]
  }

  // ---- moving the upper keys ----------------------------------------------

  /** The first i slots have been dealt with. */
  ghost predicate SplitUpTo(was: seq<Entry>, a: seq<Entry>, syn: seq<Entry>, split: int, i: nat) {
    && |was| == |a| == |syn|
    && (forall s :: 0 <= s < |was| ==>
          && a[s].key == (if s < i && was[s].key >= split then NULL_KEY else was[s].key)
          && (a[s].key != NULL_KEY ==> a[s].value == was[s].value))
    && (forall s :: 0 <= s < |was| ==>
          && syn[s].key == (if s < i && was[s].key >= split then was[s].key else NULL_KEY)
          && (syn[s].key != NULL_KEY ==> syn[s].value == was[s].value))
  }

  lemma FreshInSynonym(was: seq<Entry>, a: seq<Entry>, syn: seq<Entry>, split: int, i: nat)
    requires SplitUpTo(was, a, syn, split, i) && i < |was| && Distinct(was) && was[i].key != NULL_KEY
    ensures !Has(syn, was[i].key) && syn[i].key == NULL_KEY && a[i] == Entry(was[i].key, was[i].value, a[i].hop)
  {
    assert forall s :: 0 <= s < i && syn[s].key != NULL_KEY ==> syn[s].key == was[s].key;
  }

  /** Move one entry, at its own slot, with its bit. */
  method MoveEntry(t: Table, a: array<Entry>, syn: array<Entry>, i: nat)
    requires t.Valid() && a.Length == syn.Length == t.span && a != syn && i < t.span
    requires Good(t, a[..]) && Good(t, syn[..])
    requires a[i].key != NULL_KEY && syn[i].key == NULL_KEY && !Has(syn[..], a[i].key)
    modifies a, syn
    ensures 0 <= t.Dist(i, t.hash(old(a[i].key)))
    ensures a[..] == Without(t, old(a[..]), i) && Good(t, a[..])
    ensures syn[..] == With(t, old(syn[..]), i, old(a[i].key), old(a[i].value)) && Good(t, syn[..])
  {
    var e := a[i];
    var g := t.hash(e.key);
    SlotOfDist(t, i, g);
    WithoutGood(t, a[..], i);
    WithGood(t, syn[..], i, e.key, e.value);
    assert Occupies(t, a[..], g, t.Dist(i, g)) && !Occupies(t, syn[..], g, t.Dist(i, g));
    syn[i] := syn[i].(key := e.key, value := e.value);
    a[i] := a[i].(key := NULL_KEY, value := 0);
    var offset := if i >= g then i - g else i + t.span - g;
    assert offset !in syn[g].hop && offset in a[g].hop;
    syn[g] := syn[g].(hop := syn[g].hop + {offset});
    a[g] := a[g].(hop := a[g].hop - {offset});
  }

  lemma MovedOne(t: Table, was: seq<Entry>, a: seq<Entry>, syn: seq<Entry>, split: int, i: nat)
    requires t.Valid() && |was| == t.span && SplitUpTo(was, a, syn, split, i) && i < |was|
    requires was[i].key != NULL_KEY && was[i].key >= split
    requires 0 <= t.Dist(i, t.hash(was[i].key)) && a[i].key == was[i].key
    ensures SplitUpTo(was, Without(t, a, i), With(t, syn, i, was[i].key, was[i].value), split, i + 1)
  {
  }

  method MoveUpper(t: Table, a: array<Entry>, syn: array<Entry>, split: int)
    requires t.Valid() && a.Length == syn.Length == t.span && a != syn && split > NULL_KEY
    requires Good(t, a[..]) && Good(t, syn[..]) && forall s :: 0 <= s < t.span ==> syn[s].key == NULL_KEY
    modifies a, syn
    ensures Good(t, a[..]) && Good(t, syn[..]) && SplitAt(old(a[..]), a[..], syn[..], split)
  {
    hide Good, With, Without, Has;
    ghost var was := a[..];
    assert Distinct(was) by { GoodDistinct(t, was); }
    for i := 0 to t.span
      invariant Good(t, a[..]) && Good(t, syn[..]) && SplitUpTo(was, a[..], syn[..], split, i)
    {
      assert a[..][i].key == was[i].key;
      if a[i].key != NULL_KEY && a[i].key >= split {
        FreshInSynonym(was, a[..], syn[..], split, i);
        ghost var a0, s0 := a[..], syn[..];
        MoveEntry(t, a, syn, i);
        MovedOne(t, was, a0, s0, split, i);
      }
    }
  }

  lemma GoodDistinct(t: Table, rec: seq<Entry>)
    requires t.Valid() && Good(t, rec)
    ensures Distinct(rec)
  {
  }

  // ---- the whole split ----------------------------------------------------

  /** Insert into a leaf known to have room; the closing `assert(false)` of
      `hopscotch_insert_locally` is never reached. */
  method InsertLocally(t: Table, a: array<Entry>, k: nat, v: int)
    requires t.Valid() && a.Length == t.span && Good(t, a[..]) && k != NULL_KEY && !Has(a[..], k)
    requires CanInsert(t, a[..], k)
    modifies a
    ensures Good(t, a[..]) && Gains(old(a[..]), a[..], k, v)
  {
    var ok, e, hopped := Insert(t, a, k, v);
    assert ok;
  }

  /** What a side holds after the split: the old and the new bindings whose
      keys belong to that side. */
  ghost predicate HoldsSide(was: seq<Entry>, side: seq<Entry>, split: int, upper: bool, k: nat, v: int) {
    forall k': nat, v' ::
      Holds(side, k', v') <==> (k' >= split <==> upper) && (Holds(was, k', v') || (k' == k && v' == v))
  }

  ghost predicate OldSide(was: seq<Entry>, side: seq<Entry>, split: int, upper: bool) {
    forall k': nat, v' :: Holds(side, k', v') <==> (k' >= split <==> upper) && Holds(was, k', v')
  }

  lemma SplitSides(was: seq<Entry>, left: seq<Entry>, right: seq<Entry>, split: int)
    requires SplitAt(was, left, right, split)
    ensures OldSide(was, left, split, false) && OldSide(was, right, split, true)
  {
    forall k: nat, v
      ensures Holds(left, k, v) <==> k < split && Holds(was, k, v)
      ensures Holds(right, k, v) <==> k >= split && Holds(was, k, v)
    {
      SideOf(was, left, right, split, k, v);
    }
  }

  lemma SideOf(was: seq<Entry>, left: seq<Entry>, right: seq<Entry>, split: int, k: nat, v: int)
    requires SplitAt(was, left, right, split)
    ensures Holds(left, k, v) <==> k < split && Holds(was, k, v)
    ensures Holds(right, k, v) <==> k >= split && Holds(was, k, v)
  {
    if Holds(was, k, v) {
      var s :| 0 <= s < |was| && was[s].key == k && was[s].value == v;
      assert k < split ==> left[s].key == k && left[s].value == v;
      assert k >= split ==> right[s].key == k && right[s].value == v;
    }
    if Holds(left, k, v) {
      var s :| 0 <= s < |left| && left[s].key == k && left[s].value == v;
      assert was[s].key == k && was[s].value == v;
    }
    if Holds(right, k, v) {
      var s :| 0 <= s < |right| && right[s].key == k && right[s].value == v;
      assert was[s].key == k && was[s].value == v;
    }
  }

  lemma SplitLengths(was: seq<Entry>, left: seq<Entry>, right: seq<Entry>, split: int)
    requires SplitAt(was, left, right, split)
    ensures |was| == |left| == |right|
  {
  }

  lemma EmptyGood(t: Table, syn: seq<Entry>)
    requires t.Valid() && |syn| == t.span && forall s :: 0 <= s < t.span ==> syn[s] == Entry(NULL_KEY, 0, {})
    ensures Good(t, syn)
  {
  }

  /** The side that takes the pending key, and the other side. */
  lemma GainsSide(was: seq<Entry>, before: seq<Entry>, after: seq<Entry>, other: seq<Entry>,
                  split: int, upper: bool, k: nat, v: int)
    requires OldSide(was, before, split, upper) && Gains(before, after, k, v) && (k >= split <==> upper)
    requires OldSide(was, other, split, !upper)
    ensures HoldsSide(was, after, split, upper, k, v) && HoldsSide(was, other, split, !upper, k, v)
  {
    hide Holds;
  }

  lemma StillAbsent(was: seq<Entry>, left: seq<Entry>, right: seq<Entry>, split: int, k: nat)
    requires SplitAt(was, left, right, split) && k != NULL_KEY && !Has(was, k)
    ensures !Has(left, k) && !Has(right, k)
  {
  }

  /** Split a leaf whose insert failed: no binding is lost, k -> v is gained,
      and the two leaves hold the keys below and from the split key on. */
  method Split(t: Table, a: array<Entry>, syn: array<Entry>, k: nat, v: int) returns (split: int)
    requires t.Valid() && a.Length == syn.Length == t.span && a != syn
    requires Good(t, a[..]) && k != NULL_KEY && !Has(a[..], k) && !CanInsert(t, a[..], k)
    requires forall s :: 0 <= s < t.span ==> syn[s] == Entry(NULL_KEY, 0, {})
    modifies a, syn
    ensures IsSplitKey(t, old(a[..]), k, split) && Good(t, a[..]) && Good(t, syn[..])
    ensures HoldsSide(old(a[..]), a[..], split, false, k, v)
    ensures HoldsSide(old(a[..]), syn[..], split, true, k, v)
  {
    hide Good, CanInsert, Gains, Holds, Has, SplitAt, CriticalKeysAre;
    ghost var was := a[..];
    GoodDistinct(t, was);
    ghost var crit, order;
    split, crit, order := GetSplitKey(t, a, k);
    assert IsSplitKey(t, was, k, split) by {
      assert MiddleOf(t, was, k, split, crit, order);
    }
    hide IsSplitKey;
    assert order[|order| / 2] in order && order[0] in order;
    EmptyGood(t, syn[..]);
    MoveUpper(t, a, syn, split);
    SplitSides(was, a[..], syn[..], split);
    StillAbsent(was, a[..], syn[..], split, k);
    SplitLengths(was, a[..], syn[..], split);
    PendingFits(t, was, a[..], syn[..], k, crit, split);
    ghost var left, right := a[..], syn[..];
    if k < split {
      InsertLocally(t, a, k, v);
      GainsSide(was, left, a[..], right, split, false, k, v);
    } else {
      InsertLocally(t, syn, k, v);
      GainsSide(was, right, syn[..], left, split, true, k, v);
    }
  }
}
