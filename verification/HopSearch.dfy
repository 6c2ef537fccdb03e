/** Looking a key up in its neighbourhood of a hopscotch leaf, with the check
    that the hop bitmap and the records read agree. */
module HopSearch {
  import opened LeafSlots
  import opened Hopscotch

  /** The key o slots past slot g. */
  function KeyAt(t: Table, rec: seq<Entry>, g: nat, o: nat): nat
    requires 0 < t.span == |rec|
  {
    rec[t.Slot(g + o)].key
  }

  /** The offsets below n at which a key hashing to slot g is found. */
  ghost predicate Collected(t: Table, rec: seq<Entry>, g: nat, n: nat, bitmap: set<nat>)
    requires t.Valid() && |rec| == t.span && g < t.span
  {
    forall o: nat :: o in bitmap <==> o < n && Occupies(t, rec, g, o)
  }

  /** The key is at one of the offsets of its neighbourhood. */
  ghost predicate InNeighbourhood(t: Table, rec: seq<Entry>, k: nat)
    requires t.Valid() && |rec| == t.span
  {
    exists o: nat :: o < t.neighbor && KeyAt(t, rec, t.hash(k), o) == k
  }

  /** Whatever was read, the key is found exactly if its neighbourhood shows it,
      and a read without it is consistent exactly if the bitmap is that of the
      records. A leaf in
      which every key is in its neighbourhood and every bitmap is right never
      asks for a second read, and the key is found exactly if it is there. */
  method SearchNode(t: Table, rec: seq<Entry>, k: nat) returns (found: bool, v: int, consistent: bool)
    requires t.Valid() && |rec| == t.span && k != NULL_KEY
    ensures found ==> Holds(rec, k, v)
    ensures found <==> InNeighbourhood(t, rec, k)
    ensures !found ==> (consistent <==> Collected(t, rec, t.hash(k), t.neighbor, rec[t.hash(k)].hop))
    ensures !found && consistent ==> forall o: nat :: o in rec[t.hash(k)].hop ==>
              o < t.neighbor && Occupies(t, rec, t.hash(k), o) && KeyAt(t, rec, t.hash(k), o) != k
    ensures Good(t, rec) ==> (found || consistent) && (found <==> Has(rec, k))
  {
    hide Good;
    var g := t.hash(k);
    var bitmap: set<nat> := {};
    for j := 0 to t.neighbor
      invariant Collected(t, rec, g, j, bitmap)
      invariant forall o: nat :: o < j ==> KeyAt(t, rec, g, o) != k
    {
      var e := rec[t.Slot(g + j)];
      if e.key != NULL_KEY && t.hash(e.key) == g {
        bitmap := bitmap + {j};
        if e.key == k {
          FoundHere(t, rec, k, t.Slot(g + j));
          assert KeyAt(t, rec, g, j) == k;
          return true, e.value, false;
        }
      }
    }
    consistent := bitmap == rec[g].hop;
    SameCollected(t, rec, g, bitmap, rec[g].hop);
    if Good(t, rec) {
      GoodIsConsistent(t, rec, g, bitmap);
      NotInNeighbourhood(t, rec, k);
    }
    return false, 0, consistent;
  }

  lemma FoundHere(t: Table, rec: seq<Entry>, k: nat, s: nat)
    requires s < |rec| && rec[s].key == k != NULL_KEY
    ensures Holds(rec, k, rec[s].value) && Has(rec, k)
  {
  }

  /** The records determine the bitmap. */
  lemma SameCollected(t: Table, rec: seq<Entry>, g: nat, bitmap: set<nat>, hop: set<nat>)
    requires t.Valid() && |rec| == t.span && g < t.span && Collected(t, rec, g, t.neighbor, bitmap)
    ensures bitmap == hop <==> Collected(t, rec, g, t.neighbor, hop)
  {
  }

  lemma GoodIsConsistent(t: Table, rec: seq<Entry>, g: nat, bitmap: set<nat>)
    requires t.Valid() && Good(t, rec) && g < t.span && Collected(t, rec, g, t.neighbor, bitmap)
    ensures bitmap == rec[g].hop
  {
    forall o: nat
      ensures o in bitmap <==> o in rec[g].hop
    {
    }
  }

  lemma NotInNeighbourhood(t: Table, rec: seq<Entry>, k: nat)
    requires t.Valid() && Good(t, rec) && k != NULL_KEY
    requires forall o: nat :: o < t.neighbor ==> KeyAt(t, rec, t.hash(k), o) != k
    ensures !Has(rec, k)
  {
    forall s | 0 <= s < |rec|
      ensures rec[s].key != k
    {
      SlotOfDist(t, s, t.hash(k));
      assert KeyAt(t, rec, t.hash(k), t.Dist(s, t.hash(k))) == rec[s].key;
    }
  }
}
