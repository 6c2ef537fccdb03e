/** One fixed-size leaf of the leaf table: sorted keys, then invalid ones. */
module ChainLeaf {
  import opened LeafSlots
  import opened LeafChain

  const INVALID: nat := 0xFFFF_FFFF_FFFF_FFFF

  /** Strictly increasing, with the invalid keys at the end. */
  ghost predicate KeysOk(keys: seq<nat>) {
    && (forall i :: 0 <= i < |keys| ==> keys[i] <= INVALID)
    && forall i, j :: 0 <= i < j < |keys| ==> keys[i] < keys[j] || keys[i] == keys[j] == INVALID
  }

  ghost function Used(keys: seq<nat>, i: nat): (u: nat)
    requires i <= |keys|
    ensures i <= u <= |keys| && (u < |keys| ==> keys[u] == INVALID)
    ensures forall j :: i <= j < u ==> keys[j] != INVALID
    decreases |keys| - i
  {
    if i == |keys| || keys[i] == INVALID then i else Used(keys, i + 1)
  }

  ghost function Recs(keys: seq<nat>, vals: seq<int>): (s: seq<Rec>)
    requires |keys| == |vals|
    ensures |s| == Used(keys, 0) && forall i :: 0 <= i < |s| ==> s[i] == Rec(keys[i], vals[i])
  {
    seq(Used(keys, 0), i requires 0 <= i < Used(keys, 0) => Rec(keys[i], vals[i]))
  }

  lemma RecsOk(keys: seq<nat>, vals: seq<int>)
    requires |keys| == |vals| && KeysOk(keys)
    ensures KeysIncrease(Recs(keys, vals))
    ensures forall i :: |Recs(keys, vals)| <= i < |keys| ==> keys[i] == INVALID
  {
  }

  /** Records u in number, then invalid keys. */
  lemma RecsAre(keys: seq<nat>, vals: seq<int>, s: seq<Rec>)
    requires |keys| == |vals| && |s| <= |keys|
    requires forall i :: 0 <= i < |s| ==> keys[i] != INVALID && s[i] == Rec(keys[i], vals[i])
    requires |s| < |keys| ==> keys[|s|] == INVALID
    ensures Recs(keys, vals) == s
  {
    assert Used(keys, 0) == |s|;
  }

  class Leaf {
    var keys: seq<nat>
    var vals: seq<int>

    ghost predicate Valid()
      reads this
    {
      |keys| == |vals| > 0 && KeysOk(keys)
    }

    ghost function Contents(): seq<Rec>
      requires Valid()
      reads this
    {
      Recs(keys, vals)
    }

    constructor (n: nat)
      requires n > 0
      ensures Valid() && |keys| == n && Contents() == []
    {
      keys := seq(n, _ => INVALID);
      vals := seq(n, _ => 0);
    }

    predicate IsFull()
      requires Valid()
      reads this
      ensures IsFull() <==> |Contents()| == |keys|
    {
      keys[|keys| - 1] != INVALID
    }

    /** The key is not below the least key here. */
    predicate InsertHere(key: nat)
      requires Valid()
      reads this
      ensures key < INVALID ==> (InsertHere(key) <==> |Contents()| > 0 && Contents()[0].key <= key)
    {
      key >= keys[0]
    }

    /** The slot of the key; none if the answer is the leaf size. */
    method Find(key: nat) returns (i: nat)
      requires Valid() && key < INVALID
      ensures i <= |keys| && (i < |keys| <==> HasKey(Contents(), key))
      ensures i < |keys| ==> i < |Contents()| && keys[i] == key
    {
      RecsOk(keys, vals);
      i := 0;
      if keys[0] > key {
        return |keys|;
      }
      while i < |keys|
        invariant i <= |keys| && forall u :: 0 <= u < i ==> keys[u] != key
      {
        if keys[i] == key {
          assert Contents()[i].key == key;
          return;
        }
        i := i + 1;
      }
    }

    method Search(key: nat) returns (found: bool, val: int)
      requires Valid() && key < INVALID
      ensures found <==> HasKey(Contents(), key)
      ensures found ==> Rec(key, val) in Contents()
    {
      var i := Find(key);
      if i < |keys| {
        assert Contents()[i] == Rec(key, vals[i]);
        return true, vals[i];
      }
      return false, 0;
    }

    method Update(key: nat, val: int) returns (ok: bool)
      requires Valid() && key < INVALID
      modifies this
      ensures Valid() && |keys| == old(|keys|) && Contents() == Rebound(old(Contents()), key, val)
      ensures ok <==> HasKey(old(Contents()), key)
    {
      RecsOk(keys, vals);
      var i := Find(key);
      ok := i < |keys|;
      if ok {
        assert Position(Contents(), key, 0) == i;
        vals := vals[i := val];
        RecsAre(keys, vals, Rebound(old(Contents()), key, val));
      }
    }

    /** Puts the record in its place if there is a free slot from there on and
        the key is not met first; says so for leaves out of order too. */
    method InsertNotFull(key: nat, val: int)
      requires |keys| == |vals| > 0 && key < INVALID
      modifies this
      ensures |keys| == |vals| && keys == KeyInserted(old(keys), key)
      ensures old(Valid()) ==>
                && Valid()
                && Contents() == if HasKey(old(Contents()), key) || |old(Contents())| == |keys| then old(Contents())
                                 else InsertSorted(old(Contents()), Rec(key, val))
    {
      if Valid() {
        PlaceInOrder(keys, vals, key);
      }
      var i := 0;
      while i < |keys|
        invariant i <= |keys| && PlaceOf(keys, key, 0) == PlaceOf(keys, key, i)
      {
        if keys[i] == key {
          return;
        }
        if keys[i] > key {
          break;
        }
        i := i + 1;
      }
      var j := i;
      while j < |keys| && keys[j] != INVALID
        invariant i <= j <= |keys| && Used(keys, i) == Used(keys, j)
      {
        j := j + 1;
      }
      if j >= |keys| {
        return;
      }
      if Valid() {
        ShiftedRecs(keys, vals, i, j, key, val);
      }
      keys := Shifted(keys, i, j, key);
      vals := Shifted(vals, i, j, val);
    }
  }

  /** The first slot from i on whose key is not below the given one. */
  ghost function PlaceOf(keys: seq<nat>, key: nat, i: nat): (p: nat)
    requires i <= |keys|
    ensures i <= p <= |keys| && (p < |keys| ==> keys[p] >= key)
    ensures forall u :: i <= u < p ==> keys[u] < key
    decreases |keys| - i
  {
    if i == |keys| || keys[i] >= key then i else PlaceOf(keys, key, i + 1)
  }

  ghost function KeyInserted(keys: seq<nat>, key: nat): (t: seq<nat>)
    ensures |t| == |keys|
  {
    var i := PlaceOf(keys, key, 0);
    var j := Used(keys, i);
    if (i < |keys| && keys[i] == key) || j == |keys| then keys else Shifted(keys, i, j, key)
  }

  lemma PlaceInOrder(keys: seq<nat>, vals: seq<int>, key: nat)
    requires |keys| == |vals| && KeysOk(keys) && key < INVALID
    ensures var i, s := PlaceOf(keys, key, 0), Recs(keys, vals);
            && (HasKey(s, key) <==> i < |keys| && keys[i] == key)
            && (!HasKey(s, key) ==> i == Position(s, key, 0) && Used(keys, i) == |s|)
  {
    RecsOk(keys, vals);
    var i, s := PlaceOf(keys, key, 0), Recs(keys, vals);
    assert forall u :: 0 <= u < |s| ==> s[u].key == keys[u];
    if i < |keys| && keys[i] == key {
      assert s[i].key == key;
    }
  }

  lemma ShiftedKeys(keys: seq<nat>, i: nat, j: nat, key: nat)
    requires KeysOk(keys) && key < INVALID && i <= j < |keys|
    requires forall u :: 0 <= u < |keys| ==>
               (u < j <==> keys[u] != INVALID) && (u < i ==> keys[u] < key) && (i <= u ==> key < keys[u])
    ensures KeysOk(Shifted(keys, i, j, key))
  {
    var t := Shifted(keys, i, j, key);
    ShiftedSlots(keys, i, j, key);
    assert forall u :: 0 <= u < |t| ==> t[u] <= INVALID;
    forall u, w | 0 <= u < w < |t|
      ensures t[u] < t[w] || t[u] == t[w] == INVALID
    {
      if w > j {
        assert t[w] == keys[w] == INVALID;
        assert u <= j ==> t[u] < INVALID;
      } else if u < i {
        assert t[u] == keys[u] < key;
      } else {
        assert t[w] == keys[w - 1];
      }
    }
  }

  lemma ShiftedSlots<T>(s: seq<T>, i: nat, j: nat, x: T)
    requires i <= j < |s|
    ensures var t := Shifted(s, i, j, x);
            forall u :: 0 <= u < |t| ==>
              t[u] == if u < i then s[u] else if u == i then x else if u <= j then s[u - 1] else s[u]
  {
  }

  lemma ShiftedRecs(keys: seq<nat>, vals: seq<int>, i: nat, j: nat, key: nat, val: int)
    requires |keys| == |vals| && KeysOk(keys) && j == |Recs(keys, vals)| < |keys| && key < INVALID
    requires i == Position(Recs(keys, vals), key, 0) && !HasKey(Recs(keys, vals), key)
    ensures KeysOk(Shifted(keys, i, j, key))
    ensures Recs(Shifted(keys, i, j, key), Shifted(vals, i, j, val)) == InsertSorted(Recs(keys, vals), Rec(key, val))
  {
    RecsSplit(keys, vals, key);
    ShiftedKeys(keys, i, j, key);
    ShiftedAre(keys, vals, i, j, key, val);
  }

  lemma ShiftedAre(keys: seq<nat>, vals: seq<int>, i: nat, j: nat, key: nat, val: int)
    requires |keys| == |vals| && i <= j == |Recs(keys, vals)| < |keys| && key != INVALID && KeysOk(keys)
    ensures Recs(Shifted(keys, i, j, key), Shifted(vals, i, j, val)) == InsertedAt(Recs(keys, vals), i, Rec(key, val))
  {
    var s := Recs(keys, vals);
    RecsOk(keys, vals);
    ShiftedSlots(keys, i, j, key);
    ShiftedSlots(vals, i, j, val);
    RecsAre(Shifted(keys, i, j, key), Shifted(vals, i, j, val), InsertedAt(s, i, Rec(key, val)));
  }

  lemma RecsSplit(keys: seq<nat>, vals: seq<int>, key: nat)
    requires |keys| == |vals| && KeysOk(keys) && key < INVALID && !HasKey(Recs(keys, vals), key)
    ensures var i, j := Position(Recs(keys, vals), key, 0), |Recs(keys, vals)|;
            forall u :: 0 <= u < |keys| ==>
              (u < j <==> keys[u] != INVALID) && (u < i ==> keys[u] < key) && (i <= u ==> key < keys[u])
  {
    RecsOk(keys, vals);
    var s := Recs(keys, vals);
    var i, j := Position(s, key, 0), |s|;
    forall u | 0 <= u < |keys|
      ensures (u < j <==> keys[u] != INVALID) && (u < i ==> keys[u] < key) && (i <= u ==> key < keys[u])
    {
      if i <= u < j {
        assert s[i].key <= s[u].key && s[u].key != key;
      } else if u < i {
        assert s[u].key < key;
      }
    }
  }

  // ---- the half split -----------------------------------------------------

  function LowHalf(keys: seq<nat>): (low: seq<nat>)
    ensures |low| == |keys| && forall i :: 0 <= i < |keys| ==>
              low[i] == if |keys| / 2 <= i < |keys| / 2 * 2 then INVALID else keys[i]
  {
    seq(|keys|, i requires 0 <= i < |keys| => if |keys| / 2 <= i < |keys| / 2 * 2 then INVALID else keys[i])
  }

  function HighHalf(keys: seq<nat>): (high: seq<nat>)
    ensures |high| == |keys| && forall i :: 0 <= i < |keys| ==>
              high[i] == if i < |keys| / 2 then keys[|keys| / 2 + i] else INVALID
  {
    seq(|keys|, i requires 0 <= i < |keys| => if i < |keys| / 2 then keys[|keys| / 2 + i] else INVALID)
  }

  /** Splitting a full leaf leaves two sorted leaves exactly when the leaf size
      is even or 1; otherwise its last key stays behind invalid ones. */
  lemma HalvesSorted(keys: seq<nat>)
    requires KeysOk(keys) && |keys| > 0 && keys[|keys| - 1] != INVALID
    ensures KeysOk(HighHalf(keys)) && (KeysOk(LowHalf(keys)) <==> |keys| % 2 == 0 || |keys| == 1)
  {
    var n, mid := |keys|, |keys| / 2;
    if n % 2 == 1 && n > 1 {
      assert LowHalf(keys)[mid] == INVALID && LowHalf(keys)[n - 1] == keys[n - 1];
    }
  }

  /** After an odd split and any insert into the lower part, the last key is
      still there. */
  lemma LastStays(keys: seq<nat>, key: nat)
    requires KeysOk(keys) && |keys| % 2 == 1 && keys[|keys| - 1] != INVALID && key < INVALID
    ensures KeyInserted(LowHalf(keys), key)[|keys| - 1] == keys[|keys| - 1]
  {
    var low, n, mid := LowHalf(keys), |keys|, |keys| / 2;
    if n > 1 {
      assert low[mid] == INVALID;
    }
    assert low[n - 1] == keys[n - 1];
    hide LowHalf, KeysOk;
    StaysBehind(low, key, n - 1);
  }

  /** A slot behind an invalid one, or the last of a full leaf, is not touched. */
  lemma StaysBehind(keys: seq<nat>, key: nat, u: nat)
    requires u == |keys| - 1 && keys[u] != INVALID && key < INVALID
    requires |keys| == 1 || exists m :: 0 <= m < u && keys[m] == INVALID
    ensures KeyInserted(keys, key)[u] == keys[u]
  {
    var i := PlaceOf(keys, key, 0);
    var j := Used(keys, i);
    if j < |keys| {
      ShiftedAt(keys, i, j, key, u);
    }
  }

  /** A key that belongs to the upper part leaves its first key in place. */
  lemma FirstStays(keys: seq<nat>, key: nat)
    requires |keys| > 0 && keys[0] <= key
    ensures KeyInserted(keys, key)[0] == keys[0]
  {
    var i := PlaceOf(keys, key, 0);
    var j := Used(keys, i);
    if 0 < i <= j < |keys| {
      ShiftedSlots(keys, i, j, key);
    }
  }

  /** The upper half of the slots moves to an empty leaf. */
  method MoveHalf(cur: Leaf, next: Leaf)
    requires cur != next && cur.Valid() && next.Valid() && |cur.keys| == |next.keys| && next.Contents() == []
    modifies cur, next
    ensures cur.keys == LowHalf(old(cur.keys)) && cur.vals == old(cur.vals)
    ensures next.keys == HighHalf(old(cur.keys)) && |next.vals| == |next.keys|
    ensures forall i :: 0 <= i < |cur.keys| / 2 ==> next.vals[i] == old(cur.vals)[|cur.keys| / 2 + i]
  {
    RecsOk(next.keys, next.vals);
    var n, mid := |cur.keys|, |cur.keys| / 2;
    for i := 0 to mid
      invariant |cur.keys| == |cur.vals| == |next.keys| == |next.vals| == n && cur.vals == old(cur.vals)
      invariant forall u :: 0 <= u < n ==> cur.keys[u] == if mid <= u < mid + i then INVALID else old(cur.keys)[u]
      invariant forall u :: 0 <= u < n ==> next.keys[u] == if u < i then old(cur.keys)[mid + u] else INVALID
      invariant forall u :: 0 <= u < i ==> next.vals[u] == old(cur.vals)[mid + u]
    {
      next.keys := next.keys[i := cur.keys[mid + i]];
      next.vals := next.vals[i := cur.vals[mid + i]];
      cur.keys := cur.keys[mid + i := INVALID];
    }
  }

  lemma HalvesContents(keys: seq<nat>, vals: seq<int>, vals': seq<int>)
    requires KeysOk(keys) && |keys| == |vals| == |vals'| >= 2 && |keys| % 2 == 0 && |Recs(keys, vals)| == |keys|
    requires forall i :: 0 <= i < |keys| / 2 ==> vals'[i] == vals[|keys| / 2 + i]
    ensures Recs(LowHalf(keys), vals) == Recs(keys, vals)[..|keys| / 2]
    ensures Recs(HighHalf(keys), vals') == Recs(keys, vals)[|keys| / 2..]
  {
    RecsAre(LowHalf(keys), vals, Recs(keys, vals)[..|keys| / 2]);
    RecsAre(HighHalf(keys), vals', Recs(keys, vals)[|keys| / 2..]);
  }

  /** A full leaf splits: the new leaf is always in order, the old one exactly
      if the size is even or 1, and for an even size they hold the halves. */
  method HalveLeaf(cur: Leaf, next: Leaf)
    requires cur != next && cur.Valid() && next.Valid() && |cur.keys| == |next.keys|
    requires |cur.Contents()| == |cur.keys| && next.Contents() == []
    modifies cur, next
    ensures |cur.keys| == |cur.vals| == |next.keys| == old(|cur.keys|)
    ensures next.Valid() && (cur.Valid() <==> |cur.keys| % 2 == 0 || |cur.keys| == 1)
    ensures cur.keys == LowHalf(old(cur.keys)) && next.keys == HighHalf(old(cur.keys))
    ensures |cur.keys| % 2 == 0 ==>
              && cur.Contents() == old(cur.Contents())[..|cur.keys| / 2]
              && next.Contents() == old(cur.Contents())[|cur.keys| / 2..]
  {
    HalvesSorted(cur.keys);
    ghost var keys, vals := cur.keys, cur.vals;
    MoveHalf(cur, next);
    if |keys| % 2 == 0 {
      HalvesContents(keys, vals, next.vals);
    }
  }

  /** The last key of one leaf is above the first of the next, or the next is
      empty: no order from one leaf to the other. */
  ghost predicate Overlap(cur: Leaf, next: Leaf, n: nat)
    reads cur, next
  {
    && n > 0 && |cur.keys| == |next.keys| == n && cur.keys[n - 1] != INVALID
    && (next.keys[0] == INVALID || next.keys[0] <= cur.keys[n - 1])
  }

  lemma LastAbove(keys: seq<nat>, vals: seq<int>, n: nat)
    requires n == |keys| == |vals| > 0 && KeysOk(keys) && |Recs(keys, vals)| == n
    ensures keys[n / 2] <= keys[n - 1] != INVALID
  {
  }

  /** Splits a full leaf and inserts into the half that the key belongs to. For
      an even size both leaves stay in order and hold the halves and the record;
      for an odd size the last key stays where it was, above the new leaf. */
  method HalveAndInsert(cur: Leaf, next: Leaf, key: nat, val: int) returns (upper: bool)
    requires cur != next && cur.Valid() && next.Valid() && |cur.keys| == |next.keys| && key < INVALID
    requires |cur.Contents()| == |cur.keys| && next.Contents() == [] && !HasKey(cur.Contents(), key)
    modifies cur, next
    ensures |cur.keys| == |next.keys| == old(|cur.keys|)
    ensures |cur.keys| % 2 == 0 ==>
              var lo, hi := old(cur.Contents())[..|cur.keys| / 2], old(cur.Contents())[|cur.keys| / 2..];
              && cur.Valid() && next.Valid() && (upper <==> hi[0].key <= key)
              && cur.Contents() == (if upper then lo else InsertSorted(lo, Rec(key, val)))
              && next.Contents() == (if upper then InsertSorted(hi, Rec(key, val)) else hi)
    ensures |cur.keys| % 2 == 1 ==> cur.keys[|cur.keys| - 1] == old(cur.keys[|cur.keys| - 1]) != INVALID
    ensures |cur.keys| % 2 == 1 ==>
              next.keys[0] == if |cur.keys| == 1 then INVALID else old(cur.keys[|cur.keys| / 2])
    ensures |cur.keys| % 2 == 1 ==> Overlap(cur, next, |cur.keys|)
  {
    hide KeysOk, LowHalf, HighHalf, Recs, Used, KeyInserted, InsertSorted, HasKey;
    ghost var keys, s, n := cur.keys, cur.Contents(), |cur.keys|;
    if n > 0 {
      LastAbove(keys, cur.vals, n);
    }
    FullHalves(keys, s, key, n);
    HalveLeaf(cur, next);
    upper := next.InsertHere(key);
    if upper {
      FirstStays(next.keys, key);
      next.InsertNotFull(key, val);
    } else {
      if n % 2 == 1 {
        LastStays(keys, key);
      }
      cur.InsertNotFull(key, val);
    }
  }

  lemma FullHalves(keys: seq<nat>, s: seq<Rec>, key: nat, n: nat)
    requires n > 0 && |keys| == n == |s| && KeysOk(keys) && (forall i :: 0 <= i < n ==> s[i].key == keys[i] != INVALID)
    requires !HasKey(s, key)
    ensures !HasKey(s[..n / 2], key) && !HasKey(s[n / 2..], key) && keys[n - 1] != INVALID
    ensures HighHalf(keys)[0] == (if n == 1 then INVALID else keys[n / 2])
    ensures LowHalf(keys)[n - 1] == (if n % 2 == 1 then keys[n - 1] else INVALID)
  {
  }
}
