/** A hopscotch leaf as a value: keys within a neighbourhood of their hash
    slot, a set of hop bits per slot, and the hopping search for a free slot. */
module Hopscotch {
  import opened LeafSlots
  import opened DivMod

  /** `hop` holds the offsets whose bits are set in the slot's bitmap. */
  datatype Entry = Entry(key: nat, value: int, hop: set<nat>)

  /** Number of slots, size of a neighbourhood, and the hash of a key. */
  datatype Table = Table(span: nat, neighbor: nat, hash: int -> nat) {

    ghost predicate Valid() {
      0 < neighbor <= span && forall k :: hash(k) < span
    }

    /** The slot of a logical index, which may lie one turn off either way. */
    function Slot(j: int): (s: nat)
      requires span > 0
      ensures s < span
    {
      (j + span) % span
    }

    lemma SlotIs(j: int)
      requires span > 0 && 0 - span <= j < 2 * span
      ensures Slot(j) == if j < 0 then j + span else if j < span then j else j - span
    {
      var q := if j < 0 then 0 else if j < span then 1 else 2;
      QuotientOf(j + span, span, q, j + span - q * span);
    }

    /** How far slot s lies past slot g. */
    function Dist(s: int, g: int): int {
      if s >= g then s - g else s + span - g
    }

    /** The logical hash index of the key at logical index h: the turn that
        puts it at most a neighbourhood below h. */
    function LogicalHome(h: int, key: int): int {
      var g := hash(key);
      if h - g < 0 then g - span else if h - g >= neighbor then g + span else g
    }
  }

  // ---- well-formed leaves -------------------------------------------------

  ghost predicate Placed(t: Table, rec: seq<Entry>)
    requires t.Valid() && |rec| == t.span
  {
    forall s :: 0 <= s < |rec| && rec[s].key != NULL_KEY ==> t.Dist(s, t.hash(rec[s].key)) < t.neighbor
  }

  ghost predicate Distinct(rec: seq<Entry>) {
    forall s, u :: 0 <= s < u < |rec| && rec[s].key != NULL_KEY ==> rec[s].key != rec[u].key
  }

  /** Bit o of slot s is set exactly when the key o slots on hashes to s. */
  ghost predicate BitsOk(t: Table, rec: seq<Entry>)
    requires t.Valid() && |rec| == t.span
  {
    forall s, o :: 0 <= s < |rec| && 0 <= o ==>
      (o in rec[s].hop <==> o < t.neighbor && Occupies(t, rec, s, o))
  }

  ghost predicate Occupies(t: Table, rec: seq<Entry>, s: nat, o: nat)
    requires t.Valid() && |rec| == t.span
  {
    var e := rec[t.Slot(s + o)];
    e.key != NULL_KEY && t.hash(e.key) == s
  }

  ghost predicate Good(t: Table, rec: seq<Entry>)
    requires t.Valid()
  {
    |rec| == t.span && Placed(t, rec) && Distinct(rec) && BitsOk(t, rec)
  }

  ghost predicate Holds(rec: seq<Entry>, k: nat, v: int) {
    k != NULL_KEY && exists s :: 0 <= s < |rec| && rec[s].key == k && rec[s].value == v
  }

  ghost predicate Has(rec: seq<Entry>, k: nat) {
    exists s :: 0 <= s < |rec| && rec[s].key == k
  }

  // ---- taking a key out and putting one in --------------------------------

  function Without(t: Table, rec: seq<Entry>, s: nat): (out: seq<Entry>)
    requires t.span > 0 && s < |rec| && t.hash(rec[s].key) < |rec|
    ensures |out| == |rec|
  {
    var g := t.hash(rec[s].key);
    var cleared := rec[s := rec[s].(key := NULL_KEY, value := 0)];
    cleared[g := cleared[g].(hop := cleared[g].hop - {t.Dist(s, g)})]
  }

  function With(t: Table, rec: seq<Entry>, s: nat, k: nat, v: int): (out: seq<Entry>)
    requires t.span > 0 && s < |rec| && t.hash(k) < |rec| && t.Dist(s, t.hash(k)) >= 0
    ensures |out| == |rec|
  {
    var g := t.hash(k);
    var filled := rec[s := rec[s].(key := k, value := v)];
    filled[g := filled[g].(hop := filled[g].hop + {t.Dist(s, g)})]
  }

  lemma SlotOfDist(t: Table, s: nat, g: nat)
    requires t.Valid() && s < t.span && g < t.span
    ensures 0 <= t.Dist(s, g) < t.span && t.Slot(g + t.Dist(s, g)) == s
  {
    t.SlotIs(g + t.Dist(s, g));
  }

  lemma DistOfSlot(t: Table, s: nat, o: nat)
    requires t.Valid() && s < t.span && o < t.span
    ensures t.Slot(s + o) < t.span && t.Dist(t.Slot(s + o), s) == o
  {
    t.SlotIs(s + o);
  }

  lemma WithoutGood(t: Table, rec: seq<Entry>, s: nat)
    requires t.Valid() && Good(t, rec) && s < |rec| && rec[s].key != NULL_KEY
    ensures Good(t, Without(t, rec, s))
  {
    var out, g := Without(t, rec, s), t.hash(rec[s].key);
    SlotOfDist(t, s, g);
    forall u, o | 0 <= u < |rec| && 0 <= o
      ensures o in out[u].hop <==> o < t.neighbor && Occupies(t, out, u, o)
    {
      assert o in rec[u].hop <==> o < t.neighbor && Occupies(t, rec, u, o);
      if o < t.neighbor {
        DistOfSlot(t, u, o);
      }
    }
  }

  lemma WithGood(t: Table, rec: seq<Entry>, s: nat, k: nat, v: int)
    requires t.Valid() && Good(t, rec) && s < |rec| && rec[s].key == NULL_KEY
    requires k != NULL_KEY && !Has(rec, k) && t.Dist(s, t.hash(k)) < t.neighbor
    ensures t.Dist(s, t.hash(k)) >= 0 && Good(t, With(t, rec, s, k, v))
  {
    var g := t.hash(k);
    SlotOfDist(t, s, g);
    var out := With(t, rec, s, k, v);
    forall u, o | 0 <= u < |rec| && 0 <= o
      ensures o in out[u].hop <==> o < t.neighbor && Occupies(t, out, u, o)
    {
      assert o in rec[u].hop <==> o < t.neighbor && Occupies(t, rec, u, o);
      if o < t.neighbor {
        DistOfSlot(t, u, o);
      }
    }
  }

  // ---- the hopping search -------------------------------------------------

  /** The key at logical index h may hop to logical index j. */
  predicate CanHop(t: Table, rec: seq<Entry>, h: int, j: int)
    requires 0 < t.span == |rec|
  {
    t.LogicalHome(h, rec[t.Slot(h)].key) + t.neighbor > j
  }

  /** The first index at most `offset` below j whose key may hop to j; j itself
      when there is none. */
  function FindHop(t: Table, rec: seq<Entry>, j: int, offset: nat): (h: int)
    requires 0 < t.span == |rec|
    ensures j - offset <= h <= j && (h < j ==> CanHop(t, rec, h, j))
    ensures forall i :: j - offset <= i < h ==> !CanHop(t, rec, i, j)
  {
    if offset == 0 then j
    else if CanHop(t, rec, j - offset, j) then j - offset
    else FindHop(t, rec, j, offset - 1)
  }

  /** Supposing slot j empty, repeated hops bring the hole into the
      neighbourhood of hash index g. */
  predicate Reaches(t: Table, rec: seq<Entry>, g: int, j: int)
    requires 0 < t.span == |rec| && t.neighbor > 0
    decreases if j > g then j - g else 0
  {
    j < g + t.neighbor
    || var h := FindHop(t, rec, j, t.neighbor - 1);
       h < j && Reaches(t, rec, g, h)
  }

  /** The indices from which hopping succeeds form a prefix. */
  lemma {:induction false} ReachesPrefix(t: Table, rec: seq<Entry>, g: int, i: int, j: int)
    requires 0 < t.span == |rec| && t.neighbor > 0
    requires g <= i <= j && Reaches(t, rec, g, j)
    ensures Reaches(t, rec, g, i)
    decreases j - g
  {
    if i < j && i >= g + t.neighbor {
      var h := FindHop(t, rec, j, t.neighbor - 1);
      if h >= i {
        ReachesPrefix(t, rec, g, i, h);
      } else {
        var h' := FindHop(t, rec, i, t.neighbor - 1);
        assert CanHop(t, rec, h, i);
        ReachesPrefix(t, rec, g, h', h);
      }
    }
  }

  /** Hopping from j looks only at the keys between the hash index and j. */
  lemma {:induction false} ReachesLocal(t: Table, rec: seq<Entry>, rec': seq<Entry>, g: int, j: int)
    requires 0 < t.span == |rec| == |rec'| && t.neighbor > 0
    requires forall i :: g <= i < j ==> rec[t.Slot(i)].key == rec'[t.Slot(i)].key
    ensures Reaches(t, rec, g, j) <==> Reaches(t, rec', g, j)
    decreases j - g
  {
    hide Table.Slot, FindHop, CanHop;
    if j >= g + t.neighbor {
      FindHopLocal(t, rec, rec', j, t.neighbor - 1);
      var h := FindHop(t, rec, j, t.neighbor - 1);
      if h < j {
        ReachesLocal(t, rec, rec', g, h);
      }
    }
  }

  lemma {:induction false} FindHopLocal(t: Table, rec: seq<Entry>, rec': seq<Entry>, j: int, offset: nat)
    requires 0 < t.span == |rec| == |rec'|
    requires forall i :: j - offset <= i < j ==> rec[t.Slot(i)].key == rec'[t.Slot(i)].key
    ensures FindHop(t, rec, j, offset) == FindHop(t, rec', j, offset)
  {
    if offset > 0 {
      FindHopLocal(t, rec, rec', j, offset - 1);
    }
  }

  /** The first empty logical index from i on, within the turn that ends at
      `end`; `end` itself when there is none. */
  function FirstEmpty(t: Table, rec: seq<Entry>, i: int, end: int): (e: int)
    requires 0 < t.span == |rec| && i <= end
    ensures i <= e <= end && (e < end ==> rec[t.Slot(e)].key == NULL_KEY)
    ensures forall u :: i <= u < e ==> rec[t.Slot(u)].key != NULL_KEY
    decreases end - i
  {
    if i == end || rec[t.Slot(i)].key == NULL_KEY then i else FirstEmpty(t, rec, i + 1, end)
  }

  /** A key can be inserted: there is an empty slot, and hopping from the first
      one reaches the key's neighbourhood. */
  ghost predicate CanInsert(t: Table, rec: seq<Entry>, k: nat)
    requires 0 < t.span == |rec| && t.neighbor > 0
  {
    var g := t.hash(k);
    var e := FirstEmpty(t, rec, g, g + t.span);
    e < g + t.span && Reaches(t, rec, g, e)
  }

  // ---- one hop ------------------------------------------------------------

  /** Under the invariant the logical home is at most a neighbourhood below,
      and its slot is the hash of the key. */
  lemma HomeOf(t: Table, rec: seq<Entry>, h: int)
    requires t.Valid() && |rec| == t.span && Placed(t, rec) && 0 <= h < 2 * t.span && rec[t.Slot(h)].key != NULL_KEY
    ensures var key := rec[t.Slot(h)].key;
            var g := t.LogicalHome(h, key);
            && h - t.neighbor < g <= h && t.Slot(g) == t.hash(key) && h - g == t.Dist(t.Slot(h), t.hash(key))
  {
    t.SlotIs(h);
    var key := rec[t.Slot(h)].key;
    t.SlotIs(t.LogicalHome(h, key));
  }

  // ---- what the hopping search decides -------------------------------------

  /** The key at logical index i can move up to logical index j and stay within
      its neighbourhood. */
  ghost predicate CanMove(t: Table, rec: seq<Entry>, i: int, j: int)
    requires 0 < t.span == |rec|
  {
    i < j && j - i + t.Dist(t.Slot(i), t.hash(rec[t.Slot(i)].key)) < t.neighbor
  }

  lemma HopIsMove(t: Table, rec: seq<Entry>, i: int, j: int)
    requires t.Valid() && |rec| == t.span && Placed(t, rec) && 0 <= i < j && i < 2 * t.span
    requires rec[t.Slot(i)].key != NULL_KEY
    ensures CanHop(t, rec, i, j) <==> CanMove(t, rec, i, j)
  {
    HomeOf(t, rec, i);
  }

  /** Logical indices g..e are occupied. */
  ghost predicate Occupied(t: Table, rec: seq<Entry>, g: int, e: int)
    requires 0 < t.span == |rec|
  {
    forall i :: g <= i < e ==> rec[t.Slot(i)].key != NULL_KEY
  }

  /** Moves that bring a hole at js[0] into the neighbourhood of g: each takes
      the key at the next index up into the hole. */
  ghost predicate Path(t: Table, rec: seq<Entry>, g: int, js: seq<int>)
    requires 0 < t.span == |rec|
  {
    && |js| > 0 && js[|js| - 1] < g + t.neighbor
    && forall u :: 0 <= u < |js| - 1 ==> js[u] >= g + t.neighbor && CanMove(t, rec, js[u + 1], js[u])
  }

  /** A hole at j, beyond the neighbourhood of g, into which no key below it can
      move. */
  ghost predicate Stuck(t: Table, rec: seq<Entry>, g: int, j: int)
    requires 0 < t.span == |rec|
  {
    j >= g + t.neighbor && forall i :: j - t.neighbor < i < j ==> !CanMove(t, rec, i, j)
  }

  /** Hopping to the farthest candidate first finds a path if there is any. */
  lemma {:induction false} PathReaches(t: Table, rec: seq<Entry>, g: int, js: seq<int>)
    requires t.Valid() && |rec| == t.span && Placed(t, rec) && 0 <= g && Path(t, rec, g, js)
    requires g <= js[0] < g + t.span <= 2 * t.span && Occupied(t, rec, g, js[0])
    ensures Reaches(t, rec, g, js[0])
    decreases |js|
  {
    if |js| > 1 {
      var j, i := js[0], js[1];
      MoveIsNear(t, rec, i, j);
      TailPath(t, rec, g, js);
      hide Table.Slot, CanMove, CanHop, FindHop, Path;
      assert Occupied(t, rec, g, i);
      PathReaches(t, rec, g, js[1..]);
      HopIsMove(t, rec, i, j);
      var h := FindHop(t, rec, j, t.neighbor - 1);
      assert j - (t.neighbor - 1) <= i;
      assert h <= i;
      ReachesPrefix(t, rec, g, h, i);
    }
  }

  /** A move never reaches across a neighbourhood. */
  lemma MoveIsNear(t: Table, rec: seq<Entry>, i: int, j: int)
    requires t.Valid() && |rec| == t.span && CanMove(t, rec, i, j)
    ensures j - t.neighbor < i < j
  {
  }

  lemma TailPath(t: Table, rec: seq<Entry>, g: int, js: seq<int>)
    requires 0 < t.span == |rec| && Path(t, rec, g, js) && |js| > 1
    ensures Path(t, rec, g, js[1..]) && js[0] >= g + t.neighbor && CanMove(t, rec, js[1], js[0])
  {
    hide CanMove;
    var rest := js[1..];
    forall u | 0 <= u < |rest| - 1
      ensures rest[u] >= g + t.neighbor && CanMove(t, rec, rest[u + 1], rest[u])
    {
      assert rest[u] == js[u + 1] && rest[u + 1] == js[u + 2];
    }
  }

  lemma ConsPath(t: Table, rec: seq<Entry>, g: int, j: int, js: seq<int>)
    requires 0 < t.span == |rec| && Path(t, rec, g, js) && j >= g + t.neighbor && CanMove(t, rec, js[0], j)
    ensures Path(t, rec, g, [j] + js)
  {
    hide CanMove;
    var all := [j] + js;
    forall u | 0 <= u < |all| - 1
      ensures all[u] >= g + t.neighbor && CanMove(t, rec, all[u + 1], all[u])
    {
      assert all[u + 1] == js[u] && (u > 0 ==> all[u] == js[u - 1]);
    }
  }

  lemma {:induction false} ReachesPath(t: Table, rec: seq<Entry>, g: int, j: int) returns (js: seq<int>)
    requires t.Valid() && |rec| == t.span && Placed(t, rec) && 0 <= g && Reaches(t, rec, g, j)
    requires g <= j < g + t.span <= 2 * t.span && Occupied(t, rec, g, j)
    ensures Path(t, rec, g, js) && |js| > 0 && js[0] == j
    decreases j
  {
    if j < g + t.neighbor {
      js := [j];
    } else {
      hide Table.Slot, CanMove, CanHop, FindHop, Path;
      var h := FindHop(t, rec, j, t.neighbor - 1);
      HopIsMove(t, rec, h, j);
      var rest := ReachesPath(t, rec, g, h);
      ConsPath(t, rec, g, j, rest);
      js := [j] + rest;
    }
  }

  /** Hopping fails at a hole that no key can move into. */
  lemma {:induction false} FailsStuck(t: Table, rec: seq<Entry>, g: int, j: int) returns (i: int)
    requires t.Valid() && |rec| == t.span && Placed(t, rec) && 0 <= g && !Reaches(t, rec, g, j)
    requires g <= j < g + t.span <= 2 * t.span && Occupied(t, rec, g, j)
    ensures g + t.neighbor <= i <= j && Stuck(t, rec, g, i)
    decreases j
  {
    hide Table.Slot, CanMove, CanHop, FindHop;
    var h := FindHop(t, rec, j, t.neighbor - 1);
    if h < j {
      i := FailsStuck(t, rec, g, h);
    } else {
      i := j;
      forall u | j - t.neighbor < u < j
        ensures !CanMove(t, rec, u, j)
      {
        HopIsMove(t, rec, u, j);
      }
    }
  }

  /** Index js[0] is the first empty one from g on, and moves along js bring the
      hole into the neighbourhood of g. */
  ghost predicate InsertPath(t: Table, rec: seq<Entry>, g: int, js: seq<int>)
    requires 0 < t.span == |rec|
  {
    && Path(t, rec, g, js) && g <= js[0] < g + t.span
    && rec[t.Slot(js[0])].key == NULL_KEY && Occupied(t, rec, g, js[0])
  }

  ghost predicate SomePath(t: Table, rec: seq<Entry>, g: int)
    requires 0 < t.span == |rec|
  {
    exists js :: InsertPath(t, rec, g, js)
  }

  /** No slot is empty, or the hole gets stuck. */
  ghost predicate Blocked(t: Table, rec: seq<Entry>, g: int)
    requires 0 < t.span == |rec|
  {
    (forall s :: 0 <= s < t.span ==> rec[s].key != NULL_KEY) || exists j :: j < g + t.span && Stuck(t, rec, g, j)
  }

  lemma EverySlot(t: Table, rec: seq<Entry>, g: int)
    requires 0 < t.span == |rec| && 0 <= g < t.span && Occupied(t, rec, g, g + t.span)
    ensures forall s :: 0 <= s < t.span ==> rec[s].key != NULL_KEY
  {
    forall s | 0 <= s < t.span
      ensures rec[s].key != NULL_KEY
    {
      var i := if s >= g then s else s + t.span;
      t.SlotIs(i);
      assert rec[t.Slot(i)].key != NULL_KEY;
    }
  }

  /** A key can be inserted exactly if some sequence of moves makes room for it,
      whatever order the moves are tried in; otherwise the leaf is blocked. */
  lemma CanInsertIs(t: Table, rec: seq<Entry>, k: nat)
    requires t.Valid() && Good(t, rec)
    ensures CanInsert(t, rec, k) <==> SomePath(t, rec, t.hash(k))
    ensures !CanInsert(t, rec, k) ==> Blocked(t, rec, t.hash(k))
  {
    hide *;
    CanInsertMeans(t, rec, k);
    var g := t.hash(k);
    var e := FirstEmpty(t, rec, g, g + t.span);
    if SomePath(t, rec, g) {
      PathInserts(t, rec, g, e);
    }
    if e == g + t.span {
      EverySlot(t, rec, g);
      NowhereEmpty(t, rec, g);
    } else if Reaches(t, rec, g, e) {
      var js := ReachesPath(t, rec, g, e);
      PathIs(t, rec, g, js);
    } else {
      var j := FailsStuck(t, rec, g, e);
      StuckBlocks(t, rec, g, j);
    }
  }

  lemma CanInsertMeans(t: Table, rec: seq<Entry>, k: nat)
    requires t.Valid() && Good(t, rec)
    ensures 0 <= t.hash(k) < t.span == |rec| && 0 < t.neighbor
    ensures var g := t.hash(k);
            var e := FirstEmpty(t, rec, g, g + t.span);
            && g <= e <= g + t.span
            && (CanInsert(t, rec, k) <==> e < g + t.span && Reaches(t, rec, g, e))
            && Placed(t, rec) && Occupied(t, rec, g, e) && (e < g + t.span ==> rec[t.Slot(e)].key == NULL_KEY)
  {
    hide Reaches, Placed, BitsOk, Table.Slot;
  }

  lemma PathInserts(t: Table, rec: seq<Entry>, g: int, e: int)
    requires t.Valid() && |rec| == t.span && Placed(t, rec) && 0 <= g < t.span && SomePath(t, rec, g)
    requires g <= e <= g + t.span && Occupied(t, rec, g, e) && (e < g + t.span ==> rec[t.Slot(e)].key == NULL_KEY)
    ensures e < g + t.span && Reaches(t, rec, g, e)
  {
    hide Table.Slot, CanMove, Reaches, Placed;
    var js :| InsertPath(t, rec, g, js);
    assert js[0] == e;
    PathReaches(t, rec, g, js);
  }

  lemma PathIs(t: Table, rec: seq<Entry>, g: int, js: seq<int>)
    requires 0 < t.span == |rec| && Path(t, rec, g, js) && |js| > 0 && g <= js[0] < g + t.span
    requires rec[t.Slot(js[0])].key == NULL_KEY && Occupied(t, rec, g, js[0])
    ensures SomePath(t, rec, g)
  {
    assert InsertPath(t, rec, g, js);
  }

  lemma StuckBlocks(t: Table, rec: seq<Entry>, g: int, j: int)
    requires 0 < t.span == |rec| && j < g + t.span && Stuck(t, rec, g, j)
    ensures Blocked(t, rec, g)
  {
  }

  lemma NowhereEmpty(t: Table, rec: seq<Entry>, g: int)
    requires 0 < t.span == |rec| && forall s :: 0 <= s < t.span ==> rec[s].key != NULL_KEY
    ensures Blocked(t, rec, g)
  {
  }

  /** Move the key at slot s to the empty slot u. */
  function Moved(t: Table, rec: seq<Entry>, s: nat, u: nat): (out: seq<Entry>)
    requires t.span > 0 && s < |rec| && u < |rec| && t.hash(rec[s].key) < |rec| && t.Dist(u, t.hash(rec[s].key)) >= 0
    ensures |out| == |rec|
  {
    With(t, Without(t, rec, s), u, rec[s].key, rec[s].value)
  }

  lemma MovedGood(t: Table, rec: seq<Entry>, s: nat, u: nat)
    requires t.Valid() && Good(t, rec) && s < |rec| && u < |rec| && s != u
    requires rec[s].key != NULL_KEY && rec[u].key == NULL_KEY && t.Dist(u, t.hash(rec[s].key)) < t.neighbor
    ensures t.Dist(u, t.hash(rec[s].key)) >= 0 && Good(t, Moved(t, rec, s, u))
    ensures forall k, v :: Holds(Moved(t, rec, s, u), k, v) <==> Holds(rec, k, v)
  {
    WithoutGood(t, rec, s);
    assert !Has(Without(t, rec, s), rec[s].key) && Without(t, rec, s)[u].key == NULL_KEY;
    hide Good, Has;
    WithGood(t, Without(t, rec, s), u, rec[s].key, rec[s].value);
    MovedHolds(t, rec, s, u);
  }

  lemma MovedAt(t: Table, rec: seq<Entry>, s: nat, u: nat, i: nat)
    requires t.Valid() && |rec| == t.span && s < |rec| && u < |rec| && s != u && i < |rec|
    requires t.Dist(u, t.hash(rec[s].key)) >= 0
    ensures var m := Moved(t, rec, s, u);
            && (i == u ==> m[i].key == rec[s].key && m[i].value == rec[s].value)
            && (i == s ==> m[i].key == NULL_KEY)
            && (i != u && i != s ==> m[i].key == rec[i].key && m[i].value == rec[i].value)
  {
  }

  lemma MovedHolds(t: Table, rec: seq<Entry>, s: nat, u: nat)
    requires t.Valid() && |rec| == t.span && s < |rec| && u < |rec| && s != u
    requires rec[s].key != NULL_KEY && rec[u].key == NULL_KEY && t.Dist(u, t.hash(rec[s].key)) >= 0
    ensures forall k, v :: Holds(Moved(t, rec, s, u), k, v) <==> Holds(rec, k, v)
  {
    hide Moved;
    var m := Moved(t, rec, s, u);
    MovedAt(t, rec, s, u, u);
    forall k, v
      ensures Holds(m, k, v) <==> Holds(rec, k, v)
    {
      if Holds(rec, k, v) {
        var i :| 0 <= i < |rec| && rec[i].key == k && rec[i].value == v;
        MovedAt(t, rec, s, u, i);
      }
      if Holds(m, k, v) {
        var i :| 0 <= i < |m| && m[i].key == k && m[i].value == v;
        MovedAt(t, rec, s, u, i);
      }
    }
  }
}
