/** Hopscotch insertion in place, hop by hop. */
module HopInsert {
  import opened LeafSlots
  import opened Hopscotch

  lemma SlotsDiffer(t: Table, g: int, i: int, j: int)
    requires t.span > 0 && 0 <= g < t.span && g <= i < j < g + t.span
    ensures t.Slot(i) != t.Slot(j)
  {
    t.SlotIs(i);
    t.SlotIs(j);
  }

  /** Slot s lies in the stretch of slots from g to logical index e. */
  predicate InSegment(t: Table, g: int, e: int, s: int) {
    t.Dist(s, g) <= e - g
  }

  lemma InSegmentIs(t: Table, g: int, e: int, s: int)
    requires t.span > 0 && 0 <= g < t.span && g <= e < g + t.span && 0 <= s < t.span
    ensures InSegment(t, g, e, s) <==> exists i :: g <= i <= e && s == t.Slot(i)
  {
    var i := if s >= g then s else s + t.span;
    t.SlotIs(i);
    if u :| g <= u <= e && s == t.Slot(u) {
      t.SlotIs(u);
    }
  }

  lemma SlotInSegment(t: Table, g: int, e: int, i: int)
    requires t.span > 0 && 0 <= g < t.span && g <= i <= e < g + t.span
    ensures InSegment(t, g, e, t.Slot(i))
  {
    t.SlotIs(i);
  }

  ghost predicate SameBindings(a: seq<Entry>, b: seq<Entry>) {
    forall k, v :: Holds(a, k, v) <==> Holds(b, k, v)
  }

  /** The state between two hops. The leaf is `virt` with a hole at logical
      index j, except that the hole still shows the key that left it. */
  ghost predicate Hopping(t: Table, was: seq<Entry>, rec: seq<Entry>, virt: seq<Entry>, g: int, e: int, j: int)
    requires t.Valid()
  {
    && |was| == |rec| == |virt| == t.span && Good(t, virt) && SameBindings(virt, was)
    && 0 <= g < t.span && g <= j <= e < g + t.span
    && virt[t.Slot(j)].key == NULL_KEY && rec[t.Slot(j)].hop == virt[t.Slot(j)].hop
    && (forall s :: 0 <= s < t.span && s != t.Slot(j) ==> rec[s] == virt[s])
    && (forall i :: g <= i < j ==> rec[t.Slot(i)].key == was[t.Slot(i)].key != NULL_KEY)
    && (Reaches(t, was, g, e) <==> Reaches(t, was, g, j))
    && (forall s :: 0 <= s < t.span && !InSegment(t, g, e, s) ==> rec[s] == was[s])
  }

  /** What one hop writes: the key to index j, and its two bits. */
  function HopWritten(t: Table, rec: seq<Entry>, h: int, j: int): (out: seq<Entry>)
    requires 0 < t.span == |rec|
    requires t.LogicalHome(h, rec[t.Slot(h)].key) <= h < j
    ensures |out| == |rec|
  {
    var e := rec[t.Slot(h)];
    var home := t.LogicalHome(h, e.key);
    var copied := rec[t.Slot(j) := rec[t.Slot(j)].(key := e.key, value := e.value)];
    var s := t.Slot(home);
    copied[s := copied[s].(hop := copied[s].hop - {h - home} + {j - home})]
  }

  /** One hop: the asserted bits are as expected, and the hole moves to h. */
  lemma OneHop(t: Table, was: seq<Entry>, rec: seq<Entry>, virt: seq<Entry>, g: int, e: int, j: int, h: int)
    requires t.Valid() && Hopping(t, was, rec, virt, g, e, j) && j >= g + t.neighbor
    requires h == FindHop(t, rec, j, t.neighbor - 1) < j
    ensures var home := t.LogicalHome(h, rec[t.Slot(h)].key);
            && g < home <= h && 0 <= h - home < t.neighbor && 0 <= j - home < t.neighbor
            && h - home in rec[t.Slot(home)].hop && j - home !in rec[t.Slot(home)].hop
            && t.hash(virt[t.Slot(h)].key) < t.span && t.Dist(t.Slot(j), t.hash(virt[t.Slot(h)].key)) >= 0
            && Hopping(t, was, HopWritten(t, rec, h, j), Moved(t, virt, t.Slot(h), t.Slot(j)), g, e, h)
  {
    hide Table.Slot, Table.Dist, Table.LogicalHome, HopWritten, Moved, Good, InSegment, FindHop, Reaches, Holds;
    var u, s := t.Slot(j), t.Slot(h);
    SlotsDiffer(t, g, h, j);
    assert rec[s] == virt[s];
    HopBits(t, virt, h, j);
    var home := t.LogicalHome(h, rec[s].key);
    MovedGood(t, virt, s, u);
    HopReaches(t, was, rec, g, j, h);
    HopFrame(t, was, rec, g, e, j, h);
    HopMatches(t, rec, virt, g, j, h);
  }

  lemma BitAt(t: Table, rec: seq<Entry>, s: nat, o: nat)
    requires t.Valid() && Good(t, rec) && s < t.span && o < t.neighbor
    ensures o in rec[s].hop <==> Occupies(t, rec, s, o)
  {
  }

  /** Logical indices and slots measure distances alike. */
  lemma SlotPast(t: Table, home: int, o: nat)
    requires t.Valid() && 0 - t.span <= home && home + o < 2 * t.span && o < t.neighbor
    ensures t.Slot(t.Slot(home) + o) == t.Slot(home + o) && o == t.Dist(t.Slot(home + o), t.Slot(home))
  {
    t.SlotIs(home);
    t.SlotIs(home + o);
    t.SlotIs(t.Slot(home) + o);
  }

  lemma HopBits(t: Table, virt: seq<Entry>, h: int, j: int)
    requires t.Valid() && Good(t, virt) && 0 <= h < j < 2 * t.span && j < h + t.neighbor
    requires virt[t.Slot(h)].key != NULL_KEY && virt[t.Slot(j)].key == NULL_KEY && CanHop(t, virt, h, j)
    ensures var home := t.LogicalHome(h, virt[t.Slot(h)].key);
            && h - t.neighbor < home <= h && 0 <= h - home < j - home < t.neighbor
            && t.Slot(home) == t.hash(virt[t.Slot(h)].key)
            && h - home == t.Dist(t.Slot(h), t.Slot(home)) && j - home == t.Dist(t.Slot(j), t.Slot(home))
            && h - home in virt[t.Slot(home)].hop && j - home !in virt[t.Slot(home)].hop
  {
    HomeOf(t, virt, h);
    hide Good, Table.Slot, Table.Dist, Table.LogicalHome;
    var home := t.LogicalHome(h, virt[t.Slot(h)].key);
    SlotPast(t, home, h - home);
    SlotPast(t, home, j - home);
    BitAt(t, virt, t.Slot(home), h - home);
    BitAt(t, virt, t.Slot(home), j - home);
  }

  lemma HopReaches(t: Table, was: seq<Entry>, rec: seq<Entry>, g: int, j: int, h: int)
    requires t.Valid() && |was| == |rec| == t.span && j >= g + t.neighbor
    requires forall i :: g <= i < j ==> rec[t.Slot(i)].key == was[t.Slot(i)].key
    requires h == FindHop(t, rec, j, t.neighbor - 1)
    ensures Reaches(t, was, g, j) <==> h < j && Reaches(t, was, g, h)
  {
    FindHopLocal(t, rec, was, j, t.neighbor - 1);
  }

  lemma HopFrame(t: Table, was: seq<Entry>, rec: seq<Entry>, g: int, e: int, j: int, h: int)
    requires t.Valid() && |was| == |rec| == t.span && 0 <= g < t.span && g <= h < j <= e < g + t.span
    requires forall i :: g <= i < j ==> rec[t.Slot(i)].key == was[t.Slot(i)].key != NULL_KEY
    requires forall s :: 0 <= s < t.span && !InSegment(t, g, e, s) ==> rec[s] == was[s]
    requires g <= t.LogicalHome(h, rec[t.Slot(h)].key) <= h
    ensures var out := HopWritten(t, rec, h, j);
            && (forall i :: g <= i < h ==> out[t.Slot(i)].key == was[t.Slot(i)].key != NULL_KEY)
            && (forall s :: 0 <= s < t.span && !InSegment(t, g, e, s) ==> out[s] == was[s])
  {
    var home := t.LogicalHome(h, rec[t.Slot(h)].key);
    SlotInSegment(t, g, e, j);
    SlotInSegment(t, g, e, home);
    forall i | g <= i < h
      ensures t.Slot(i) != t.Slot(j)
    {
      SlotsDiffer(t, g, i, j);
    }
  }

  lemma HopMatches(t: Table, rec: seq<Entry>, virt: seq<Entry>, g: int, j: int, h: int)
    requires t.Valid() && |rec| == |virt| == t.span && t.Slot(h) != t.Slot(j)
    requires forall s :: 0 <= s < t.span && s != t.Slot(j) ==> rec[s] == virt[s]
    requires virt[t.Slot(j)].key == NULL_KEY && rec[t.Slot(j)].hop == virt[t.Slot(j)].hop
    requires virt[t.Slot(h)].key != NULL_KEY
    requires var home := t.LogicalHome(h, virt[t.Slot(h)].key);
             && home <= h < j && t.Slot(home) == t.hash(virt[t.Slot(h)].key)
             && h - home == t.Dist(t.Slot(h), t.Slot(home)) && j - home == t.Dist(t.Slot(j), t.Slot(home))
    ensures t.Dist(t.Slot(j), t.hash(virt[t.Slot(h)].key)) >= 0
    ensures var out, moved := HopWritten(t, rec, h, j), Moved(t, virt, t.Slot(h), t.Slot(j));
            && moved[t.Slot(h)].key == NULL_KEY && out[t.Slot(h)].hop == moved[t.Slot(h)].hop
            && forall s :: 0 <= s < t.span && s != t.Slot(h) ==> out[s] == moved[s]
  {
  }

  // ---- the loops ----------------------------------------------------------

  method FindEmpty(t: Table, a: array<Entry>, g: int) returns (e: int)
    requires 0 < t.span == a.Length
    ensures e == FirstEmpty(t, a[..], g, g + t.span)
  {
    e := g;
    while e < g + t.span
      invariant g <= e <= g + t.span && FirstEmpty(t, a[..], g, g + t.span) == FirstEmpty(t, a[..], e, g + t.span)
    {
      if a[t.Slot(e)].key == NULL_KEY {
        return;
      }
      e := e + 1;
    }
  }

  /** The assertion made of every candidate: its key's home is not past it. */
  predicate HomeBelow(t: Table, rec: seq<Entry>, h: int)
    requires 0 < t.span == |rec|
  {
    t.LogicalHome(h, rec[t.Slot(h)].key) <= h
  }

  /** The farthest candidate that can hop to j, or j; and whether the assertion
      held for all candidates up to there. */
  method HopTarget(t: Table, a: array<Entry>, j: int) returns (h: int, holds: bool)
    requires 0 < t.span == a.Length && t.neighbor > 0
    ensures h == FindHop(t, a[..], j, t.neighbor - 1)
    ensures holds <==> forall i :: j - t.neighbor < i <= h && i < j ==> HomeBelow(t, a[..], i)
  {
    hide Table.LogicalHome, Table.Slot;
    var offset := t.neighbor - 1;
    holds := true;
    while offset > 0
      invariant offset >= 0 && FindHop(t, a[..], j, t.neighbor - 1) == FindHop(t, a[..], j, offset)
      invariant holds <==> forall i :: j - t.neighbor < i < j - offset ==> HomeBelow(t, a[..], i)
    {
      h := j - offset;
      var home := t.LogicalHome(h, a[t.Slot(h)].key);
      holds := holds && home <= h;
      assert home <= h <==> HomeBelow(t, a[..], h);
      assert holds <==> forall i :: j - t.neighbor < i < h + 1 ==> HomeBelow(t, a[..], i);
      if home + t.neighbor > j {
        return;
      }
      offset := offset - 1;
    }
    return j, holds;
  }

  /** While hopping, every candidate meets the assertion. */
  lemma CandidatesBelow(t: Table, was: seq<Entry>, rec: seq<Entry>, virt: seq<Entry>, g: int, e: int, j: int)
    requires t.Valid() && Hopping(t, was, rec, virt, g, e, j) && j >= g + t.neighbor
    ensures forall i :: j - t.neighbor < i < j ==> HomeBelow(t, rec, i)
  {
    forall i | j - t.neighbor < i < j
      ensures HomeBelow(t, rec, i)
    {
      SlotsDiffer(t, g, i, j);
      HomeOf(t, virt, i);
    }
  }

  /** Write one hop: copy the key and move its bit. */
  method HopOnce(t: Table, a: array<Entry>, h: int, j: int)
    requires 0 < t.span == a.Length && t.Slot(h) != t.Slot(j)
    requires var home := t.LogicalHome(h, a[t.Slot(h)].key);
             home <= h < j && h - home in a[t.Slot(home)].hop && j - home !in a[t.Slot(home)].hop
    modifies a
    ensures a[..] == HopWritten(t, old(a[..]), h, j)
  {
    var e := a[t.Slot(h)];
    var home := t.LogicalHome(h, e.key);
    a[t.Slot(j)] := a[t.Slot(j)].(key := e.key, value := e.value);
    var s := t.Slot(home);
    assert h - home in a[s].hop;
    a[s] := a[s].(hop := a[s].hop - {h - home});
    assert j - home !in a[s].hop;
    a[s] := a[s].(hop := a[s].hop + {j - home});
  }

  /** Put the key into the hole and set its bit. */
  method Fill(t: Table, a: array<Entry>, k: nat, v: int, g: nat, j: int)
    requires 0 < t.span == a.Length && g == t.hash(k) < t.span && g <= j < g + t.span && j - g !in a[g].hop
    modifies a
    ensures t.Dist(t.Slot(j), g) == j - g && a[..] == With(t, old(a[..]), t.Slot(j), k, v)
  {
    t.SlotIs(j);
    a[t.Slot(j)] := a[t.Slot(j)].(key := k, value := v);
    assert j - g !in a[g].hop;
    a[g] := a[g].(hop := a[g].hop + {j - g});
  }

  /** The slots hopped through, latest last, are those of falling indices. */
  ghost predicate HoppedFrom(t: Table, hopped: seq<nat>, js: seq<int>, g: int, e: int, j: int)
    requires t.span > 0
  {
    && |hopped| == |js| > 0 && js[|js| - 1] == j
    && (forall i, u :: 0 <= i < u < |js| ==> js[u] < js[i])
    && (forall i :: 0 <= i < |js| ==> g <= js[i] <= e && hopped[i] == t.Slot(js[i]))
  }

  /** Only hopped slots have changed their key or value. */
  ghost predicate ChangedOnly(was: seq<Entry>, rec: seq<Entry>, hopped: seq<nat>) {
    |was| == |rec| &&
    forall s :: 0 <= s < |rec| && s !in hopped ==> rec[s].key == was[s].key && rec[s].value == was[s].value
  }

  /** Each slot hopped through shows the key that was at the next one. */
  ghost predicate Carried(t: Table, was: seq<Entry>, rec: seq<Entry>, js: seq<int>)
    requires 0 < t.span == |was| == |rec|
  {
    forall u :: 0 <= u < |js| - 1 ==> rec[t.Slot(js[u])].key == was[t.Slot(js[u + 1])].key
  }

  lemma NextCarried(t: Table, was: seq<Entry>, rec: seq<Entry>, hopped: seq<nat>,
                    js: seq<int>, g: int, e: int, j: int, h: int)
    requires 0 < t.span == |rec| == |was| && 0 <= g < t.span && e < g + t.span && HoppedFrom(t, hopped, js, g, e, j)
    requires Carried(t, was, rec, js) && g <= h < j && t.LogicalHome(h, rec[t.Slot(h)].key) <= h
    requires rec[t.Slot(h)].key == was[t.Slot(h)].key
    ensures Carried(t, was, HopWritten(t, rec, h, j), js + [h])
  {
    var out, all := HopWritten(t, rec, h, j), js + [h];
    forall u | 0 <= u < |all| - 1
      ensures out[t.Slot(all[u])].key == was[t.Slot(all[u + 1])].key
    {
      if u < |js| - 1 {
        SlotsDiffer(t, g, j, js[u]);
        assert all[u + 1] == js[u + 1];
      }
    }
  }

  lemma NothingCarried(t: Table, was: seq<Entry>, e: int)
    requires 0 < t.span == |was|
    ensures Carried(t, was, was, [e])
  {
  }

  /** Every hopped slot ends up with another key than it had. */
  lemma HoppedChanged(t: Table, was: seq<Entry>, rec: seq<Entry>, hopped: seq<nat>,
                      js: seq<int>, g: int, e: int, j: int, k: nat, v: int)
    requires t.Valid() && |rec| == |was| == t.span && Distinct(was) && 0 <= g < t.span && e < g + t.span
    requires HoppedFrom(t, hopped, js, g, e, j) && Carried(t, was, rec, js) && js[0] == e
    requires was[t.Slot(e)].key == NULL_KEY && Occupied(t, was, g, e) && k != NULL_KEY && !Has(was, k)
    requires t.Dist(t.Slot(j), t.hash(k)) >= 0
    ensures forall s :: s in hopped ==> s < t.span && With(t, rec, t.Slot(j), k, v)[s].key != was[s].key
  {
    forall i | 0 <= i < |hopped|
      ensures With(t, rec, t.Slot(j), k, v)[hopped[i]].key != was[hopped[i]].key
    {
      hide Table.Slot;
      if i < |js| - 1 {
        SlotsDiffer(t, g, js[i + 1], js[i]);
        SlotsDiffer(t, g, j, js[i]);
        assert was[t.Slot(js[i + 1])].key != NULL_KEY;
      } else {
        assert was[hopped[i]].key != k;
      }
    }
  }

  lemma StartHopping(t: Table, was: seq<Entry>, g: int, e: int)
    requires t.Valid() && Good(t, was) && 0 <= g < t.span && g <= e < g + t.span
    requires e == FirstEmpty(t, was, g, g + t.span)
    ensures Hopping(t, was, was, was, g, e, e) && HoppedFrom(t, [t.Slot(e)], [e], g, e, e)
  {
  }

  lemma NextHopped(t: Table, was: seq<Entry>, rec: seq<Entry>, hopped: seq<nat>,
                   js: seq<int>, g: int, e: int, j: int, h: int)
    requires 0 < t.span == |rec| == |was| && HoppedFrom(t, hopped, js, g, e, j) && ChangedOnly(was, rec, hopped)
    requires g <= h < j && t.LogicalHome(h, rec[t.Slot(h)].key) <= h
    ensures HoppedFrom(t, hopped + [t.Slot(h)], js + [h], g, e, h)
    ensures ChangedOnly(was, HopWritten(t, rec, h, j), hopped + [t.Slot(h)])
  {
    assert t.Slot(j) == hopped[|hopped| - 1];
    var rec' := HopWritten(t, rec, h, j);
    assert forall s :: 0 <= s < |rec| && s != t.Slot(j) ==> rec'[s].key == rec[s].key && rec'[s].value == rec[s].value;
    assert forall s :: s in hopped ==> s in hopped + [t.Slot(h)];
  }

  /** Hop until the hole is in k's neighbourhood, or give up. */
  method HopDown(t: Table, a: array<Entry>, g: nat, e: int, ghost was: seq<Entry>)
    returns (ok: bool, j: int, hopped: seq<nat>, ghost virt: seq<Entry>, ghost js: seq<int>)
    requires t.Valid() && a.Length == t.span && was == a[..] && Good(t, was) && g < t.span
    requires e == FirstEmpty(t, was, g, g + t.span) < g + t.span
    modifies a
    ensures ok <==> Reaches(t, was, g, e)
    ensures ok ==> Hopping(t, was, a[..], virt, g, e, j) && j < g + t.neighbor
    ensures ok ==> HoppedFrom(t, hopped, js, g, e, j) && ChangedOnly(was, a[..], hopped)
    ensures ok ==> Carried(t, was, a[..], js) && js[0] == e
  {
    hide *;
    StartHopping(t, was, g, e);
    NothingCarried(t, was, e);
    j, hopped := e, [t.Slot(e)];
    virt, js := was, [e];
    assert ChangedOnly(was, a[..], hopped) by { Unchanged(was, hopped); }
    while j >= g + t.neighbor
      invariant a.Length == t.span && Hopping(t, was, a[..], virt, g, e, j)
      invariant HoppedFrom(t, hopped, js, g, e, j) && ChangedOnly(was, a[..], hopped)
      invariant Carried(t, was, a[..], js) && |js| > 0 && js[0] == e
      decreases j
    {
      HoppingFacts(t, was, a[..], virt, g, e, j);
      CandidatesBelow(t, was, a[..], virt, g, e, j);
      var h, holds := HopTarget(t, a, j);
      assert holds;
      HopReaches(t, was, a[..], g, j, h);
      if h == j {
        return false, j, hopped, virt, js;
      }
      OneHop(t, was, a[..], virt, g, e, j, h);
      NextHopped(t, was, a[..], hopped, js, g, e, j, h);
      NextCarried(t, was, a[..], hopped, js, g, e, j, h);
      SlotsDiffer(t, g, h, j);
      HopOnce(t, a, h, j);
      virt, js := Moved(t, virt, t.Slot(h), t.Slot(j)), js + [h];
      j, hopped := h, hopped + [t.Slot(h)];
    }
    HoppingFacts(t, was, a[..], virt, g, e, j);
    Arrived(t, was, g, j);
    ok := true;
  }

  lemma Unchanged(was: seq<Entry>, hopped: seq<nat>)
    ensures ChangedOnly(was, was, hopped)
  {
  }

  lemma Arrived(t: Table, was: seq<Entry>, g: int, j: int)
    requires 0 < t.span == |was| && t.neighbor > 0 && j < g + t.neighbor
    ensures Reaches(t, was, g, j)
  {
  }

  lemma HoppingFacts(t: Table, was: seq<Entry>, rec: seq<Entry>, virt: seq<Entry>, g: int, e: int, j: int)
    requires t.Valid() && Hopping(t, was, rec, virt, g, e, j)
    ensures 0 < t.neighbor <= t.span == |rec| == |was| == |virt| && g <= j <= e < g + t.span && 0 <= g < t.span
    ensures forall i :: g <= i < j ==> rec[t.Slot(i)].key == was[t.Slot(i)].key
    ensures Reaches(t, was, g, e) <==> Reaches(t, was, g, j)
  {
  }

  // ---- insertion ----------------------------------------------------------

  /** The bindings of `out` are those of `was` and k -> v. */
  ghost predicate Gains(was: seq<Entry>, out: seq<Entry>, k: nat, v: int) {
    forall k', v' :: Holds(out, k', v') <==> Holds(was, k', v') || (k' == k && v' == v)
  }

  /** Filling the hole completes the insertion. */
  lemma Filled(t: Table, was: seq<Entry>, rec: seq<Entry>, virt: seq<Entry>, g: int, e: int, j: int, k: nat, v: int)
    requires t.Valid() && Hopping(t, was, rec, virt, g, e, j) && j < g + t.neighbor
    requires g == t.hash(k) && k != NULL_KEY && !Has(was, k)
    ensures j - g !in rec[g].hop && t.Dist(t.Slot(j), g) == j - g
    ensures var out := With(t, rec, t.Slot(j), k, v);
            && Good(t, out) && Gains(was, out, k, v)
            && forall s :: 0 <= s < t.span && !InSegment(t, g, e, s) ==> out[s] == was[s]
  {
    var s := t.Slot(j);
    t.SlotIs(j);
    assert !Occupies(t, virt, g, j - g);
    SlotInSegment(t, g, e, j);
    SlotInSegment(t, g, e, g);
    t.SlotIs(g);
    if Has(virt, k) {
      HasToo(was, virt, k);
      assert false;
    }
    WithGood(t, virt, s, k, v);
    GainsWith(t, virt, s, k, v);
    assert With(t, rec, s, k, v) == With(t, virt, s, k, v);
  }

  lemma HasToo(was: seq<Entry>, virt: seq<Entry>, k: nat)
    requires SameBindings(virt, was) && k != NULL_KEY && Has(virt, k)
    ensures Has(was, k)
  {
    var s :| 0 <= s < |virt| && virt[s].key == k;
    assert Holds(virt, k, virt[s].value);
  }

  lemma GainsWith(t: Table, rec: seq<Entry>, s: nat, k: nat, v: int)
    requires t.span > 0 && s < |rec| && t.hash(k) < |rec| && t.Dist(s, t.hash(k)) >= 0
    requires rec[s].key == NULL_KEY && k != NULL_KEY
    ensures Gains(rec, With(t, rec, s, k, v), k, v)
  {
    var out := With(t, rec, s, k, v);
    assert out[s].key == k && out[s].value == v;
    assert forall i :: 0 <= i < |rec| && i != s ==> out[i].key == rec[i].key && out[i].value == rec[i].value;
    forall k', v'
      ensures Holds(out, k', v') <==> Holds(rec, k', v') || (k' == k && v' == v)
    {
      if Holds(rec, k', v') {
        var i :| 0 <= i < |rec| && rec[i].key == k' && rec[i].value == v';
        assert out[i].key == k' && out[i].value == v';
      }
    }
  }

  lemma HoppedDistinct(t: Table, hopped: seq<nat>, js: seq<int>, g: int, e: int, j: int)
    requires t.span > 0 && 0 <= g < t.span && e < g + t.span && HoppedFrom(t, hopped, js, g, e, j)
    ensures forall i, u :: 0 <= i < u < |hopped| ==> hopped[i] != hopped[u]
    ensures forall i :: 0 <= i < |hopped| ==> hopped[i] < t.span && InSegment(t, g, e, hopped[i])
  {
    forall i, u | 0 <= i < u < |hopped|
      ensures hopped[i] != hopped[u]
    {
      SlotsDiffer(t, g, js[u], js[i]);
    }
    forall i | 0 <= i < |hopped|
      ensures InSegment(t, g, e, hopped[i])
    {
      SlotInSegment(t, g, e, js[i]);
    }
  }

  lemma ChangedFill(t: Table, was: seq<Entry>, rec: seq<Entry>, hopped: seq<nat>, s: nat, k: nat, v: int)
    requires t.span > 0 && ChangedOnly(was, rec, hopped) && s in hopped && s < |rec|
    requires t.hash(k) < |rec| && t.Dist(s, t.hash(k)) >= 0
    ensures ChangedOnly(was, With(t, rec, s, k, v), hopped)
  {
  }

  /** Insert a fresh key. It succeeds exactly when hopping from the first empty
      slot reaches the key's neighbourhood; then the leaf gains just that
      binding, and what changed lies between the hash slot and the empty slot,
      with keys and values changed only in the hopped slots. */
  method Insert(t: Table, a: array<Entry>, k: nat, v: int) returns (ok: bool, e: int, hopped: seq<nat>)
    requires t.Valid() && a.Length == t.span && Good(t, a[..]) && k != NULL_KEY && !Has(a[..], k)
    modifies a
    ensures ok <==> CanInsert(t, old(a[..]), k)
    ensures ok <==> SomePath(t, old(a[..]), t.hash(k))
    ensures !ok ==> Blocked(t, old(a[..]), t.hash(k))
    ensures ok ==> Good(t, a[..]) && Gains(old(a[..]), a[..], k, v)
    ensures ok ==> t.hash(k) <= e < t.hash(k) + t.span && ChangedOnly(old(a[..]), a[..], hopped)
    ensures ok ==> old(a[..])[t.Slot(e)].key == NULL_KEY && Occupied(t, old(a[..]), t.hash(k), e)
    ensures ok ==> forall s :: s in hopped ==> s < t.span && a[..][s].key != old(a[..])[s].key
    ensures ok ==> forall s :: 0 <= s < t.span && !InSegment(t, t.hash(k), e, s) ==> a[..][s] == old(a[..])[s]
    ensures ok ==> forall i :: 0 <= i < |hopped| ==> hopped[i] < t.span && InSegment(t, t.hash(k), e, hopped[i])
    ensures ok ==> forall i, u :: 0 <= i < u < |hopped| ==> hopped[i] != hopped[u]
  {
    hide Good, Gains, Has, Hopping, HoppedFrom, ChangedOnly, Reaches,
         With, InSegment, FirstEmpty, Table.Slot, Table.Dist, SomePath, Blocked,
         Carried, Occupied, Distinct;
    ghost var was := a[..];
    CanInsertIs(t, was, k);
    GoodKeys(t, was);
    var g := t.hash(k);
    e := FindEmpty(t, a, g);
    FirstIsEmpty(t, was, g);
    if e == g + t.span {
      return false, e, [];
    }
    ghost var virt, js;
    var j;
    ok, j, hopped, virt, js := HopDown(t, a, g, e, was);
    if ok {
      HoppingFacts(t, was, a[..], virt, g, e, j);
      Filled(t, was, a[..], virt, g, e, j, k, v);
      HoppedDistinct(t, hopped, js, g, e, j);
      LastHopped(t, hopped, js, g, e, j);
      ChangedFill(t, was, a[..], hopped, t.Slot(j), k, v);
      HoppedChanged(t, was, a[..], hopped, js, g, e, j, k, v);
      Fill(t, a, k, v, g, j);
    }
  }

  lemma GoodKeys(t: Table, rec: seq<Entry>)
    requires t.Valid() && Good(t, rec)
    ensures Distinct(rec)
  {
  }

  lemma FirstIsEmpty(t: Table, rec: seq<Entry>, g: int)
    requires 0 < t.span == |rec|
    ensures var e := FirstEmpty(t, rec, g, g + t.span);
            Occupied(t, rec, g, e) && (e < g + t.span ==> rec[t.Slot(e)].key == NULL_KEY)
  {
  }

  lemma LastHopped(t: Table, hopped: seq<nat>, js: seq<int>, g: int, e: int, j: int)
    requires t.span > 0 && HoppedFrom(t, hopped, js, g, e, j)
    ensures t.Slot(j) in hopped
  {
    assert hopped[|hopped| - 1] == t.Slot(j);
  }
}
