/** Every step of the protocol keeps the invariant. */
module ProtocolSteps {
  import opened LeafSlots
  import opened LeafStore
  import opened Protocol
  import opened ProtocolInvariant

  // ---- the steps spelled out ----------------------------------------------

  /** The decided update of a record in the leaf. */
  lemma UpdateLeafIs(w: Config, s: State, c: nat, a: Address)
    requires Sized(w, s) && w.Valid() && c < |s.clients| && Enabled(w, s, c, a)
    requires s.clients[c].UpdateLocked? && s.clients[c].place == AtLeaf
    requires IndexOf(s.leaves[s.clients[c].h].rec, s.clients[c].k, 0) < |s.leaves[s.clients[c].h].rec|
    ensures var x := s.clients[c];
            var node := Node(Updated(s.leaves[x.h].rec, x.k, x.v), s.leaves[x.h].syn);
            Advanced(w, s, c, a) ==
              s.(clients := s.clients[c := Writing(x.h, [WriteLeaf(node), Unlock(x.word)])],
                 goals := s.goals[x.h := Goal(node, s.goals[x.h].syn)], contents := s.contents[x.k := x.v])
  {
    hide IndexOf, Updated;
  }

  /** The decided update of a record in the synonym leaf. */
  lemma UpdateSynonymIs(w: Config, s: State, c: nat, a: Address)
    requires Sized(w, s) && w.Valid() && c < |s.clients| && Enabled(w, s, c, a)
    requires s.clients[c].UpdateLocked? && s.clients[c].place.AtSynonym?
    requires var rec := SynonymAt(w, s, s.clients[c].place.addr); IndexOf(rec, s.clients[c].k, 0) < |rec|
    ensures var x := s.clients[c];
            var rec := Updated(SynonymAt(w, s, x.place.addr), x.k, x.v);
            Advanced(w, s, c, a) ==
              s.(clients := s.clients[c := Writing(x.h, [WriteSynonym(x.place.addr, rec), Unlock(x.word)])],
                 goals := s.goals[x.h := Goal(s.goals[x.h].node, Some(rec))], contents := s.contents[x.k := x.v])
  {
    hide IndexOf, Updated, SynonymAt;
  }

  /** One write of a batch. */
  lemma WriteIs(w: Config, s: State, c: nat, a: Address)
    requires Sized(w, s) && w.Valid() && c < |s.clients| && Enabled(w, s, c, a) && s.clients[c].Writing?
    ensures var x := s.clients[c];
            Advanced(w, s, c, a) ==
              At(Applied(s, x.h, x.pending[0]), c, if |x.pending| == 1 then Idle else Writing(x.h, x.pending[1..]))
  {
    hide Applied;
  }

  /** One write x of leaf h reached memory. */
  ghost predicate Wrote(s: State, s': State, h: nat, x: Write)
    requires h < |s.leaves|
  {
    && s'.goals == s.goals && s'.contents == s.contents && s'.used == s.used && s'.locks == s.locks
    && (x.WriteLeaf? ==> s'.leaves == s.leaves[h := x.node] && s'.syns == s.syns)
    && (x.WriteSynonym? ==> s'.leaves == s.leaves && s'.syns == s.syns[x.addr := x.rec])
  }

  /** A decided insert of a new key. */
  lemma InsertIs(w: Config, s: State, c: nat, a: Address)
    requires Sized(w, s) && w.Valid() && c < |s.clients| && Enabled(w, s, c, a) && s.clients[c].InsertReady?
    requires Insert(Pair(s.clients[c].node.rec, s.clients[c].syn), s.clients[c].k, s.clients[c].v).Stored?
    ensures var x := s.clients[c];
            var h, r := w.home(x.k), Insert(Pair(x.node.rec, x.syn), x.k, x.v);
            Advanced(w, s, c, a) ==
              s.(clients := s.clients[c := Writing(h, InsertWrites(x.node, r, a, x.word))],
                 goals := s.goals[h := InsertGoal(x.node, r.pair, a)], contents := s.contents[x.k := x.v],
                 used := s.used + {a})
  {
    hide Insert, InsertWrites, InsertGoal, Room;
  }

  // ---- locks --------------------------------------------------------------

  lemma LocksMoved(w: Config, s: State, s': State, c: nat, to: Client)
    requires Sized(w, s) && Sized(w, s') && LocksOk(w, s) && c < |s.clients|
    requires Holding(w, to) == Holding(w, s.clients[c]) && s'.clients == s.clients[c := to] && s'.locks == s.locks
    ensures LocksOk(w, s')
  {
    forall h | 0 <= h < w.count && s'.locks[h] == TAKEN
      ensures HeldBy(w, s', h)
    {
      assert HeldBy(w, s, h);
      var d :| 0 <= d < |s.clients| && Holding(w, s.clients[d]) == Some(h);
      assert Holding(w, s'.clients[d]) == Some(h);
    }
  }

  lemma LocksAcquired(w: Config, s: State, c: nat, to: Client, h: nat)
    requires Sized(w, s) && LocksOk(w, s) && c < |s.clients| && h < w.count && s.locks[h] == FREE
    requires Holding(w, s.clients[c]).None? && Holding(w, to) == Some(h)
    ensures LocksOk(w, At(Locked(s, h), c, to))
  {
    var s' := At(Locked(s, h), c, to);
    forall i | 0 <= i < w.count && s'.locks[i] == TAKEN
      ensures HeldBy(w, s', i)
    {
      if i == h {
        assert Holding(w, s'.clients[c]) == Some(i);
      } else {
        assert HeldBy(w, s, i);
        var d :| 0 <= d < |s.clients| && Holding(w, s.clients[d]) == Some(i);
        assert Holding(w, s'.clients[d]) == Some(i);
      }
    }
  }

  lemma LocksReleased(w: Config, s: State, c: nat, to: Client, h: nat, s': State)
    requires Sized(w, s) && LocksOk(w, s) && c < |s.clients| && h < w.count
    requires Holding(w, s.clients[c]) == Some(h) && Holding(w, to).None?
    requires s'.locks == s.locks[h := FREE] && s'.clients == s.clients[c := to] && Sized(w, s')
    ensures LocksOk(w, s')
  {
    forall i | 0 <= i < w.count && s'.locks[i] == TAKEN
      ensures HeldBy(w, s', i)
    {
      assert HeldBy(w, s, i);
      var d :| 0 <= d < |s.clients| && Holding(w, s.clients[d]) == Some(i);
      assert Holding(w, s'.clients[d]) == Some(i);
    }
  }

  lemma SameContents(w: Config, s: State, s': State)
    requires Sized(w, s) && Sized(w, s') && s'.goals == s.goals && s'.contents == s.contents && ContentsOk(w, s)
    ensures ContentsOk(w, s')
  {
    forall k: nat, v | k != NULL_KEY
      ensures Represents(w, s', k, v)
    {
      assert Represents(w, s, k, v);
    }
  }

  // ---- steps that change only the client ----------------------------------

  lemma ClientStep(w: Config, s: State, c: nat, to: Client)
    requires Inv(w, s) && c < |s.clients| && Holding(w, to) == Holding(w, s.clients[c]) && ClientOk(w, s, to)
    ensures Inv(w, At(s, c, to))
  {
    var s' := At(s, c, to);
    LocksMoved(w, s, s', c, to);
    SameContents(w, s, s');
    forall d | 0 <= d < |s'.clients|
      ensures ClientOk(w, s', s'.clients[d])
    {
      assert ClientOk(w, s, if d == c then to else s.clients[d]);
      SameClient(w, s, s', if d == c then to else s.clients[d]);
    }
    forall h | 0 <= h < w.count
      ensures LeafOk(w, s', h)
    {
      assert LeafOk(w, s, h);
    }
  }

  lemma SameClient(w: Config, s: State, s': State, c: Client)
    requires Sized(w, s) && Sized(w, s') && s'.leaves == s.leaves && s'.goals == s.goals && s'.syns == s.syns
    requires ClientOk(w, s, c)
    ensures ClientOk(w, s', c)
  {
  }

  lemma AcquireStep(w: Config, s: State, c: nat, to: Client, h: nat)
    requires Inv(w, s) && c < |s.clients| && h < w.count && s.locks[h] == FREE
    requires Holding(w, s.clients[c]).None? && Holding(w, to) == Some(h)
    requires Settled(w, s, h) ==> ClientOk(w, s, to)
    ensures Inv(w, At(Locked(s, h), c, to))
  {
    var s' := At(Locked(s, h), c, to);
    assert LeafOk(w, s, h);
    LocksAcquired(w, s, c, to, h);
    SameContents(w, s, s');
    forall d | 0 <= d < |s'.clients|
      ensures ClientOk(w, s', s'.clients[d])
    {
      assert ClientOk(w, s, if d == c then to else s.clients[d]);
      SameClient(w, s, s', if d == c then to else s.clients[d]);
    }
    forall i | 0 <= i < w.count
      ensures LeafOk(w, s', i)
    {
      assert LeafOk(w, s, i);
    }
  }

  // ---- steps of the holder of a leaf --------------------------------------

  lemma LeafStep(w: Config, s: State, s': State, c: nat, to: Client, h: nat)
    requires Inv(w, s) && c < |s.clients| && h < w.count && Holding(w, s.clients[c]) == Some(h)
    requires Sized(w, s') && s'.clients == s.clients[c := to] && Frame(w, s, s', h) && s'.syns.Keys <= s'.used
    requires LocksOk(w, s') && PointersApart(s') && ContentsOk(w, s') && LeafOk(w, s', h) && ClientOk(w, s', to)
    ensures Inv(w, s')
  {
    forall d | 0 <= d < |s'.clients|
      ensures ClientOk(w, s', s'.clients[d])
    {
      if d != c {
        OtherClient(w, s, s', h, s.clients[d]);
      }
    }
    forall i | 0 <= i < w.count
      ensures LeafOk(w, s', i)
    {
      if i != h {
        assert LeafOk(w, s, i);
        OtherLeaf(w, s, s', h, i);
      }
    }
  }

  /** What the invariant says of a client and of the leaf it holds. */
  lemma HolderFacts(w: Config, s: State, c: nat, h: nat)
    requires Inv(w, s) && c < |s.clients| && Holding(w, s.clients[c]) == Some(h)
    ensures w.Valid() && Sized(w, s) && LocksOk(w, s) && PointersApart(s) && ContentsOk(w, s) && s.syns.Keys <= s.used
    ensures h < w.count && LeafOk(w, s, h) && ClientOk(w, s, s.clients[c])
  {
    hide GoalOk, Visible, Settled, PointersApart, ContentsOk, Completes;
  }

  lemma GoalFrame(w: Config, s: State, s': State, h: nat)
    requires Sized(w, s) && Sized(w, s') && h < w.count && s.used <= s'.used
    requires s'.leaves == s.leaves && s'.locks == s.locks && s'.syns == s.syns
    requires s'.goals == s.goals[h := s'.goals[h]] && Grows(s.goals[h], s'.goals[h])
    ensures Frame(w, s, s', h)
  {
    hide Grows;
  }

  lemma WritingOk(w: Config, s: State, h: nat, pending: seq<Write>)
    requires Sized(w, s) && h < w.count && PendingOk(pending) && Completes(w, s, h, pending)
    ensures Holding(w, Writing(h, pending)) == Some(h) && ClientOk(w, s, Writing(h, pending))
  {
    hide PendingOk, Completes;
  }

  lemma TakenLeafOk(w: Config, s: State, h: nat)
    requires Sized(w, s) && h < w.count && s.locks[h] == TAKEN && GoalOk(w, s, h) && Visible(w, s, h)
    ensures LeafOk(w, s, h)
  {
    hide GoalOk, Visible, Settled;
  }

  lemma TakenLock(w: Config, s: State, c: nat, h: nat)
    requires Sized(w, s) && LocksOk(w, s) && c < |s.clients| && Holding(w, s.clients[c]) == Some(h)
    ensures h < w.count && s.locks[h] == TAKEN
  {
    hide HeldBy;
  }

  /** The holder of leaf h decides what it will stand for. */
  lemma GoalStep(w: Config, s: State, s': State, c: nat, h: nat, pending: seq<Write>)
    requires Inv(w, s) && c < |s.clients| && Holding(w, s.clients[c]) == Some(h) && Sized(w, s') && h < w.count
    requires s'.clients == s.clients[c := Writing(h, pending)] && s'.goals == s.goals[h := s'.goals[h]]
    requires s'.leaves == s.leaves && s'.locks == s.locks && s'.syns == s.syns && s.used <= s'.used
    requires ContentsOk(w, s') && PointersApart(s') && Grows(s.goals[h], s'.goals[h])
    requires GoalOk(w, s', h) && Visible(w, s', h) && PendingOk(pending) && Completes(w, s', h, pending)
    ensures Inv(w, s')
  {
    HolderFacts(w, s, c, h);
    hide *;
    var to := Writing(h, pending);
    WritingOk(w, s', h, pending);
    TakenLock(w, s, c, h);
    TakenLeafOk(w, s', h);
    LocksMoved(w, s, s', c, to);
    GoalFrame(w, s, s', h);
    LeafStep(w, s, s', c, to, h);
  }

  // ---- deciding an insert -------------------------------------------------

  /** An insert with room that finds a new key. */
  ghost predicate Decided(p: Pair, k: nat, v: int) {
    |p.leaf| > 0 && Room(p, k, v) && Insert(p, k, v).Stored?
  }

  lemma InsertGrows(w: Config, s: State, h: nat, k: nat, v: int, a: Address)
    requires Inv(w, s) && h < w.count && k != NULL_KEY && w.home(k) == h && a !in s.used
    requires Decided(s.goals[h].AsPair(), k, v)
    ensures var g, r := s.goals[h], Insert(s.goals[h].AsPair(), k, v);
            var g' := InsertGoal(g.node, r.pair, a);
            && PairOk(g'.AsPair(), w.span) && (g'.node.syn.Some? <==> g'.syn.Some?) && Grows(g, g')
            && PairGains(g.AsPair(), g'.AsPair(), k, v) && !PairHas(g.AsPair(), k)
            && (forall k' :: k' != NULL_KEY && PairHas(g'.AsPair(), k') ==> w.home(k') == h)
            && (g'.node.syn.Some? ==> g'.node.syn == g.node.syn || g'.node.syn == Some(a))
  {
    hide Insert, PairOk, Room, PairGains;
    var p := s.goals[h].AsPair();
    assert LeafOk(w, s, h);
    InsertIsCorrect(p, k, v, w.span);
    InsertMoves(p, k, v, w.span);
    var q := Insert(p, k, v).pair;
    PairGainsKeys(p, q, k, v);
    assert InsertGoal(s.goals[h].node, q, a).AsPair() == q;
  }

  lemma ContentsGain(w: Config, s: State, s': State, h: nat, k: nat, v: int)
    requires Sized(w, s) && Sized(w, s') && ContentsOk(w, s) && h < w.count && k != NULL_KEY && w.home(k) == h
    requires s'.goals == s.goals[h := s'.goals[h]] && PairGains(s.goals[h].AsPair(), s'.goals[h].AsPair(), k, v)
    requires !PairHas(s.goals[h].AsPair(), k) && s'.contents == s.contents[k := v]
    ensures ContentsOk(w, s')
  {
    hide PairHas, Holds;
    PairHoldsHas(s.goals[h].AsPair(), k);
    forall k': nat, v' | k' != NULL_KEY
      ensures Represents(w, s', k', v')
    {
      assert Represents(w, s, k', v');
    }
  }

  lemma InsertCompletes(w: Config, s: State, s': State, h: nat, k: nat, v: int, a: Address)
    requires Inv(w, s) && h < w.count && k != NULL_KEY && w.home(k) == h && a !in s.used && Settled(w, s, h)
    requires Decided(s.goals[h].AsPair(), k, v)
    requires Sized(w, s') && s'.leaves == s.leaves && s'.syns == s.syns
    requires s'.goals[h] == InsertGoal(s.goals[h].node, Insert(s.goals[h].AsPair(), k, v).pair, a)
    ensures var pending := InsertWrites(s.goals[h].node, Insert(s.goals[h].AsPair(), k, v), a, FREE);
            PendingOk(pending) && Completes(w, s', h, pending)
  {
    hide Insert, PairOk, Room;
    var g, r := s.goals[h], Insert(s.goals[h].AsPair(), k, v);
    assert LeafOk(w, s, h);
    InsertMoves(g.AsPair(), k, v, w.span);
    var pending := InsertWrites(g.node, r, a, FREE);
    var n := |pending|;
    assert pending[n - 1] == Unlock(FREE);
    assert r.wroteLeaf ==> pending[0].WriteLeaf?;
    assert r.wroteSynonym ==> pending[n - 2].WriteSynonym?;
  }

  /** An insert that finds a new key fixes what the leaf will stand for. */
  lemma InsertStep(w: Config, s: State, c: nat, a: Address)
    requires Inv(w, s) && c < |s.clients| && s.clients[c].InsertReady? && Enabled(w, s, c, a)
    requires Insert(Pair(s.clients[c].node.rec, s.clients[c].syn), s.clients[c].k, s.clients[c].v).Stored?
    ensures Inv(w, Advanced(w, s, c, a))
  {
    var InsertReady(k, v, word, node, syn) := s.clients[c];
    var h, s' := w.home(k), Advanced(w, s, c, a);
    InsertIs(w, s, c, a);
    ReadyFacts(w, s, c);
    HolderFacts(w, s, c, h);
    hide *;
    InsertGrows(w, s, h, k, v, a);
    ContentsGain(w, s, s', h, k, v);
    InsertCompletes(w, s, s', h, k, v, a);
    GrownVisible(w, s, s', h, a);
    GrownGoalOk(w, s, s', h, a);
    FreshPointer(w, s, s', h, a);
    GoalStep(w, s, s', c, h, s'.clients[c].pending);
  }

  /** What the insert read is what the leaf stands for. */
  lemma ReadyFacts(w: Config, s: State, c: nat)
    requires Inv(w, s) && c < |s.clients| && s.clients[c].InsertReady?
    ensures var x := s.clients[c];
            var h := w.home(x.k);
            && h < w.count && x.k != NULL_KEY && x.word == FREE && Settled(w, s, h) && Holding(w, x) == Some(h)
            && s.goals[h].node == x.node && s.goals[h].AsPair() == Pair(x.node.rec, x.syn)
  {
    assert ClientOk(w, s, s.clients[c]);
    hide LeafOk, LocksOk, PointersApart, ContentsOk, Settled;
  }

  lemma GrownGoalOk(w: Config, s: State, s': State, h: nat, a: Address)
    requires Sized(w, s) && Sized(w, s') && h < w.count && LeafOk(w, s, h) && s'.used == s.used + {a}
    requires PairOk(s'.goals[h].AsPair(), w.span) && (s'.goals[h].node.syn.Some? <==> s'.goals[h].syn.Some?)
    requires forall k :: k != NULL_KEY && PairHas(s'.goals[h].AsPair(), k) ==> w.home(k) == h
    requires s'.goals[h].node.syn.Some? ==>
               s'.goals[h].node.syn == s.goals[h].node.syn || s'.goals[h].node.syn == Some(a)
    ensures GoalOk(w, s', h)
  {
    hide PairOk, PairHas, Visible, Settled;
  }

  /** Memory that showed the old leaf is also part of the grown one. */
  lemma GrownVisible(w: Config, s: State, s': State, h: nat, a: Address)
    requires Inv(w, s) && Sized(w, s') && h < w.count && Settled(w, s, h) && a !in s.used
    requires s'.leaves == s.leaves && s'.syns == s.syns && Grows(s.goals[h], s'.goals[h])
    requires s'.goals[h].node.syn.Some? <==> s'.goals[h].syn.Some?
    requires s'.goals[h].node.syn.Some? ==>
               s'.goals[h].node.syn == s.goals[h].node.syn || s'.goals[h].node.syn == Some(a)
    ensures Visible(w, s', h)
  {
    assert LeafOk(w, s, h);
    assert !HasNonNull(Zeros(w));
  }

  ghost predicate HasNonNull(rec: seq<Record>) {
    exists k: nat :: k != NULL_KEY && HasKey(rec, k)
  }

  lemma FreshPointer(w: Config, s: State, s': State, h: nat, a: Address)
    requires Inv(w, s) && Sized(w, s') && h < w.count && a !in s.used
    requires s'.goals == s.goals[h := s'.goals[h]]
    requires s'.goals[h].node.syn.Some? ==>
               s'.goals[h].node.syn == s.goals[h].node.syn || s'.goals[h].node.syn == Some(a)
    ensures PointersApart(s')
  {
    forall i, j | 0 <= i < j < w.count && s'.goals[i].node.syn.Some?
      ensures s'.goals[i].node.syn != s'.goals[j].node.syn
    {
      assert LeafOk(w, s, i) && LeafOk(w, s, j);
    }
  }

  // ---- deciding an update -------------------------------------------------

  /** The bindings of `out` are those of `rec` with k bound to v. */
  ghost predicate Rebinds(rec: seq<Record>, out: seq<Record>, k: nat, v: int) {
    && |out| == |rec| && (forall i :: 0 <= i < |rec| ==> out[i].key == rec[i].key)
    && forall k': nat, v' :: Holds(out, k', v') <==> if k' == k then v' == v else Holds(rec, k', v')
  }

  lemma UpdatedRebinds(rec: seq<Record>, k: nat, v: int)
    requires Ordered(rec) && k != NULL_KEY && IndexOf(rec, k, 0) < |rec|
    ensures Ordered(Updated(rec, k, v)) && Rebinds(rec, Updated(rec, k, v), k, v)
  {
    var i, out := IndexOf(rec, k, 0), Updated(rec, k, v);
    assert out[i] == Record(k, v);
    forall k': nat, v'
      ensures Holds(out, k', v') <==> if k' == k then v' == v else Holds(rec, k', v')
    {
      if k' != k && Holds(rec, k', v') {
        var u :| 0 <= u < |rec| && rec[u] == Record(k', v');
        assert out[u] == Record(k', v');
      }
    }
  }

  lemma IndexOfDecides(rec: seq<Record>, k: nat)
    ensures HasKey(rec, k) <==> IndexOf(rec, k, 0) < |rec|
  {
  }

  lemma SameKeys(rec: seq<Record>, out: seq<Record>)
    requires |out| == |rec| && forall i :: 0 <= i < |rec| ==> out[i].key == rec[i].key
    ensures forall k :: HasKey(rec, k) <==> HasKey(out, k)
  {
    forall k
      ensures HasKey(rec, k) <==> HasKey(out, k)
    {
      if HasKey(rec, k) {
        var i :| 0 <= i < |rec| && rec[i].key == k;
        assert out[i].key == k;
      }
    }
  }

  /** One of the two leaves has k rebound, the other is as before. */
  ghost predicate PairRebinds(p: Pair, q: Pair, k: nat, v: int) {
    forall k': nat, v' :: PairHolds(q, k', v') <==> if k' == k then v' == v else PairHolds(p, k', v')
  }

  lemma LeafRebound(p: Pair, k: nat, v: int, span: nat)
    requires PairOk(p, span) && k != NULL_KEY && IndexOf(p.leaf, k, 0) < |p.leaf|
    ensures var q := Pair(Updated(p.leaf, k, v), p.syn);
            && PairOk(q, span) && PairRebinds(p, q, k, v)
            && forall k' :: HasKey(q.leaf, k') <==> HasKey(p.leaf, k')
  {
    UpdatedRebinds(p.leaf, k, v);
    SameKeys(p.leaf, Updated(p.leaf, k, v));
    assert !HasKey(p.Synonyms(), k);
  }

  lemma SynonymRebound(p: Pair, k: nat, v: int, span: nat)
    requires PairOk(p, span) && k != NULL_KEY && p.syn.Some? && IndexOf(p.syn.value, k, 0) < |p.syn.value|
    ensures var q := Pair(p.leaf, Some(Updated(p.syn.value, k, v)));
            && PairOk(q, span) && PairRebinds(p, q, k, v)
            && forall k' :: HasKey(q.syn.value, k') <==> HasKey(p.syn.value, k')
  {
    UpdatedRebinds(p.syn.value, k, v);
    SameKeys(p.syn.value, Updated(p.syn.value, k, v));
    var i := IndexOf(p.syn.value, k, 0);
    assert p.Synonyms()[i].key == k;
    assert !HasKey(p.leaf, k);
  }

  lemma ContentsRebound(w: Config, s: State, s': State, h: nat, k: nat, v: int)
    requires Sized(w, s) && Sized(w, s') && ContentsOk(w, s) && h < w.count && k != NULL_KEY && w.home(k) == h
    requires s'.goals == s.goals[h := s'.goals[h]] && PairRebinds(s.goals[h].AsPair(), s'.goals[h].AsPair(), k, v)
    requires s'.contents == s.contents[k := v]
    ensures ContentsOk(w, s')
  {
    hide Holds;
    forall k': nat, v' | k' != NULL_KEY
      ensures Represents(w, s', k', v')
    {
      assert Represents(w, s, k', v');
    }
  }

  lemma PointersKept(s: State, s': State, h: nat)
    requires PointersApart(s) && h < |s.goals| == |s'.goals|
    requires s'.goals == s.goals[h := s'.goals[h]] && s'.goals[h].node.syn == s.goals[h].node.syn
    ensures PointersApart(s')
  {
  }

  lemma UpdatedLeafGoal(w: Config, s: State, s': State, h: nat, k: nat, v: int)
    requires Sized(w, s) && Sized(w, s') && h < w.count && LeafOk(w, s, h) && Settled(w, s, h) && k != NULL_KEY
    requires IndexOf(s.leaves[h].rec, k, 0) < |s.leaves[h].rec|
    requires s'.used == s.used
    requires s'.goals[h] == Goal(Node(Updated(s.leaves[h].rec, k, v), s.leaves[h].syn), s.goals[h].syn)
    ensures GoalOk(w, s', h) && Grows(s.goals[h], s'.goals[h]) && w.home(k) == h
    ensures PairRebinds(s.goals[h].AsPair(), s'.goals[h].AsPair(), k, v)
    ensures forall k' :: HasKey(s'.goals[h].node.rec, k') <==> HasKey(s.leaves[h].rec, k')
  {
    hide PairOk, PairRebinds, Updated, IndexOf, Visible;
    var g, g' := s.goals[h], s'.goals[h];
    LeafRebound(g.AsPair(), k, v, w.span);
    assert g'.AsPair() == Pair(Updated(g.node.rec, k, v), g.syn);
    IndexOfDecides(g.node.rec, k);
  }

  lemma UpdatedLeafPending(w: Config, s: State, s': State, h: nat)
    requires Sized(w, s) && Sized(w, s') && h < w.count && Visible(w, s, h) && Settled(w, s, h)
    requires s'.leaves == s.leaves && s'.syns == s.syns
    requires s'.goals[h].node.syn == s.leaves[h].syn && s'.goals[h].syn == s.goals[h].syn
    requires forall k' :: HasKey(s'.goals[h].node.rec, k') <==> HasKey(s.leaves[h].rec, k')
    ensures Visible(w, s', h)
    ensures var pending := [WriteLeaf(s'.goals[h].node), Unlock(FREE)];
            PendingOk(pending) && Completes(w, s', h, pending)
  {
    hide HasKey;
    var pending := [WriteLeaf(s'.goals[h].node), Unlock(FREE)];
    assert pending[0].WriteLeaf? && pending[1] == Unlock(FREE);
  }

  /** What the invariant says of a client that updates under the lock. */
  lemma UpdateFacts(w: Config, s: State, c: nat)
    requires Inv(w, s) && c < |s.clients| && s.clients[c].UpdateLocked?
    ensures var x := s.clients[c];
            && x.h < w.count && x.k != NULL_KEY && x.word == FREE && Settled(w, s, x.h) && PlaceOk(s, x.h, x.k, x.place)
            && Holding(w, x) == Some(x.h)
  {
    assert ClientOk(w, s, s.clients[c]);
    hide LeafOk, LocksOk, PointersApart, ContentsOk, Settled, PlaceOk;
  }

  lemma VisibleLeaf(w: Config, s: State, h: nat)
    requires Sized(w, s) && h < w.count && LeafOk(w, s, h)
    ensures GoalOk(w, s, h) && Visible(w, s, h)
  {
    hide GoalOk, Visible, Settled;
  }

  lemma UpdateLeafStep(w: Config, s: State, c: nat, a: Address)
    requires Inv(w, s) && c < |s.clients| && s.clients[c].UpdateLocked? && s.clients[c].place == AtLeaf
    requires var k, h := s.clients[c].k, s.clients[c].h;
             h < w.count && IndexOf(s.leaves[h].rec, k, 0) < |s.leaves[h].rec|
    requires Enabled(w, s, c, a)
    ensures Inv(w, Advanced(w, s, c, a))
  {
    var UpdateLocked(k, v, h, _, word) := s.clients[c];
    var s' := Advanced(w, s, c, a);
    UpdateLeafIs(w, s, c, a);
    UpdateFacts(w, s, c);
    HolderFacts(w, s, c, h);
    SettledParts(w, s, h);
    hide *;
    VisibleLeaf(w, s, h);
    UpdatedLeafGoal(w, s, s', h, k, v);
    UpdatedLeafPending(w, s, s', h);
    ContentsRebound(w, s, s', h, k, v);
    PointersKept(s, s', h);
    GoalStep(w, s, s', c, h, s'.clients[c].pending);
  }

  lemma SettledParts(w: Config, s: State, h: nat)
    requires Sized(w, s) && h < w.count && Settled(w, s, h)
    ensures s.leaves[h] == s.goals[h].node
    ensures s.goals[h].node.syn.Some? ==> s.goals[h].syn == Some(SynonymAt(w, s, s.goals[h].node.syn.value))
  {
  }

  lemma UpdatedSynonymGoal(w: Config, s: State, s': State, h: nat, k: nat, v: int)
    requires Sized(w, s) && Sized(w, s') && h < w.count && LeafOk(w, s, h) && k != NULL_KEY && s.goals[h].syn.Some?
    requires IndexOf(s.goals[h].syn.value, k, 0) < |s.goals[h].syn.value|
    requires s'.used == s.used
    requires s'.goals[h] == Goal(s.goals[h].node, Some(Updated(s.goals[h].syn.value, k, v)))
    ensures GoalOk(w, s', h) && Grows(s.goals[h], s'.goals[h]) && w.home(k) == h
    ensures PairRebinds(s.goals[h].AsPair(), s'.goals[h].AsPair(), k, v)
    ensures forall k' :: HasKey(s'.goals[h].syn.value, k') <==> HasKey(s.goals[h].syn.value, k')
  {
    hide PairOk, PairRebinds, Updated, IndexOf, Visible;
    var g, g' := s.goals[h], s'.goals[h];
    SynonymRebound(g.AsPair(), k, v, w.span);
    assert g'.AsPair() == Pair(g.node.rec, Some(Updated(g.syn.value, k, v)));
    IndexOfDecides(g.syn.value, k);
  }

  lemma UpdatedSynonymPending(w: Config, s: State, s': State, h: nat, addr: Address)
    requires Sized(w, s) && Sized(w, s') && h < w.count && Visible(w, s, h) && Settled(w, s, h)
    requires s'.leaves == s.leaves && s'.syns == s.syns && s.goals[h].node.syn == Some(addr)
    requires s'.goals[h].node == s.goals[h].node && s.goals[h].syn.Some? && s'.goals[h].syn.Some?
    requires forall k' :: HasKey(s'.goals[h].syn.value, k') <==> HasKey(s.goals[h].syn.value, k')
    ensures Visible(w, s', h)
    ensures var pending := [WriteSynonym(addr, s'.goals[h].syn.value), Unlock(FREE)];
            PendingOk(pending) && Completes(w, s', h, pending)
  {
    hide HasKey;
    var pending := [WriteSynonym(addr, s'.goals[h].syn.value), Unlock(FREE)];
    assert pending[0].WriteSynonym? && pending[1] == Unlock(FREE);
  }

  /** The place says where the key is. */
  lemma PlaceFound(s: State, h: nat, k: nat, addr: Address)
    requires h < |s.goals| && PlaceOk(s, h, k, AtSynonym(addr))
    ensures s.goals[h].node.syn == Some(addr) && s.goals[h].syn.Some?
    ensures IndexOf(s.goals[h].syn.value, k, 0) < |s.goals[h].syn.value|
  {
    IndexOfDecides(s.goals[h].syn.value, k);
  }

  lemma UpdateSynonymStep(w: Config, s: State, c: nat, a: Address)
    requires Inv(w, s) && c < |s.clients| && s.clients[c].UpdateLocked? && s.clients[c].place.AtSynonym?
    requires Enabled(w, s, c, a)
    ensures Inv(w, Advanced(w, s, c, a))
  {
    var UpdateLocked(k, v, h, AtSynonym(addr), word) := s.clients[c];
    var s' := Advanced(w, s, c, a);
    UpdateFacts(w, s, c);
    HolderFacts(w, s, c, h);
    SettledParts(w, s, h);
    hide *;
    PlaceFound(s, h, k, addr);
    UpdateSynonymIs(w, s, c, a);
    VisibleLeaf(w, s, h);
    UpdatedSynonymGoal(w, s, s', h, k, v);
    UpdatedSynonymPending(w, s, s', h, addr);
    ContentsRebound(w, s, s', h, k, v);
    PointersKept(s, s', h);
    GoalStep(w, s, s', c, h, s'.clients[c].pending);
  }

  /** The key has moved: the pointer is set, and the synonym leaf has the key.
      Neither assertion of the update can fail. */
  lemma FollowStep(w: Config, s: State, c: nat, a: Address)
    requires Inv(w, s) && c < |s.clients| && s.clients[c].UpdateLocked? && s.clients[c].place == AtLeaf
    requires var k, h := s.clients[c].k, s.clients[c].h;
             h < w.count && IndexOf(s.leaves[h].rec, k, 0) == |s.leaves[h].rec|
    requires Enabled(w, s, c, a)
    ensures Inv(w, Advanced(w, s, c, a)) && Advanced(w, s, c, a).clients[c].UpdateLocked?
  {
    var UpdateLocked(k, v, h, _, word) := s.clients[c];
    assert ClientOk(w, s, s.clients[c]) && LeafOk(w, s, h);
    IndexOfDecides(s.leaves[h].rec, k);
    var to := UpdateLocked(k, v, h, AtSynonym(s.leaves[h].syn.value), word);
    ClientStep(w, s, c, to);
  }

  // ---- writing and unlocking ----------------------------------------------

  lemma RestPending(pending: seq<Write>)
    requires PendingOk(pending) && !pending[0].Unlock?
    ensures |pending| > 1 && PendingOk(pending[1..])
    ensures pending[0].WriteLeaf? ==> (WritesSynonym(pending[1..]) <==> WritesSynonym(pending))
    ensures pending[0].WriteSynonym? ==> (WritesLeaf(pending[1..]) <==> WritesLeaf(pending))
  {
    var rest := pending[1..];
    assert rest[|rest| - 1] == pending[|pending| - 1];
    if WritesSynonym(pending) && pending[0].WriteLeaf? {
      var i :| 0 <= i < |pending| && pending[i].WriteSynonym?;
      assert rest[i - 1] == pending[i];
    }
    if WritesLeaf(pending) && pending[0].WriteSynonym? {
      var i :| 0 <= i < |pending| && pending[i].WriteLeaf?;
      assert rest[i - 1] == pending[i];
    }
    if WritesSynonym(rest) {
      var i :| 0 <= i < |rest| && rest[i].WriteSynonym?;
      assert pending[i + 1] == rest[i];
    }
    if WritesLeaf(rest) {
      var i :| 0 <= i < |rest| && rest[i].WriteLeaf?;
      assert pending[i + 1] == rest[i];
    }
  }

  /** No other leaf points to what the holder of h writes. */
  lemma WroteFrame(w: Config, s: State, s': State, h: nat, x: Write)
    requires Sized(w, s) && Sized(w, s') && h < w.count && PointersApart(s) && Wrote(s, s', h, x) && !x.Unlock?
    requires x.WriteSynonym? ==> Some(x.addr) == s.goals[h].node.syn
    ensures Frame(w, s, s', h)
  {
    hide PairHas, HasKey;
  }

  lemma WroteLeafOk(w: Config, s: State, s': State, h: nat, x: Write)
    requires Sized(w, s) && Sized(w, s') && h < w.count && LeafOk(w, s, h) && Wrote(s, s', h, x) && !x.Unlock?
    requires x.WriteLeaf? ==> x.node == s.goals[h].node
    requires x.WriteSynonym? ==> Some(x.addr) == s.goals[h].node.syn && s.goals[h].syn == Some(x.rec)
    ensures GoalOk(w, s', h) && Visible(w, s', h)
  {
    hide PairOk;
  }

  lemma WroteCompletes(w: Config, s: State, s': State, h: nat, pending: seq<Write>)
    requires Sized(w, s) && Sized(w, s') && h < w.count && PendingOk(pending) && Completes(w, s, h, pending)
    requires Wrote(s, s', h, pending[0]) && !pending[0].Unlock?
    ensures |pending| > 1 && PendingOk(pending[1..]) && Completes(w, s', h, pending[1..])
  {
    hide WritesLeaf, WritesSynonym, PendingOk;
    RestPending(pending);
    assert forall i :: 0 <= i < |pending[1..]| ==> pending[1..][i] == pending[i + 1];
  }

  /** What the invariant says of the next write. */
  lemma WritingFacts(w: Config, s: State, c: nat)
    requires Inv(w, s) && c < |s.clients| && s.clients[c].Writing?
    ensures var x := s.clients[c];
            && x.h < w.count && PendingOk(x.pending) && Completes(w, s, x.h, x.pending) && Holding(w, x) == Some(x.h)
            && |x.pending| > 0 && (x.pending[0].WriteLeaf? ==> x.pending[0].node == s.goals[x.h].node)
            && (x.pending[0].WriteSynonym? ==>
                  Some(x.pending[0].addr) == s.goals[x.h].node.syn && s.goals[x.h].syn == Some(x.pending[0].rec))
  {
    assert ClientOk(w, s, s.clients[c]);
    hide LeafOk, LocksOk, PointersApart, ContentsOk, WritesLeaf, WritesSynonym;
  }

  lemma WriteStepIs(w: Config, s: State, c: nat, a: Address)
    requires Sized(w, s) && w.Valid() && c < |s.clients| && Enabled(w, s, c, a) && s.clients[c].Writing?
    requires var x := s.clients[c]; x.h < w.count && PendingOk(x.pending) && !x.pending[0].Unlock?
    ensures var x, s' := s.clients[c], Advanced(w, s, c, a);
            && Sized(w, s') && s'.clients == s.clients[c := Writing(x.h, x.pending[1..])]
            && Wrote(s, s', x.h, x.pending[0])
  {
    WriteIs(w, s, c, a);
    hide Advanced, Enabled;
  }

  lemma WriteStep(w: Config, s: State, c: nat, a: Address)
    requires Inv(w, s) && c < |s.clients| && s.clients[c].Writing? && Enabled(w, s, c, a)
    requires !s.clients[c].pending[0].Unlock?
    ensures Inv(w, Advanced(w, s, c, a))
  {
    var Writing(h, pending) := s.clients[c];
    var s' := Advanced(w, s, c, a);
    WritingFacts(w, s, c);
    HolderFacts(w, s, c, h);
    WriteStepIs(w, s, c, a);
    WrittenKeys(w, s, s', h, pending[0]);
    hide *;
    var to := Writing(h, pending[1..]);
    WroteFrame(w, s, s', h, pending[0]);
    WroteLeafOk(w, s, s', h, pending[0]);
    WroteCompletes(w, s, s', h, pending);
    WritingOk(w, s', h, pending[1..]);
    TakenLock(w, s, c, h);
    TakenLeafOk(w, s', h);
    SameContents(w, s, s');
    LocksMoved(w, s, s', c, to);
    LeafStep(w, s, s', c, to, h);
  }

  lemma WrittenKeys(w: Config, s: State, s': State, h: nat, x: Write)
    requires Sized(w, s) && h < w.count && LeafOk(w, s, h) && Wrote(s, s', h, x) && !x.Unlock? && s.syns.Keys <= s.used
    requires x.WriteSynonym? ==> Some(x.addr) == s.goals[h].node.syn
    ensures s'.syns.Keys <= s'.used && s'.goals == s.goals && s'.contents == s.contents && s'.locks == s.locks
    ensures PointersApart(s) ==> PointersApart(s')
  {
    hide PairOk, PairHas, HasKey, Visible, Settled;
  }

  /** The last write of a batch: memory shows what the leaf stands for. */
  lemma UnlockSettles(w: Config, s: State, h: nat, pending: seq<Write>)
    requires Sized(w, s) && h < w.count && PendingOk(pending) && Completes(w, s, h, pending) && pending[0].Unlock?
    ensures pending == [Unlock(FREE)] && Settled(w, s, h)
  {
    assert |pending| == 1;
  }

  lemma UnlockedLeaf(w: Config, s: State, s': State, h: nat)
    requires Sized(w, s) && h < w.count && LeafOk(w, s, h) && Settled(w, s, h)
    requires s' == s.(locks := s.locks[h := FREE], clients := s'.clients)
    ensures Sized(w, s') && LeafOk(w, s', h) && Frame(w, s, s', h)
  {
    hide PairOk, PairHas, HasKey;
  }

  lemma UnlockStep(w: Config, s: State, c: nat, a: Address)
    requires Inv(w, s) && c < |s.clients| && s.clients[c].Writing? && Enabled(w, s, c, a)
    requires s.clients[c].pending[0].Unlock?
    ensures Inv(w, Advanced(w, s, c, a))
    ensures Advanced(w, s, c, a).locks[s.clients[c].h] == FREE && Advanced(w, s, c, a).clients[c] == Idle
  {
    var Writing(h, pending) := s.clients[c];
    var s' := Advanced(w, s, c, a);
    WritingFacts(w, s, c);
    HolderFacts(w, s, c, h);
    UnlockSettles(w, s, h, pending);
    WriteIs(w, s, c, a);
    assert s' == s.(locks := s.locks[h := FREE], clients := s.clients[c := Idle]);
    assert PointersApart(s') && Holding(w, Idle).None? && ClientOk(w, s', Idle);
    hide *;
    UnlockedLeaf(w, s, s', h);
    SameContents(w, s, s');
    LocksReleased(w, s, c, Idle, h, s');
    LeafStep(w, s, s', c, Idle, h);
  }
}
