/** Whole runs: safety in every reachable state, and what each step does to the
    map the store represents and to the keys in memory. */
module ProtocolRuns {
  import opened LeafSlots
  import opened LeafStore
  import opened Protocol
  import opened ProtocolInvariant
  import opened ProtocolSteps

  // ---- one step -----------------------------------------------------------

  lemma InsertLocks(w: Config, s: State, c: nat, a: Address)
    requires Inv(w, s) && c < |s.clients| && Enabled(w, s, c, a) && s.clients[c].WantInsert?
    ensures Inv(w, Advanced(w, s, c, a))
  {
    var WantInsert(k, v) := s.clients[c];
    assert ClientOk(w, s, s.clients[c]);
    if s.locks[w.home(k)] == FREE {
      hide Settled, LocksOk, PointersApart, ContentsOk, LeafOk;
      AcquireStep(w, s, c, InsertLocked(k, v, FREE), w.home(k));
    }
  }

  lemma InsertReadsLeaf(w: Config, s: State, c: nat, a: Address)
    requires Inv(w, s) && c < |s.clients| && Enabled(w, s, c, a) && s.clients[c].InsertLocked?
    ensures Inv(w, Advanced(w, s, c, a))
  {
    hide LocksOk, PointersApart, ContentsOk, LeafOk;
    var InsertLocked(k, v, word) := s.clients[c];
    assert ClientOk(w, s, s.clients[c]);
    ClientStep(w, s, c, InsertRead(k, v, word, s.leaves[w.home(k)]));
  }

  lemma InsertReadsSynonym(w: Config, s: State, c: nat, a: Address)
    requires Inv(w, s) && c < |s.clients| && Enabled(w, s, c, a) && s.clients[c].InsertRead?
    ensures Inv(w, Advanced(w, s, c, a))
  {
    hide LocksOk, PointersApart, ContentsOk, Visible, PairOk, PairHas;
    assert ClientOk(w, s, s.clients[c]) && LeafOk(w, s, w.home(s.clients[c].k));
    ClientStep(w, s, c, Advanced(w, s, c, a).clients[c]);
  }

  /** The key is there already: only the lock remains to be freed. */
  lemma InsertFindsKey(w: Config, s: State, c: nat, a: Address)
    requires Inv(w, s) && c < |s.clients| && Enabled(w, s, c, a) && s.clients[c].InsertReady?
    requires !Insert(Pair(s.clients[c].node.rec, s.clients[c].syn), s.clients[c].k, s.clients[c].v).Stored?
    ensures Inv(w, Advanced(w, s, c, a))
  {
    hide LocksOk, PointersApart, ContentsOk, LeafOk, Insert, Room, WritesLeaf, WritesSynonym;
    var InsertReady(k, v, word, node, syn) := s.clients[c];
    assert ClientOk(w, s, s.clients[c]);
    var pending := [Unlock(word)];
    assert pending[0] == Unlock(FREE);
    ClientStep(w, s, c, Writing(w.home(k), pending));
  }

  lemma InsertAdvances(w: Config, s: State, c: nat, a: Address)
    requires Inv(w, s) && c < |s.clients| && Enabled(w, s, c, a)
    requires s.clients[c].WantInsert? || s.clients[c].InsertLocked? ||
             s.clients[c].InsertRead? || s.clients[c].InsertReady?
    ensures Inv(w, Advanced(w, s, c, a))
  {
    assert s.clients[c].InsertReady? ==> |s.clients[c].node.rec| > 0;
    hide *;
    match s.clients[c]
    case WantInsert(k, v) => InsertLocks(w, s, c, a);
    case InsertLocked(k, v, word) => InsertReadsLeaf(w, s, c, a);
    case InsertRead(k, v, word, node) => InsertReadsSynonym(w, s, c, a);
    case InsertReady(k, v, word, node, syn) =>
      if Insert(Pair(node.rec, syn), k, v).Stored? {
        InsertStep(w, s, c, a);
      } else {
        InsertFindsKey(w, s, c, a);
      }
  }

  lemma UpdateSearches(w: Config, s: State, c: nat, a: Address)
    requires Inv(w, s) && c < |s.clients| && Enabled(w, s, c, a) && s.clients[c].SearchingSynonym?
    ensures Inv(w, Advanced(w, s, c, a))
  {
    hide LocksOk, PointersApart, ContentsOk, PairOk, HasKey, IndexOf, Settled;
    var SearchingSynonym(k, v, h, addr) := s.clients[c];
    assert ClientOk(w, s, s.clients[c]) && LeafOk(w, s, h);
    IndexOfDecides(SynonymAt(w, s, addr), k);
    ClientStep(w, s, c, Advanced(w, s, c, a).clients[c]);
  }

  lemma UpdateLocks(w: Config, s: State, c: nat, a: Address)
    requires Inv(w, s) && c < |s.clients| && Enabled(w, s, c, a) && s.clients[c].WantUpdate?
    ensures Inv(w, Advanced(w, s, c, a))
  {
    var WantUpdate(k, v, h, place) := s.clients[c];
    assert ClientOk(w, s, s.clients[c]);
    if s.locks[h] == FREE {
      hide Settled, LocksOk, PointersApart, ContentsOk, LeafOk, PlaceOk;
      AcquireStep(w, s, c, UpdateLocked(k, v, h, place, FREE), h);
    }
  }

  lemma UpdateAdvances(w: Config, s: State, c: nat, a: Address)
    requires Inv(w, s) && c < |s.clients| && Enabled(w, s, c, a)
    requires s.clients[c].SearchingSynonym? || s.clients[c].WantUpdate? || s.clients[c].UpdateLocked?
    ensures Inv(w, Advanced(w, s, c, a))
  {
    match s.clients[c]
    case SearchingSynonym(k, v, h, addr) => UpdateSearches(w, s, c, a);
    case WantUpdate(k, v, h, place) => UpdateLocks(w, s, c, a);
    case UpdateLocked(k, v, h, place, word) =>
      UpdateFacts(w, s, c);
      HolderFacts(w, s, c, h);
      hide *;
      if place.AtSynonym? {
        UpdateSynonymStep(w, s, c, a);
      } else if IndexOf(s.leaves[h].rec, k, 0) < |s.leaves[h].rec| {
        UpdateLeafStep(w, s, c, a);
      } else {
        FollowStep(w, s, c, a);
      }
  }

  /** Every step of every client keeps the invariant. */
  lemma StepKeepsInvariant(w: Config, s: State, c: nat, step: Step, s': State)
    requires w.Valid() && Inv(w, s) && Next(w, s, c, step, s')
    ensures Inv(w, s')
  {
    hide LocksOk, PointersApart, ContentsOk, PairOk, HasKey, IndexOf, Settled, Advanced, Room;
    match step
    case StartInsert(k, v) => ClientStep(w, s, c, WantInsert(k, v));
    case StartUpdate(k, v) => ClientStep(w, s, c, Searching(k, v));
    case GiveUp => ClientStep(w, s, c, Idle);
    case SearchLeaf(i) =>
      assert ClientOk(w, s, s.clients[c]) && LeafOk(w, s, i);
      IndexOfDecides(s.leaves[i].rec, s.clients[c].k);
      ClientStep(w, s, c, s'.clients[c]);
    case Advance(a) =>
      var x := s.clients[c];
      if x.Writing? {
        if x.pending[0].Unlock? {
          UnlockStep(w, s, c, a);
        } else {
          WriteStep(w, s, c, a);
        }
      } else if x.SearchingSynonym? || x.WantUpdate? || x.UpdateLocked? {
        UpdateAdvances(w, s, c, a);
      } else {
        InsertAdvances(w, s, c, a);
      }
  }

  // ---- runs ---------------------------------------------------------------

  /** Nothing stored, nothing locked, everybody idle. */
  ghost predicate Init(w: Config, s: State) {
    && w.Valid() && Sized(w, s) && s.syns == map[] && s.contents == map[]
    && (forall h :: 0 <= h < w.count ==>
          s.locks[h] == FREE && s.leaves[h] == Node(Zeros(w), None) && s.goals[h] == Goal(Node(Zeros(w), None), None))
    && (forall c :: 0 <= c < |s.clients| ==> s.clients[c] == Idle)
  }

  lemma InitInvariant(w: Config, s: State)
    requires Init(w, s)
    ensures Inv(w, s)
  {
    forall h | 0 <= h < w.count
      ensures LeafOk(w, s, h)
    {
      assert forall i :: 0 <= i < w.span ==> Zeros(w)[i].key == NULL_KEY;
    }
    forall k: nat, v | k != NULL_KEY
      ensures Represents(w, s, k, v)
    {
      assert forall i :: 0 <= i < w.span ==> Zeros(w)[i].key == NULL_KEY;
    }
  }

  ghost predicate Run(w: Config, states: seq<State>, who: seq<nat>, steps: seq<Step>) {
    && |states| == |steps| + 1 == |who| + 1 && Init(w, states[0])
    && forall i :: 0 <= i < |steps| ==> Next(w, states[i], who[i], steps[i], states[i + 1])
  }

  lemma {:induction false} RunInvariant(w: Config, states: seq<State>, who: seq<nat>, steps: seq<Step>, n: nat)
    requires Run(w, states, who, steps) && n < |states|
    ensures Inv(w, states[n])
  {
    if n == 0 {
      InitInvariant(w, states[0]);
    } else {
      RunInvariant(w, states, who, steps, n - 1);
      StepKeepsInvariant(w, states[n - 1], who[n - 1], steps[n - 1], states[n]);
    }
  }

  /** At most one client holds a lock, and a taken lock has its holder. */
  ghost predicate MutualExclusion(w: Config, s: State) {
    && (forall c, d :: 0 <= c < d < |s.clients| && Holding(w, s.clients[c]).Some? ==>
          Holding(w, s.clients[c]) != Holding(w, s.clients[d]))
    && (forall h :: 0 <= h < |s.locks| ==>
          (s.locks[h] == TAKEN <==> HeldBy(w, s, h)) && (s.locks[h] == FREE <==> !HeldBy(w, s, h)))
  }

  /** In every state of every run: mutual exclusion, and no failed assertion. */
  lemma RunSafe(w: Config, states: seq<State>, who: seq<nat>, steps: seq<Step>, n: nat)
    requires Run(w, states, who, steps) && n < |states|
    ensures MutualExclusion(w, states[n])
    ensures forall c :: 0 <= c < |states[n].clients| ==> states[n].clients[c] != AssertionFailed
  {
    RunInvariant(w, states, who, steps, n);
    var s := states[n];
    forall h | 0 <= h < |s.locks|
      ensures (s.locks[h] == TAKEN <==> HeldBy(w, s, h)) && (s.locks[h] == FREE <==> !HeldBy(w, s, h))
    {
      if HeldBy(w, s, h) {
        var c :| 0 <= c < |s.clients| && Holding(w, s.clients[c]) == Some(h);
      }
    }
    forall c | 0 <= c < |s.clients|
      ensures s.clients[c] != AssertionFailed
    {
      assert ClientOk(w, s, s.clients[c]);
    }
  }

  // ---- what a step changes ------------------------------------------------

  /** The map changes only where an insert or an update is decided, as if the
      operation took effect there at once. */
  lemma StepOnContents(w: Config, s: State, c: nat, step: Step, s': State)
    requires w.Valid() && Inv(w, s) && Next(w, s, c, step, s')
    ensures s.clients[c].InsertReady? ==>
              var k, v := s.clients[c].k, s.clients[c].v;
              s'.contents == if k in s.contents then s.contents else s.contents[k := v]
    ensures s.clients[c].UpdateLocked? && s'.clients[c].Writing? ==>
              var k, v := s.clients[c].k, s.clients[c].v;
              k in s.contents && s'.contents == s.contents[k := v]
    ensures !s.clients[c].InsertReady? && !(s.clients[c].UpdateLocked? && s'.clients[c].Writing?) ==>
              s'.contents == s.contents
  {
    assert ClientOk(w, s, s.clients[c]);
    if s.clients[c].InsertReady? {
      InsertOnContents(w, s, c, step, s');
    } else if s.clients[c].UpdateLocked? {
      UpdateOnContents(w, s, c, step, s');
    } else {
      hide Inv, ClientOk;
    }
  }

  lemma InsertOnContents(w: Config, s: State, c: nat, step: Step, s': State)
    requires w.Valid() && Inv(w, s) && Next(w, s, c, step, s')
    requires s.clients[c].InsertReady? && ClientOk(w, s, s.clients[c])
    ensures var k, v := s.clients[c].k, s.clients[c].v;
            s'.contents == if k in s.contents then s.contents else s.contents[k := v]
  {
    var x := s.clients[c];
    KnownKey(w, s, x.k);
    DecidesPresence(w, s, x);
    hide Inv, ClientOk, Insert, Room, PairHas, InsertWrites, InsertGoal;
  }

  lemma UpdateOnContents(w: Config, s: State, c: nat, step: Step, s': State)
    requires w.Valid() && Inv(w, s) && Next(w, s, c, step, s')
    requires s.clients[c].UpdateLocked? && ClientOk(w, s, s.clients[c])
    ensures var k, v := s.clients[c].k, s.clients[c].v;
            if s'.clients[c].Writing? then k in s.contents && s'.contents == s.contents[k := v]
            else s'.contents == s.contents
  {
    var x := s.clients[c];
    assert LeafOk(w, s, x.h);
    PlacedKey(w, s, x.h, x.k, x.place);
    KnownKey(w, s, x.k);
    hide Inv, ClientOk, PairHas, LeafOk;
  }

  lemma DecidesPresence(w: Config, s: State, x: Client)
    requires Inv(w, s) && x.InsertReady? && ClientOk(w, s, x)
    requires |x.node.rec| > 0 && Room(Pair(x.node.rec, x.syn), x.k, x.v)
    ensures Insert(Pair(x.node.rec, x.syn), x.k, x.v).Stored? <==> !PairHas(s.goals[w.home(x.k)].AsPair(), x.k)
  {
    assert LeafOk(w, s, w.home(x.k));
    InsertIsCorrect(Pair(x.node.rec, x.syn), x.k, x.v, w.span);
  }

  lemma PlacedKey(w: Config, s: State, h: nat, k: nat, place: Place)
    requires Sized(w, s) && h < w.count && LeafOk(w, s, h) && k != NULL_KEY && PlaceOk(s, h, k, place)
    ensures PairHas(s.goals[h].AsPair(), k) && w.home(k) == h
  {
  }

  lemma KnownKey(w: Config, s: State, k: nat)
    requires Sized(w, s) && ContentsOk(w, s) && k != NULL_KEY && w.home(k) < w.count
    ensures k in s.contents <==> PairHas(s.goals[w.home(k)].AsPair(), k)
  {
    var p := s.goals[w.home(k)].AsPair();
    PairHoldsHas(p, k);
    if k in s.contents {
      assert Represents(w, s, k, s.contents[k]);
    }
    if PairHas(p, k) {
      var v :| PairHolds(p, k, v);
      assert Represents(w, s, k, v);
    }
  }

  /** A set synonym pointer never changes, keys never leave a synonym leaf, and
      a key that leaves a leaf goes to its synonym leaf. */
  ghost predicate KeysMove(w: Config, s: State, s': State, h: nat)
    requires h < |s.leaves|
  {
    && h < |s'.leaves| && h < |s'.goals|
    && (s.leaves[h].syn.Some? ==> s'.leaves[h].syn == s.leaves[h].syn)
    && (s.leaves[h].syn.Some? ==> forall k :: k != NULL_KEY && HasKey(SynonymAt(w, s, s.leaves[h].syn.value), k) ==>
          HasKey(SynonymAt(w, s', s.leaves[h].syn.value), k))
    && (forall k :: k != NULL_KEY && HasKey(s.leaves[h].rec, k) ==>
          HasKey(s'.leaves[h].rec, k) || (s'.goals[h].syn.Some? && HasKey(s'.goals[h].syn.value, k)))
  }

  lemma StepMovesKeys(w: Config, s: State, c: nat, step: Step, s': State, h: nat)
    requires w.Valid() && Inv(w, s) && Next(w, s, c, step, s') && h < w.count
    ensures KeysMove(w, s, s', h)
  {
    StepKeepsInvariant(w, s, c, step, s');
    if s.clients[c].Writing? {
      WritingFacts(w, s, c);
      StepWrites(w, s, c, step, s');
      hide *;
      WriteMovesKeys(w, s, c, s', h);
    } else {
      OnlyWritesTouchMemory(w, s, c, step, s');
      hide Inv, Next, HasKey;
    }
  }

  lemma StepWrites(w: Config, s: State, c: nat, step: Step, s': State)
    requires w.Valid() && Next(w, s, c, step, s') && s.clients[c].Writing?
    ensures var x := s.clients[c];
            && x.h < w.count && |x.pending| > 0 && Sized(w, s') && s'.goals == s.goals
            && s'.leaves == Applied(s, x.h, x.pending[0]).leaves && s'.syns == Applied(s, x.h, x.pending[0]).syns
  {
    WriteIs(w, s, c, step.newAddr);
    hide Advanced;
  }

  lemma AdvanceKeepsMemory(w: Config, s: State, c: nat, a: Address)
    requires w.Valid() && Sized(w, s) && c < |s.clients| && Enabled(w, s, c, a) && !s.clients[c].Writing?
    ensures Advanced(w, s, c, a).leaves == s.leaves && Advanced(w, s, c, a).syns == s.syns
  {
    hide Insert, Room, InsertWrites, InsertGoal, IndexOf, Updated, SynonymAt;
  }

  lemma OnlyWritesTouchMemory(w: Config, s: State, c: nat, step: Step, s': State)
    requires w.Valid() && Next(w, s, c, step, s') && !s.clients[c].Writing?
    ensures Sized(w, s) && s'.leaves == s.leaves && s'.syns == s.syns
  {
    if step.Advance? {
      AdvanceKeepsMemory(w, s, c, step.newAddr);
    }
    hide Advanced, Enabled, IndexOf;
  }

  lemma WriteMovesKeys(w: Config, s: State, c: nat, s': State, h: nat)
    requires Inv(w, s) && c < |s.clients| && s.clients[c].Writing? && h < w.count
    requires Sized(w, s') && s'.goals == s.goals
    requires s.clients[c].h < w.count && |s.clients[c].pending| > 0
    requires s'.leaves == Applied(s, s.clients[c].h, s.clients[c].pending[0]).leaves
    requires s'.syns == Applied(s, s.clients[c].h, s.clients[c].pending[0]).syns
    ensures KeysMove(w, s, s', h)
  {
    hide HasKey, PairOk, WritesLeaf, WritesSynonym, PendingOk, LocksOk, ContentsOk;
    var x := s.clients[c];
    assert LeafOk(w, s, h) && ClientOk(w, s, x) && LeafOk(w, s, x.h);
    NothingInNothing();
  }

  lemma NothingInNothing()
    ensures forall k :: !HasKey([], k)
  {
  }
}
