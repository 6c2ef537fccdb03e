/** What becomes of an operation: an insert or update that ends has taken effect,
    and a client that is not waiting for a lock comes nearer to its end with
    every step. */
module ProtocolProgress {
  import opened LeafSlots
  import opened LeafStore
  import opened Protocol
  import opened ProtocolInvariant
  import opened ProtocolSteps
  import opened ProtocolRuns

  // ---- an operation that has ended has taken effect -------------------------

  /** The client is on its way to storing k -> v. */
  predicate Inserting(x: Client, k: nat, v: int) {
    (x.WantInsert? || x.InsertLocked? || x.InsertRead? || x.InsertReady?) && x.k == k && x.v == v
  }

  /** The client is on its way to changing k to v. */
  predicate Updating(x: Client, k: nat, v: int) {
    (x.WantUpdate? || x.UpdateLocked?) && x.k == k && x.v == v
  }

  lemma AdvancedClients(w: Config, s: State, c: nat, a: Address)
    requires w.Valid() && Sized(w, s) && c < |s.clients| && Enabled(w, s, c, a)
    ensures var s' := Advanced(w, s, c, a);
            |s'.clients| == |s.clients| && s'.clients == s.clients[c := s'.clients[c]]
  {
    hide Insert, Room, InsertWrites, InsertGoal, IndexOf, Updated, SynonymAt;
    match s.clients[c]
    case Writing(h, pending) => assert Applied(s, h, pending[0]).clients == s.clients;
    case _ =>
  }

  /** A step of client c moves no other client. */
  lemma StepClients(w: Config, s: State, c: nat, step: Step, s': State)
    requires w.Valid() && Next(w, s, c, step, s')
    ensures |s'.clients| == |s.clients| && c < |s.clients| && s'.clients == s.clients[c := s'.clients[c]]
  {
    if step.Advance? {
      AdvancedClients(w, s, c, step.newAddr);
    }
    hide Advanced, Enabled, IndexOf;
  }

  /** An insert goes on until it is decided. */
  lemma InsertGoesOn(w: Config, s: State, c: nat, step: Step, s': State, k: nat, v: int)
    requires w.Valid() && Next(w, s, c, step, s') && Inserting(s.clients[c], k, v)
    ensures c < |s'.clients|
    ensures if s.clients[c].InsertReady? then s'.clients[c].Writing? else Inserting(s'.clients[c], k, v)
  {
    hide Insert, Room, InsertWrites, InsertGoal, IndexOf, Updated, SynonymAt;
  }

  /** What one step makes of a client that updates. */
  lemma UpdateShape(w: Config, s: State, c: nat, a: Address)
    requires w.Valid() && Sized(w, s) && c < |s.clients| && Enabled(w, s, c, a)
    requires s.clients[c].WantUpdate? || s.clients[c].UpdateLocked?
    ensures var x, s' := s.clients[c], Advanced(w, s, c, a);
            && Sized(w, s') && c < |s'.clients|
            && var y := s'.clients[c];
               if x.WantUpdate? then
                 if s.locks[x.h] == FREE then y == UpdateLocked(x.k, x.v, x.h, x.place, FREE) else y == x
               else
                 || y.AssertionFailed? || (y.Writing? && |y.pending| == 2)
                 || (x.place == AtLeaf && y.UpdateLocked? && y.place.AtSynonym? && y.k == x.k && y.v == x.v)
  {
    hide IndexOf, Updated, SynonymAt, Insert, Room;
  }

  lemma UpdateGoesOn(w: Config, s: State, c: nat, step: Step, s': State, k: nat, v: int)
    requires w.Valid() && Inv(w, s) && Next(w, s, c, step, s') && Updating(s.clients[c], k, v)
    ensures c < |s'.clients|
    ensures Updating(s'.clients[c], k, v) || (s.clients[c].UpdateLocked? && s'.clients[c].Writing?)
  {
    StepKeepsInvariant(w, s, c, step, s');
    StepClients(w, s, c, step, s');
    NeverFails(w, s', c);
    hide Inv, Advanced, Enabled, IndexOf;
    UpdateShape(w, s, c, step.newAddr);
  }

  lemma NeverFails(w: Config, s: State, c: nat)
    requires Inv(w, s) && c < |s.clients|
    ensures s.clients[c] != AssertionFailed
  {
    assert ClientOk(w, s, s.clients[c]);
  }

  /** After the decision only writes remain, until the client is idle. */
  lemma WritingGoesOn(w: Config, s: State, c: nat, step: Step, s': State)
    requires w.Valid() && Next(w, s, c, step, s') && !step.StartInsert? && !step.StartUpdate?
    requires s.clients[c].Writing? || s.clients[c].Idle?
    ensures c < |s'.clients| && (s'.clients[c].Writing? || s'.clients[c].Idle?)
  {
    if step.Advance? {
      WriteIs(w, s, c, step.newAddr);
      assert Applied(s, s.clients[c].h, s.clients[c].pending[0]).clients == s.clients;
    }
    hide Advanced, Applied;
  }

  /** Between states n and m client c starts no operation. */
  ghost predicate NoStart(who: seq<nat>, steps: seq<Step>, c: nat, n: nat, m: nat) {
    && m <= |steps| == |who|
    && forall i :: n <= i < m && who[i] == c ==> !steps[i].StartInsert? && !steps[i].StartUpdate?
  }

  /** At step d client c decides its insert of k -> v. */
  ghost predicate InsertDecided(states: seq<State>, who: seq<nat>, c: nat, k: nat, v: int, d: nat) {
    && d < |who| && |states| == |who| + 1 && who[d] == c
    && c < |states[d].clients| && states[d].clients[c].InsertReady? && Inserting(states[d].clients[c], k, v)
    && states[d + 1].contents ==
         if k in states[d].contents then states[d].contents else states[d].contents[k := v]
  }

  ghost predicate UpdateDecided(states: seq<State>, who: seq<nat>, c: nat, k: nat, v: int, d: nat) {
    && d < |who| && |states| == |who| + 1 && who[d] == c
    && c < |states[d].clients| && states[d].clients[c].UpdateLocked? && Updating(states[d].clients[c], k, v)
    && k in states[d].contents && states[d + 1].contents == states[d].contents[k := v]
  }

  lemma {:induction false} InsertFollowed(w: Config, states: seq<State>, who: seq<nat>, steps: seq<Step>,
                                          c: nat, k: nat, v: int, n: nat, i: nat) returns (d: nat)
    requires Run(w, states, who, steps) && n <= i < |states| && NoStart(who, steps, c, n, i)
    requires c < |states[n].clients| && Inserting(states[n].clients[c], k, v)
    ensures c < |states[i].clients|
    ensures || Inserting(states[i].clients[c], k, v)
            || (n <= d < i && InsertDecided(states, who, c, k, v, d)
                && (states[i].clients[c].Writing? || states[i].clients[c].Idle?))
  {
    hide Inv, Next, Run;
    d := n;
    if i > n {
      d := InsertFollowed(w, states, who, steps, c, k, v, n, i - 1);
      RunSize(w, states, who, steps);
      RunStep(w, states, who, steps, i - 1);
      var s, s', step := states[i - 1], states[i], steps[i - 1];
      if who[i - 1] != c {
        StepClients(w, s, who[i - 1], step, s');
      } else if Inserting(s.clients[c], k, v) {
        InsertGoesOn(w, s, c, step, s', k, v);
        if s'.clients[c].Writing? {
          StepOnContents(w, s, c, step, s');
          d := i - 1;
        }
      } else {
        WritingGoesOn(w, s, c, step, s');
      }
    }
  }

  lemma RunStep(w: Config, states: seq<State>, who: seq<nat>, steps: seq<Step>, i: nat)
    requires Run(w, states, who, steps) && i < |steps|
    ensures w.Valid() && |states| == |steps| + 1 == |who| + 1 && Next(w, states[i], who[i], steps[i], states[i + 1])
    ensures Inv(w, states[i])
  {
    RunInvariant(w, states, who, steps, i);
    assert Next(w, states[i], who[i], steps[i], states[i + 1]);
    hide Next, Inv, Sized;
  }

  lemma RunSize(w: Config, states: seq<State>, who: seq<nat>, steps: seq<Step>)
    requires Run(w, states, who, steps)
    ensures |states| == |steps| + 1 == |who| + 1
  {
    hide Next, Init;
  }

  lemma KeyStays(w: Config, s: State, c: nat, step: Step, s': State, k: nat)
    requires w.Valid() && Inv(w, s) && Next(w, s, c, step, s') && k in s.contents
    ensures k in s'.contents
  {
    assert c < |s.clients|;
    StepClients(w, s, c, step, s');
    hide *;
    StepOnContents(w, s, c, step, s');
  }

  lemma {:induction false} KeysStay(w: Config, states: seq<State>, who: seq<nat>, steps: seq<Step>,
                                    k: nat, i: nat, m: nat)
    requires Run(w, states, who, steps) && i <= m < |states| && k in states[i].contents
    ensures k in states[m].contents
    decreases m
  {
    hide *;
    if i < m {
      KeysStay(w, states, who, steps, k, i, m - 1);
      RunSize(w, states, who, steps);
      RunStep(w, states, who, steps, m - 1);
      KeyStays(w, states[m - 1], who[m - 1], steps[m - 1], states[m], k);
    }
  }

  /** In every run, a client that started an insert of k -> v and is idle again has
      decided it in between: k is stored from then on, and if it was not stored
      before, it was stored with v. */
  lemma InsertTakesEffect(w: Config, states: seq<State>, who: seq<nat>, steps: seq<Step>,
                          c: nat, k: nat, v: int, n: nat, m: nat) returns (d: nat)
    requires Run(w, states, who, steps) && n < m < |states| && who[n] == c && steps[n] == StartInsert(k, v)
    requires NoStart(who, steps, c, n + 1, m) && c < |states[m].clients| && states[m].clients[c] == Idle
    ensures n < d < m && InsertDecided(states, who, c, k, v, d) && k in states[m].contents
  {
    assert Next(w, states[n], c, steps[n], states[n + 1]);
    assert Inserting(states[n + 1].clients[c], k, v);
    hide Next;
    d := InsertFollowed(w, states, who, steps, c, k, v, n + 1, m);
    KeysStay(w, states, who, steps, k, d + 1, m);
  }

  lemma {:induction false} UpdateFollowed(w: Config, states: seq<State>, who: seq<nat>, steps: seq<Step>,
                                          c: nat, k: nat, v: int, n: nat, i: nat) returns (d: nat)
    requires Run(w, states, who, steps) && n <= i < |states| && NoStart(who, steps, c, n, i)
    requires c < |states[n].clients| && Updating(states[n].clients[c], k, v)
    ensures c < |states[i].clients|
    ensures || Updating(states[i].clients[c], k, v)
            || (n <= d < i && UpdateDecided(states, who, c, k, v, d)
                && (states[i].clients[c].Writing? || states[i].clients[c].Idle?))
  {
    hide Inv, Next, Run;
    d := n;
    if i > n {
      d := UpdateFollowed(w, states, who, steps, c, k, v, n, i - 1);
      RunSize(w, states, who, steps);
      RunStep(w, states, who, steps, i - 1);
      var s, s', step := states[i - 1], states[i], steps[i - 1];
      if who[i - 1] != c {
        StepClients(w, s, who[i - 1], step, s');
      } else if Updating(s.clients[c], k, v) {
        UpdateGoesOn(w, s, c, step, s', k, v);
        if s'.clients[c].Writing? {
          StepOnContents(w, s, c, step, s');
          d := i - 1;
        }
      } else {
        WritingGoesOn(w, s, c, step, s');
      }
    }
  }

  /** In every run, a client that had found the key of its update and is idle
      again has changed the stored value to v in between. */
  lemma UpdateTakesEffect(w: Config, states: seq<State>, who: seq<nat>, steps: seq<Step>,
                          c: nat, k: nat, v: int, n: nat, m: nat) returns (d: nat)
    requires Run(w, states, who, steps) && n < m < |states| && NoStart(who, steps, c, n, m)
    requires c < |states[n].clients| && Updating(states[n].clients[c], k, v)
    requires c < |states[m].clients| && states[m].clients[c] == Idle
    ensures n <= d < m && UpdateDecided(states, who, c, k, v, d) && k in states[m].contents
  {
    d := UpdateFollowed(w, states, who, steps, c, k, v, n, m);
    KeysStay(w, states, who, steps, k, d + 1, m);
  }

  // ---- searching for the key of an update ----------------------------------

  /** Searching the unlocked home leaf of a stored key finds it there, or goes on
      to the synonym leaf that has it. */
  lemma SearchFinds(w: Config, s: State, c: nat, s': State)
    requires w.Valid() && Inv(w, s) && c < |s.clients| && s.clients[c].Searching?
    requires var k := s.clients[c].k;
             k in s.contents && Next(w, s, c, SearchLeaf(w.home(k)), s') && s.locks[w.home(k)] == FREE
    ensures var Searching(k, v) := s.clients[c];
            var h := w.home(k);
            && c < |s'.clients|
            && if HasKey(s.leaves[h].rec, k) then s'.clients[c] == WantUpdate(k, v, h, AtLeaf)
               else && s.leaves[h].syn.Some? && HasKey(SynonymAt(w, s, s.leaves[h].syn.value), k)
                    && s'.clients[c] == SearchingSynonym(k, v, h, s.leaves[h].syn.value)
  {
    var Searching(k, v) := s.clients[c];
    var h := w.home(k);
    StoredIsHere(w, s, k, h);
    hide Inv, SynonymAt, IndexOf, HasKey;
    IndexOfDecides(s.leaves[h].rec, k);
  }

  lemma StoredIsHere(w: Config, s: State, k: nat, h: nat)
    requires Inv(w, s) && k in s.contents && h == w.home(k) < w.count && s.locks[h] == FREE
    ensures HasKey(s.leaves[h].rec, k) ||
            (s.leaves[h].syn.Some? && HasKey(SynonymAt(w, s, s.leaves[h].syn.value), k))
  {
    assert LeafOk(w, s, h) && k != NULL_KEY;
    KnownKey(w, s, k);
    hide HasKey, SynonymAt, PairOk, LocksOk, ContentsOk, Visible;
    SettledParts(w, s, h);
    NothingInNothing();
  }

  /** In the synonym leaf the key is found exactly if it is there. */
  lemma SynonymFinds(w: Config, s: State, c: nat, a: Address)
    requires w.Valid() && Sized(w, s) && c < |s.clients| && s.clients[c].SearchingSynonym?
    ensures Enabled(w, s, c, a)
    ensures var SearchingSynonym(k, v, h, addr) := s.clients[c];
            Advanced(w, s, c, a) ==
              At(s, c, if HasKey(SynonymAt(w, s, addr), k) then WantUpdate(k, v, h, AtSynonym(addr))
                       else Searching(k, v))
  {
    var SearchingSynonym(k, v, h, addr) := s.clients[c];
    hide IndexOf, SynonymAt, HasKey;
    IndexOfDecides(SynonymAt(w, s, addr), k);
  }

  // ---- a client that is not blocked finishes --------------------------------

  /** At most this many steps of its own are left to the client. */
  function StepsLeft(x: Client): nat {
    match x
    case WantInsert(_, _) => 7
    case InsertLocked(_, _, _) => 6
    case InsertRead(_, _, _, _) => 5
    case InsertReady(_, _, _, _, _) => 4
    case WantUpdate(_, _, _, _) => 5
    case UpdateLocked(_, _, _, place, _) => if place == AtLeaf then 4 else 3
    case Writing(_, pending) => |pending|
    case _ => 0
  }

  /** The client neither waits for a lock nor has too little room, and has found
      the key of its update. */
  ghost predicate Unblocked(w: Config, s: State, c: nat)
    requires Sized(w, s) && c < |s.clients|
  {
    match s.clients[c]
    case WantInsert(k, v) => w.home(k) < w.count && s.locks[w.home(k)] == FREE && HasRoom(w, s, k, v)
    case InsertLocked(k, v, _) => HasRoom(w, s, k, v)
    case InsertRead(k, v, _, _) => HasRoom(w, s, k, v)
    case InsertReady(k, v, _, _, _) => HasRoom(w, s, k, v)
    case WantUpdate(_, _, h, _) => h < w.count && s.locks[h] == FREE
    case UpdateLocked(_, _, _, _, _) => true
    case Writing(_, _) => true
    case Idle => true
    case _ => false
  }

  ghost predicate HasRoom(w: Config, s: State, k: nat, v: int)
    requires Sized(w, s)
  {
    w.home(k) < w.count && Room(s.goals[w.home(k)].AsPair(), k, v)
  }

  lemma InsertProgress(w: Config, s: State, c: nat, a: Address)
    requires Inv(w, s) && c < |s.clients| && Unblocked(w, s, c) && a !in s.used
    requires s.clients[c].WantInsert? || s.clients[c].InsertLocked? || s.clients[c].InsertRead?
    ensures Enabled(w, s, c, a)
    ensures var s' := Advanced(w, s, c, a);
            && Sized(w, s') && c < |s'.clients| && Unblocked(w, s', c)
            && StepsLeft(s'.clients[c]) < StepsLeft(s.clients[c])
  {
    hide Inv, Room, SynonymAt;
    SizedState(w, s);
  }

  lemma SizedState(w: Config, s: State)
    requires Inv(w, s)
    ensures w.Valid() && Sized(w, s)
  {
  }

  lemma DecideProgress(w: Config, s: State, c: nat, a: Address)
    requires Inv(w, s) && c < |s.clients| && Unblocked(w, s, c) && a !in s.used && s.clients[c].InsertReady?
    ensures Enabled(w, s, c, a)
    ensures var s' := Advanced(w, s, c, a);
            && Sized(w, s') && c < |s'.clients| && Unblocked(w, s', c)
            && StepsLeft(s'.clients[c]) < StepsLeft(s.clients[c])
  {
    SizedState(w, s);
    ReadyFacts(w, s, c);
    var k, v := s.clients[c].k, s.clients[c].v;
    HolderFacts(w, s, c, w.home(k));
    GoalSize(w, s, w.home(k));
    assert HasRoom(w, s, k, v);
    DecideShape(w, s, c, a);
    hide *;
    var s' := Advanced(w, s, c, a);
    StepsLeftIs(s.clients[c]);
    StepsLeftIs(s'.clients[c]);
    LateUnblocked(w, s', c);
  }

  lemma DecideShape(w: Config, s: State, c: nat, a: Address)
    requires w.Valid() && Sized(w, s) && c < |s.clients| && s.clients[c].InsertReady? && a !in s.used
    requires var x := s.clients[c];
             w.home(x.k) < w.count && |x.node.rec| > 0 && Room(Pair(x.node.rec, x.syn), x.k, x.v)
    ensures Enabled(w, s, c, a)
    ensures var s' := Advanced(w, s, c, a);
            Sized(w, s') && c < |s'.clients| && s'.clients[c].Writing? && 0 < |s'.clients[c].pending| <= 3
  {
    hide Room, Insert, InsertGoal, InsertWrites;
    var x := s.clients[c];
    FewWrites(x.node, Insert(Pair(x.node.rec, x.syn), x.k, x.v), a, x.word);
  }

  lemma FewWrites(node: Node, r: Result, a: Address, word: nat)
    ensures 0 < |InsertWrites(node, r, a, word)| <= 3
  {
  }

  lemma GoalSize(w: Config, s: State, h: nat)
    requires w.Valid() && Sized(w, s) && h < w.count && LeafOk(w, s, h)
    ensures |s.goals[h].node.rec| == w.span > 0
  {
    hide Visible, Settled, HasKey, Ordered;
  }

  lemma StepsLeftIs(x: Client)
    ensures x.WantUpdate? ==> StepsLeft(x) == 5
    ensures x.UpdateLocked? ==> StepsLeft(x) == if x.place == AtLeaf then 4 else 3
    ensures x.Writing? ==> StepsLeft(x) == |x.pending|
    ensures x.InsertReady? ==> StepsLeft(x) == 4
  {
  }

  lemma LateUnblocked(w: Config, s: State, c: nat)
    requires Sized(w, s) && c < |s.clients|
    requires s.clients[c].UpdateLocked? || s.clients[c].Writing? || s.clients[c].Idle?
    ensures Unblocked(w, s, c)
  {
  }

  lemma UpdateEnabled(w: Config, s: State, c: nat, a: Address)
    requires Inv(w, s) && c < |s.clients| && (s.clients[c].WantUpdate? || s.clients[c].UpdateLocked?)
    ensures w.Valid() && Sized(w, s) && s.clients[c].h < w.count && Enabled(w, s, c, a)
  {
    assert ClientOk(w, s, s.clients[c]);
    hide LeafOk, LocksOk, ContentsOk, PointersApart, Settled, PlaceOk;
  }

  lemma UpdateProgress(w: Config, s: State, c: nat, a: Address)
    requires Inv(w, s) && c < |s.clients| && Unblocked(w, s, c)
    requires s.clients[c].WantUpdate? || s.clients[c].UpdateLocked?
    ensures Enabled(w, s, c, a)
    ensures var s' := Advanced(w, s, c, a);
            && Sized(w, s') && c < |s'.clients| && Unblocked(w, s', c)
            && StepsLeft(s'.clients[c]) < StepsLeft(s.clients[c])
  {
    UpdateEnabled(w, s, c, a);
    assert s.clients[c].WantUpdate? ==> s.locks[s.clients[c].h] == FREE;
    UpdateAdvances(w, s, c, a);
    UpdateShape(w, s, c, a);
    hide *;
    var s' := Advanced(w, s, c, a);
    NeverFails(w, s', c);
    StepsLeftIs(s.clients[c]);
    StepsLeftIs(s'.clients[c]);
    LateUnblocked(w, s', c);
  }

  lemma WriteProgress(w: Config, s: State, c: nat, a: Address)
    requires Inv(w, s) && c < |s.clients| && s.clients[c].Writing?
    ensures Enabled(w, s, c, a)
    ensures var s' := Advanced(w, s, c, a);
            && Sized(w, s') && c < |s'.clients| && Unblocked(w, s', c)
            && StepsLeft(s'.clients[c]) < StepsLeft(s.clients[c])
  {
    SizedState(w, s);
    WritingFacts(w, s, c);
    WriteIs(w, s, c, a);
    hide Inv, Advanced;
  }

  /** A client that is not blocked can take its next step, comes nearer to its
      end by it, and is not blocked then either. */
  lemma Progress(w: Config, s: State, c: nat, a: Address)
    requires Inv(w, s) && c < |s.clients| && Unblocked(w, s, c) && !s.clients[c].Idle? && a !in s.used
    ensures Enabled(w, s, c, a) && Next(w, s, c, Advance(a), Advanced(w, s, c, a)) && Inv(w, Advanced(w, s, c, a))
    ensures var s' := Advanced(w, s, c, a);
            c < |s'.clients| && Unblocked(w, s', c) && StepsLeft(s'.clients[c]) < StepsLeft(s.clients[c])
  {
    SizedState(w, s);
    hide Inv, Advanced, Enabled, HasRoom, StepsLeft;
    match s.clients[c] {
      case InsertReady(_, _, _, _, _) => DecideProgress(w, s, c, a);
      case WantUpdate(_, _, _, _) => UpdateProgress(w, s, c, a);
      case UpdateLocked(_, _, _, _, _) => UpdateProgress(w, s, c, a);
      case Writing(_, _) => WriteProgress(w, s, c, a);
      case _ => InsertProgress(w, s, c, a);
    }
    StepKeepsInvariant(w, s, c, Advance(a), Advanced(w, s, c, a));
  }

  /** Memory is never used up. */
  lemma {:induction false} FreshAddress(used: set<int>) returns (a: int)
    ensures forall x :: x in used ==> x < a
    decreases used
  {
    if x: int :| x in used {
      var b := FreshAddress(used - {x});
      a := if x < b then b else x + 1;
      assert forall y :: y in used ==> y == x || y in used - {x};
    } else {
      a := 0;
    }
  }

  /** Steps of client c alone. */
  ghost predicate SoloRun(w: Config, states: seq<State>, c: nat, steps: seq<Step>) {
    && w.Valid() && |states| == |steps| + 1
    && forall i :: 0 <= i < |steps| ==> Next(w, states[i], c, steps[i], states[i + 1])
  }

  ghost predicate AllAdvance(steps: seq<Step>) {
    forall i :: 0 <= i < |steps| ==> steps[i].Advance?
  }

  lemma ConsSolo(w: Config, s: State, c: nat, step: Step, states: seq<State>, steps: seq<Step>)
    requires SoloRun(w, states, c, steps) && Next(w, s, c, step, states[0])
    ensures SoloRun(w, [s] + states, c, [step] + steps)
  {
    hide Next;
    var all, all' := [s] + states, [step] + steps;
    forall i | 0 <= i < |all'|
      ensures Next(w, all[i], c, all'[i], all[i + 1])
    {
      assert all[i + 1] == states[i] && (i > 0 ==> all[i] == states[i - 1] && all'[i] == steps[i - 1]);
    }
  }

  /** Whatever the other clients were doing, an unblocked client left to itself
      is idle after at most `StepsLeft` steps. */
  lemma {:induction false} SoloFinishes(w: Config, s: State, c: nat) returns (states: seq<State>, steps: seq<Step>)
    requires Inv(w, s) && c < |s.clients| && Unblocked(w, s, c)
    ensures SoloRun(w, states, c, steps) && AllAdvance(steps) && states[0] == s && |steps| <= StepsLeft(s.clients[c])
    ensures c < |states[|steps|].clients| && states[|steps|].clients[c] == Idle
    decreases StepsLeft(s.clients[c])
  {
    SizedState(w, s);
    hide Inv, Next, Unblocked, Advanced, Enabled;
    if s.clients[c].Idle? {
      states, steps := [s], [];
    } else {
      var a := FreshAddress(s.used);
      Progress(w, s, c, a);
      hide StepsLeft;
      var rest, more := SoloFinishes(w, Advanced(w, s, c, a), c);
      ConsSolo(w, s, c, Advance(a), rest, more);
      states, steps := [s] + rest, [Advance(a)] + more;
    }
  }

  /** The contents after an insert of k -> v. */
  function WithNew(contents: map<nat, int>, k: nat, v: int): map<nat, int> {
    if k in contents then contents else contents[k := v]
  }

  lemma {:induction false} SoloInserts(w: Config, states: seq<State>, c: nat, steps: seq<Step>, k: nat, v: int, i: nat)
    requires SoloRun(w, states, c, steps) && AllAdvance(steps) && Inv(w, states[0]) && i < |states|
    requires c < |states[0].clients| && Inserting(states[0].clients[c], k, v)
    ensures Inv(w, states[i]) && c < |states[i].clients|
    ensures var x, contents := states[i].clients[c], states[0].contents;
            || (Inserting(x, k, v) && states[i].contents == contents)
            || ((x.Writing? || x.Idle?) && states[i].contents == WithNew(contents, k, v))
  {
    hide Inv, Next, SoloRun, AllAdvance;
    if i > 0 {
      SoloInserts(w, states, c, steps, k, v, i - 1);
      SoloSize(w, states, c, steps);
      var s, s', step := states[i - 1], states[i], steps[i - 1];
      SoloStep(w, states, c, steps, i - 1);
      StepKeepsInvariant(w, s, c, step, s');
      StepOnContents(w, s, c, step, s');
      if Inserting(s.clients[c], k, v) {
        InsertGoesOn(w, s, c, step, s', k, v);
      } else {
        WritingGoesOn(w, s, c, step, s');
      }
    }
  }

  /** An idle client that inserts k -> v, with the leaf unlocked and room for the
      key, is done after at most eight steps of its own; the store then holds k,
      with v if it did not hold it before. */
  lemma SoloInsert(w: Config, s: State, c: nat, k: nat, v: int) returns (states: seq<State>, steps: seq<Step>)
    requires Inv(w, s) && c < |s.clients| && s.clients[c] == Idle && k != NULL_KEY
    requires w.home(k) < w.count && s.locks[w.home(k)] == FREE && HasRoom(w, s, k, v)
    ensures SoloRun(w, states, c, steps) && 0 < |steps| <= 8 && states[0] == s && steps[0] == StartInsert(k, v)
    ensures var last := states[|steps|];
            c < |last.clients| && last.clients[c] == Idle && last.contents == WithNew(s.contents, k, v)
  {
    SizedState(w, s);
    var s1 := At(s, c, WantInsert(k, v));
    assert Next(w, s, c, StartInsert(k, v), s1) && Unblocked(w, s1, c);
    StepKeepsInvariant(w, s, c, StartInsert(k, v), s1);
    hide Inv, Next, Unblocked, HasRoom, SoloRun;
    var rest, more := SoloFinishes(w, s1, c);
    SoloSize(w, rest, c, more);
    SoloInserts(w, rest, c, more, k, v, |more|);
    ConsSolo(w, s, c, StartInsert(k, v), rest, more);
    states, steps := [s] + rest, [StartInsert(k, v)] + more;
  }

  lemma SoloStep(w: Config, states: seq<State>, c: nat, steps: seq<Step>, i: nat)
    requires SoloRun(w, states, c, steps) && AllAdvance(steps) && i < |steps|
    ensures w.Valid() && |states| == |steps| + 1 && Next(w, states[i], c, steps[i], states[i + 1]) && steps[i].Advance?
  {
    hide Next;
  }

  lemma SoloSize(w: Config, states: seq<State>, c: nat, steps: seq<Step>)
    requires SoloRun(w, states, c, steps)
    ensures |states| == |steps| + 1
  {
  }

  lemma {:induction false} SoloUpdates(w: Config, states: seq<State>, c: nat, steps: seq<Step>, k: nat, v: int, i: nat)
    requires SoloRun(w, states, c, steps) && AllAdvance(steps) && Inv(w, states[0]) && i < |states|
    requires c < |states[0].clients| && Updating(states[0].clients[c], k, v)
    ensures Inv(w, states[i]) && c < |states[i].clients|
    ensures var x, contents := states[i].clients[c], states[0].contents;
            || (Updating(x, k, v) && states[i].contents == contents)
            || ((x.Writing? || x.Idle?) && states[i].contents == contents[k := v])
  {
    hide Inv, Next, SoloRun, AllAdvance;
    if i > 0 {
      SoloUpdates(w, states, c, steps, k, v, i - 1);
      SoloSize(w, states, c, steps);
      var s, s', step := states[i - 1], states[i], steps[i - 1];
      SoloStep(w, states, c, steps, i - 1);
      StepKeepsInvariant(w, s, c, step, s');
      StepOnContents(w, s, c, step, s');
      if Updating(s.clients[c], k, v) {
        UpdateGoesOn(w, s, c, step, s', k, v);
      } else {
        WritingGoesOn(w, s, c, step, s');
      }
    }
  }

  /** From where the key was found, the update ends with the value changed. */
  lemma SoloFromFound(w: Config, s: State, c: nat, k: nat, v: int) returns (states: seq<State>, steps: seq<Step>)
    requires Inv(w, s) && c < |s.clients| && s.clients[c].WantUpdate? && Updating(s.clients[c], k, v)
    requires s.clients[c].h < |s.locks| && s.locks[s.clients[c].h] == FREE
    ensures SoloRun(w, states, c, steps) && |steps| <= 5 && states[0] == s
    ensures var last := states[|steps|];
            c < |last.clients| && last.clients[c] == Idle && last.contents == s.contents[k := v]
  {
    SizedState(w, s);
    assert Unblocked(w, s, c);
    hide Inv, Next, Unblocked, SoloRun;
    states, steps := SoloFinishes(w, s, c);
    SoloSize(w, states, c, steps);
    SoloUpdates(w, states, c, steps, k, v, |steps|);
  }

  lemma SoloFromSearch(w: Config, s: State, c: nat, k: nat, v: int) returns (states: seq<State>, steps: seq<Step>)
    requires Inv(w, s) && w.Valid() && Sized(w, s) && c < |s.clients|
    requires var x := s.clients[c];
             && (x.WantUpdate? || x.SearchingSynonym?) && x.k == k && x.v == v
             && (x.SearchingSynonym? ==> HasKey(SynonymAt(w, s, x.addr), k))
             && x.h < |s.locks| && s.locks[x.h] == FREE
    ensures SoloRun(w, states, c, steps) && |steps| <= 6 && states[0] == s
    ensures var last := states[|steps|];
            c < |last.clients| && last.clients[c] == Idle && last.contents == s.contents[k := v]
  {
    hide Inv, Next, SoloRun, HasKey, SynonymAt;
    if s.clients[c].WantUpdate? {
      states, steps := SoloFromFound(w, s, c, k, v);
    } else {
      var s' := SearchSynonym(w, s, c, 0);
      var found, later := SoloFromFound(w, s', c, k, v);
      SoloSize(w, found, c, later);
      ConsSolo(w, s, c, Advance(0), found, later);
      states, steps := [s] + found, [Advance(0)] + later;
    }
  }

  /** An idle client that updates a stored key whose leaf is unlocked finds it in
      its home leaf or synonym leaf, and is done after at most eight steps of its
      own, with the value changed. */
  lemma SoloUpdate(w: Config, s: State, c: nat, k: nat, v: int) returns (states: seq<State>, steps: seq<Step>)
    requires Inv(w, s) && c < |s.clients| && s.clients[c] == Idle && k in s.contents
    requires w.home(k) < |s.locks| && s.locks[w.home(k)] == FREE
    ensures SoloRun(w, states, c, steps) && 0 < |steps| <= 8 && states[0] == s && steps[0] == StartUpdate(k, v)
    ensures var last := states[|steps|];
            c < |last.clients| && last.clients[c] == Idle && last.contents == s.contents[k := v]
  {
    SizedState(w, s);
    StoredKey(w, s, k);
    var h := w.home(k);
    var s1 := At(s, c, Searching(k, v));
    assert Next(w, s, c, StartUpdate(k, v), s1);
    StepKeepsInvariant(w, s, c, StartUpdate(k, v), s1);
    hide Inv, Next, SoloRun, HasKey, SynonymAt, IndexOf;
    var s2 := SearchHome(w, s1, c);
    var rest, more := SoloFromSearch(w, s2, c, k, v);
    SoloSize(w, rest, c, more);
    ConsSolo(w, s1, c, SearchLeaf(h), rest, more);
    ConsSolo(w, s, c, StartUpdate(k, v), [s1] + rest, [SearchLeaf(h)] + more);
    states, steps := [s] + ([s1] + rest), [StartUpdate(k, v)] + ([SearchLeaf(h)] + more);
  }

  lemma StoredKey(w: Config, s: State, k: nat)
    requires Inv(w, s) && k in s.contents
    ensures Sized(w, s) && k != NULL_KEY && w.home(k) < w.count
  {
    hide LocksOk, LeafOk, ClientOk, PointersApart;
    assert Represents(w, s, k, s.contents[k]);
  }

  lemma SearchHome(w: Config, s: State, c: nat) returns (s': State)
    requires w.Valid() && Inv(w, s) && c < |s.clients| && s.clients[c].Searching? && s.clients[c].k in s.contents
    requires var h := w.home(s.clients[c].k); h < w.count && h < |s.locks| && s.locks[h] == FREE
    ensures var Searching(k, v) := s.clients[c];
            && Next(w, s, c, SearchLeaf(w.home(k)), s') && Inv(w, s') && Sized(w, s')
            && s' == s.(clients := s'.clients) && c < |s'.clients|
            && var y := s'.clients[c];
               || y == WantUpdate(k, v, w.home(k), AtLeaf)
               || (y.SearchingSynonym? && y.k == k && y.v == v && y.h == w.home(k)
                   && HasKey(SynonymAt(w, s', y.addr), k))
  {
    SizedState(w, s);
    var Searching(k, v) := s.clients[c];
    var node := s.leaves[w.home(k)];
    s' := At(s, c, if IndexOf(node.rec, k, 0) < |node.rec| then WantUpdate(k, v, w.home(k), AtLeaf)
                   else if node.syn.Some? then SearchingSynonym(k, v, w.home(k), node.syn.value) else Searching(k, v));
    assert Next(w, s, c, SearchLeaf(w.home(k)), s');
    hide Inv, Next, HasKey, IndexOf;
    StepKeepsInvariant(w, s, c, SearchLeaf(w.home(k)), s');
    SearchFinds(w, s, c, s');
  }

  lemma SearchSynonym(w: Config, s: State, c: nat, a: Address) returns (s': State)
    requires w.Valid() && Inv(w, s) && Sized(w, s) && c < |s.clients| && s.clients[c].SearchingSynonym?
    requires HasKey(SynonymAt(w, s, s.clients[c].addr), s.clients[c].k)
    ensures var SearchingSynonym(k, v, h, addr) := s.clients[c];
            && Next(w, s, c, Advance(a), s') && Inv(w, s') && s' == At(s, c, WantUpdate(k, v, h, AtSynonym(addr)))
  {
    SynonymFinds(w, s, c, a);
    s' := Advanced(w, s, c, a);
    hide Inv, Advanced, Enabled, HasKey;
    StepKeepsInvariant(w, s, c, Advance(a), s');
  }

  // ---- a key on the move ----------------------------------------------------

  /** A reader of leaf h, without the lock, sees key k in it or in the synonym leaf
      it points to. */
  ghost predicate Seen(w: Config, s: State, h: nat, k: nat)
    requires h < |s.leaves|
  {
    HasKey(s.leaves[h].rec, k) || (s.leaves[h].syn.Some? && HasKey(SynonymAt(w, s, s.leaves[h].syn.value), k))
  }

  /** The leaf is written before the synonym leaf, so the key that an insert pushes
      out of a full leaf is in neither after the first write, though it is
      stored throughout. */
  lemma MovedKeyHides(w: Config, s: State, c: nat, a: Address, b: Address)
    requires Inv(w, s) && c < |s.clients| && s.clients[c].InsertReady? && Enabled(w, s, c, a)
    requires var x := s.clients[c];
             |x.node.rec| == w.span && !PairHas(Pair(x.node.rec, x.syn), x.k) && x.k < x.node.rec[w.span - 1].key
    ensures var s1 := Advanced(w, s, c, a);
            && Sized(w, s1) && c < |s1.clients| && Enabled(w, s1, c, b)
            && var s2, h, last := Advanced(w, s1, c, b), w.home(s.clients[c].k), s.clients[c].node.rec[w.span - 1].key;
               h < |s2.leaves| && h < w.count && last in s.contents && last in s2.contents && Seen(w, s, h, last)
               && !Seen(w, s2, h, last)
  {
    var InsertReady(k, v, word, node, syn) := s.clients[c];
    var h, last, p := w.home(k), node.rec[w.span - 1].key, Pair(node.rec, syn);
    ReadyFacts(w, s, c);
    HolderFacts(w, s, c, h);
    SettledParts(w, s, h);
    LastOfLeaf(w, s, h);
    assert Room(p, k, v) && a !in s.used;
    hide *;
    KnownKey(w, s, last);
    PushedOut(p, k, v, w.span);
    LeafWritten(w, s, c, a, b);
    UnwrittenSynonym(w, s, node, syn, a, last);
    var s2 := Advanced(w, Advanced(w, s, c, a), c, b);
    NotSeen(w, s, s2, h, Node(Insert(p, k, v).pair.leaf, Some(PointerOr(node, a))), last);
  }

  lemma NotSeen(w: Config, s: State, s': State, h: nat, node: Node, k: nat)
    requires h < |s.leaves| && s'.leaves == s.leaves[h := node] && s'.syns == s.syns && node.syn.Some?
    requires !HasKey(node.rec, k) && !HasKey(SynonymAt(w, s, node.syn.value), k)
    ensures !Seen(w, s', h, k)
  {
    hide HasKey;
  }

  /** The decision and the first of its three writes. */
  lemma LeafWritten(w: Config, s: State, c: nat, a: Address, b: Address)
    requires w.Valid() && Sized(w, s) && c < |s.clients| && s.clients[c].InsertReady? && Enabled(w, s, c, a)
    requires var x := s.clients[c];
             var r := Insert(Pair(x.node.rec, x.syn), x.k, x.v);
             r.Stored? && r.wroteLeaf && r.wroteSynonym && r.pair.syn.Some?
    ensures var x, s1 := s.clients[c], Advanced(w, s, c, a);
            && w.home(x.k) < w.count && Sized(w, s1) && c < |s1.clients| && Enabled(w, s1, c, b)
            && var s2, r := Advanced(w, s1, c, b), Insert(Pair(x.node.rec, x.syn), x.k, x.v);
               && s2.leaves == s.leaves[w.home(x.k) := Node(r.pair.leaf, Some(PointerOr(x.node, a)))]
               && s2.syns == s.syns && s2.contents == s.contents[x.k := x.v]
  {
    hide Insert, Room, InsertWrites, InsertGoal, PointerOr;
    var x := s.clients[c];
    InsertIs(w, s, c, a);
    LeafFirst(x.node, Insert(Pair(x.node.rec, x.syn), x.k, x.v), a, x.word);
    WriteIs(w, Advanced(w, s, c, a), c, b);
    hide Advanced;
  }

  lemma LastOfLeaf(w: Config, s: State, h: nat)
    requires w.Valid() && Sized(w, s) && h < w.count && LeafOk(w, s, h) && s.leaves[h] == s.goals[h].node
    ensures PairOk(s.goals[h].AsPair(), w.span)
    ensures var last := s.leaves[h].rec[w.span - 1].key;
            last != NULL_KEY ==> w.home(last) == h && PairHas(s.goals[h].AsPair(), last) && Seen(w, s, h, last)
  {
    hide Visible, Settled;
    assert HasKey(s.leaves[h].rec, s.leaves[h].rec[w.span - 1].key);
  }

  lemma LeafFirst(node: Node, r: Result, a: Address, word: nat)
    requires r.Stored? && r.wroteLeaf && r.wroteSynonym && r.pair.syn.Some?
    ensures var pending := InsertWrites(node, r, a, word);
            |pending| == 3 && pending[0] == WriteLeaf(Node(r.pair.leaf, Some(PointerOr(node, a))))
  {
  }

  /** Until it is written, the synonym leaf is as before, or zeros if new. */
  lemma UnwrittenSynonym(w: Config, s: State, node: Node, syn: Option<seq<Record>>, a: Address, k: nat)
    requires s.syns.Keys <= s.used && a !in s.used && k != NULL_KEY && !HasKey(Pair(node.rec, syn).Synonyms(), k)
    requires node.syn.Some? ==> syn == Some(SynonymAt(w, s, node.syn.value))
    ensures !HasKey(SynonymAt(w, s, PointerOr(node, a)), k)
  {
    if node.syn.None? {
      assert a !in s.syns.Keys;
    }
  }
}
