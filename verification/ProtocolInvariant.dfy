/** What holds in every reachable state of the protocol. */
module ProtocolInvariant {
  import opened LeafSlots
  import opened LeafStore
  import opened Protocol

  /** The leaf whose lock the client holds. */
  function Holding(w: Config, c: Client): Option<nat> {
    match c
    case InsertLocked(k, _, _) => Some(w.home(k))
    case InsertRead(k, _, _, _) => Some(w.home(k))
    case InsertReady(k, _, _, _, _) => Some(w.home(k))
    case UpdateLocked(_, _, h, _, _) => Some(h)
    case Writing(h, _) => Some(h)
    case _ => None
  }

  ghost predicate Sized(w: Config, s: State) {
    |s.leaves| == |s.locks| == |s.goals| == w.count
  }

  /** A lock word is taken exactly when one client holds it, and no two clients
      hold the same. */
  ghost predicate LocksOk(w: Config, s: State)
    requires Sized(w, s)
  {
    && (forall h :: 0 <= h < w.count ==> s.locks[h] == FREE || s.locks[h] == TAKEN)
    && (forall c :: 0 <= c < |s.clients| && Holding(w, s.clients[c]).Some? ==>
          var h := Holding(w, s.clients[c]).value; h < w.count && s.locks[h] == TAKEN)
    && (forall c, d :: 0 <= c < d < |s.clients| && Holding(w, s.clients[c]).Some? ==>
          Holding(w, s.clients[c]) != Holding(w, s.clients[d]))
    && (forall h :: 0 <= h < w.count && s.locks[h] == TAKEN ==> HeldBy(w, s, h))
  }

  ghost predicate HeldBy(w: Config, s: State, h: nat) {
    exists c :: 0 <= c < |s.clients| && Holding(w, s.clients[c]) == Some(h)
  }

  /** What a leaf stands for is well-formed and holds only keys of that leaf. */
  ghost predicate GoalOk(w: Config, s: State, h: nat)
    requires h < |s.goals|
  {
    var g := s.goals[h];
    && PairOk(g.AsPair(), w.span) && (g.node.syn.Some? <==> g.syn.Some?)
    && (g.node.syn.Some? ==> g.node.syn.value in s.used)
    && (forall k :: k != NULL_KEY && PairHas(g.AsPair(), k) ==> w.home(k) == h)
  }

  ghost predicate PointersApart(s: State) {
    forall h, i :: 0 <= h < i < |s.goals| && s.goals[h].node.syn.Some? ==> s.goals[h].node.syn != s.goals[i].node.syn
  }

  /** The store represents `contents`. */
  ghost predicate ContentsOk(w: Config, s: State)
    requires Sized(w, s)
  {
    NULL_KEY !in s.contents && forall k: nat, v :: k != NULL_KEY ==> Represents(w, s, k, v)
  }

  ghost predicate Represents(w: Config, s: State, k: nat, v: int)
    requires Sized(w, s)
  {
    (k in s.contents && s.contents[k] == v) <==>
    w.home(k) < w.count && PairHolds(s.goals[w.home(k)].AsPair(), k, v)
  }

  /** Memory agrees with what the leaf stands for. */
  ghost predicate Settled(w: Config, s: State, h: nat)
    requires h < |s.goals| && h < |s.leaves|
  {
    var g := s.goals[h];
    && s.leaves[h] == g.node
    && (g.node.syn.Some? ==> g.syn.Some? && SynonymAt(w, s, g.node.syn.value) == g.syn.value)
  }

  /** Whatever a reader can see in memory is part of what the leaf stands for. */
  ghost predicate Visible(w: Config, s: State, h: nat)
    requires h < |s.goals| && h < |s.leaves|
  {
    var g := s.goals[h];
    && (forall k :: k != NULL_KEY && HasKey(s.leaves[h].rec, k) ==> PairHas(g.AsPair(), k))
    && (s.leaves[h].syn.Some? ==> s.leaves[h].syn == g.node.syn)
    && (g.node.syn.Some? ==>
          (g.syn.Some? && forall k ::
             k != NULL_KEY && HasKey(SynonymAt(w, s, g.node.syn.value), k) ==> HasKey(g.syn.value, k)))
  }

  // ---- clients ------------------------------------------------------------

  ghost predicate PendingOk(pending: seq<Write>) {
    && |pending| > 0 && pending[|pending| - 1] == Unlock(FREE)
    && forall i :: 0 <= i < |pending| - 1 ==> !pending[i].Unlock?
  }

  ghost predicate WritesLeaf(pending: seq<Write>) {
    exists i :: 0 <= i < |pending| && pending[i].WriteLeaf?
  }

  ghost predicate WritesSynonym(pending: seq<Write>) {
    exists i :: 0 <= i < |pending| && pending[i].WriteSynonym?
  }

  /** Every pending write writes what leaf h stands for, and each part of it
      that memory does not show yet is among them. */
  ghost predicate Completes(w: Config, s: State, h: nat, pending: seq<Write>)
    requires h < |s.goals| && h < |s.leaves|
  {
    var g := s.goals[h];
    && (s.leaves[h] == g.node || WritesLeaf(pending))
    && (g.node.syn.Some? ==>
          (g.syn.Some? && (SynonymAt(w, s, g.node.syn.value) == g.syn.value || WritesSynonym(pending))))
    && (forall i :: 0 <= i < |pending| && pending[i].WriteLeaf? ==> pending[i].node == g.node)
    && (forall i :: 0 <= i < |pending| && pending[i].WriteSynonym? ==>
          Some(pending[i].addr) == g.node.syn && g.syn == Some(pending[i].rec))
  }

  /** The key is where the client will look for it. */
  ghost predicate PlaceOk(s: State, h: nat, k: nat, place: Place)
    requires h < |s.goals|
  {
    var g := s.goals[h];
    match place
    case AtLeaf => PairHas(g.AsPair(), k)
    case AtSynonym(a) => g.node.syn == Some(a) && g.syn.Some? && HasKey(g.syn.value, k)
  }

  ghost predicate ClientOk(w: Config, s: State, c: Client)
    requires Sized(w, s)
  {
    match c
    case Idle => true
    case WantInsert(k, v) => k != NULL_KEY && w.home(k) < w.count
    case InsertLocked(k, v, word) => k != NULL_KEY && w.home(k) < w.count && word == FREE && Settled(w, s, w.home(k))
    case InsertRead(k, v, word, node) =>
      && k != NULL_KEY && w.home(k) < w.count && word == FREE && Settled(w, s, w.home(k))
      && node == s.goals[w.home(k)].node
    case InsertReady(k, v, word, node, syn) =>
      && k != NULL_KEY && w.home(k) < w.count && word == FREE && Settled(w, s, w.home(k))
      && Goal(node, syn) == s.goals[w.home(k)]
    case Searching(k, v) => k != NULL_KEY
    case SearchingSynonym(k, v, h, a) => k != NULL_KEY && h < w.count && s.goals[h].node.syn == Some(a)
    case WantUpdate(k, v, h, place) => k != NULL_KEY && h < w.count && PlaceOk(s, h, k, place)
    case UpdateLocked(k, v, h, place, word) =>
      k != NULL_KEY && h < w.count && word == FREE && Settled(w, s, h) && PlaceOk(s, h, k, place)
    case Writing(h, pending) => h < w.count && PendingOk(pending) && Completes(w, s, h, pending)
    case AssertionFailed => false
  }

  ghost predicate LeafOk(w: Config, s: State, h: nat)
    requires Sized(w, s) && h < w.count
  {
    GoalOk(w, s, h) && Visible(w, s, h) && (s.locks[h] == FREE ==> Settled(w, s, h))
  }

  ghost predicate Inv(w: Config, s: State) {
    && w.Valid() && Sized(w, s) && LocksOk(w, s) && PointersApart(s) && ContentsOk(w, s) && s.syns.Keys <= s.used
    && (forall h :: 0 <= h < w.count ==> LeafOk(w, s, h))
    && (forall c :: 0 <= c < |s.clients| ==> ClientOk(w, s, s.clients[c]))
  }

  // ---- frames -------------------------------------------------------------

  /** What a leaf stands for only grows: its keys stay, a set pointer stays,
      and keys of the synonym leaf stay there. */
  ghost predicate Grows(g: Goal, g': Goal) {
    && (forall k :: k != NULL_KEY && PairHas(g.AsPair(), k) ==> PairHas(g'.AsPair(), k))
    && (g.node.syn.Some? ==> g'.node.syn == g.node.syn)
    && (g.node.syn.Some? && g.syn.Some? ==>
          g'.syn.Some? && forall k :: k != NULL_KEY && HasKey(g.syn.value, k) ==> HasKey(g'.syn.value, k))
  }

  /** The step concerns leaf h alone. */
  ghost predicate Frame(w: Config, s: State, s': State, h: nat)
    requires Sized(w, s) && Sized(w, s') && h < w.count
  {
    && (forall i :: 0 <= i < w.count && i != h ==>
          && s'.leaves[i] == s.leaves[i] && s'.goals[i] == s.goals[i] && s'.locks[i] == s.locks[i]
          && (s.goals[i].node.syn.Some? ==>
                SynonymAt(w, s', s.goals[i].node.syn.value) == SynonymAt(w, s, s.goals[i].node.syn.value)))
    && Grows(s.goals[h], s'.goals[h]) && s.used <= s'.used
  }

  /** A client that does not hold h is not disturbed. */
  lemma OtherClient(w: Config, s: State, s': State, h: nat, c: Client)
    requires Sized(w, s) && Sized(w, s') && h < w.count && Frame(w, s, s', h)
    requires ClientOk(w, s, c) && Holding(w, c) != Some(h)
    ensures ClientOk(w, s', c)
  {
  }

  lemma OtherLeaf(w: Config, s: State, s': State, h: nat, i: nat)
    requires Sized(w, s) && Sized(w, s') && h < w.count && i < w.count && i != h && Frame(w, s, s', h)
    requires LeafOk(w, s, i)
    ensures LeafOk(w, s', i)
  {
  }
}
