/** Many clients inserting and updating: the shared leaves, the lock words and
    every remote step a client takes, as a state machine. */
module Protocol {
  import opened LeafSlots
  import opened LeafStore

  type Address = int

  /** A lock word is 0 when free; the top bit alone marks it taken. */
  const FREE: nat := 0
  const TAKEN: nat := 0x8000_0000_0000_0000

  /** Leaf contents in remote memory: records and synonym pointer. */
  datatype Node = Node(rec: seq<Record>, syn: Option<Address>)

  datatype Write = WriteLeaf(node: Node) | WriteSynonym(addr: Address, rec: seq<Record>) | Unlock(word: nat)

  datatype Place = AtLeaf | AtSynonym(addr: Address)

  /** Where a client stands. `word` is the lock word that its compare-and-swap
      returned, and `h` the leaf it works on. */
  datatype Client =
    | Idle
    | WantInsert(k: nat, v: int)
    | InsertLocked(k: nat, v: int, word: nat)
    | InsertRead(k: nat, v: int, word: nat, node: Node)
    | InsertReady(k: nat, v: int, word: nat, node: Node, syn: Option<seq<Record>>)
    | Searching(k: nat, v: int)
    | SearchingSynonym(k: nat, v: int, h: nat, addr: Address)
    | WantUpdate(k: nat, v: int, h: nat, place: Place)
    | UpdateLocked(k: nat, v: int, h: nat, place: Place, word: nat)
    | Writing(h: nat, pending: seq<Write>)
    | AssertionFailed

  /** Slots per leaf, number of leaves, and the leaf that each key belongs to. */
  datatype Config = Config(span: nat, count: nat, home: nat -> nat) {
    predicate Valid() { span > 0 }
  }

  /** What a leaf stands for: its node and the contents of its synonym leaf. */
  datatype Goal = Goal(node: Node, syn: Option<seq<Record>>) {
    function AsPair(): Pair { Pair(node.rec, syn) }
  }

  /** Remote memory, the clients, and two bookkeeping components: for each leaf
      the contents it stands for once its pending writes are done, and the map
      that the store as a whole represents. */
  datatype State = State(leaves: seq<Node>, syns: map<Address, seq<Record>>, used: set<Address>,
                         locks: seq<nat>, clients: seq<Client>, goals: seq<Goal>, contents: map<nat, int>)

  function Zeros(w: Config): seq<Record> { seq(w.span, _ => EMPTY) }

  /** Memory that was never written reads as zeros. */
  function SynonymAt(w: Config, s: State, a: Address): seq<Record> {
    if a in s.syns then s.syns[a] else Zeros(w)
  }

  function IndexOf(rec: seq<Record>, k: nat, i: nat): (p: nat)
    requires i <= |rec|
    ensures i <= p <= |rec| && (p < |rec| ==> rec[p].key == k)
    ensures forall u :: i <= u < p ==> rec[u].key != k
    decreases |rec| - i
  {
    if i == |rec| || rec[i].key == k then i else IndexOf(rec, k, i + 1)
  }

  /** The first record with key k gets value v. */
  function Updated(rec: seq<Record>, k: nat, v: int): seq<Record> {
    var i := IndexOf(rec, k, 0);
    if i < |rec| then rec[i := Record(k, v)] else rec
  }

  // ---- steps --------------------------------------------------------------

  datatype Step =
    | StartInsert(k: nat, v: int)
    | StartUpdate(k: nat, v: int)
    | SearchLeaf(i: nat)
    | GiveUp
    | Advance(newAddr: Address)

  function At(s: State, c: nat, to: Client): State
    requires c < |s.clients|
  {
    s.(clients := s.clients[c := to])
  }

  /** The masked compare-and-swap of 0 by the taken bit: the word found. */
  function Locked(s: State, h: nat): State
    requires h < |s.locks|
  {
    if s.locks[h] == FREE then s.(locks := s.locks[h := TAKEN]) else s
  }

  /** The writes that an insert leaves to be done, in the order posted: leaf,
      synonym leaf, lock word. */
  function InsertWrites(node: Node, r: Result, a: Address, word: nat): seq<Write> {
    match r
    case KeyExists => [Unlock(word)]
    case OutOfBounds => [Unlock(word)]
    case Stored(pair, wroteLeaf, wroteSynonym) =>
      (if wroteLeaf then [WriteLeaf(Node(pair.leaf, Pointer(node, pair, a)))] else [])
      + (if wroteSynonym && pair.syn.Some? then [WriteSynonym(PointerOr(node, a), pair.syn.value)] else [])
      + [Unlock(word)]
  }

  function PointerOr(node: Node, a: Address): Address {
    if node.syn.Some? then node.syn.value else a
  }

  function Pointer(node: Node, pair: Pair, a: Address): Option<Address> {
    if pair.syn.Some? then Some(PointerOr(node, a)) else node.syn
  }

  function InsertGoal(node: Node, pair: Pair, a: Address): Goal {
    Goal(Node(pair.leaf, Pointer(node, pair, a)), pair.syn)
  }

  /** One write reaches memory. */
  function Applied(s: State, h: nat, x: Write): State
    requires h < |s.leaves| == |s.locks|
  {
    match x
    case WriteLeaf(node) => s.(leaves := s.leaves[h := node])
    case WriteSynonym(a, rec) => s.(syns := s.syns[a := rec])
    case Unlock(word) => s.(locks := s.locks[h := word])
  }

  /** The step of client c, given the leaf indices it refers to exist. */
  function Advanced(w: Config, s: State, c: nat, a: Address): State
    requires w.Valid() && c < |s.clients| && |s.leaves| == |s.locks| == |s.goals| == w.count
    requires Enabled(w, s, c, a)
  {
    match s.clients[c]
    case WantInsert(k, v) =>
      var h := w.home(k);
      if s.locks[h] == FREE then At(Locked(s, h), c, InsertLocked(k, v, s.locks[h])) else s
    case InsertLocked(k, v, word) => At(s, c, InsertRead(k, v, word, s.leaves[w.home(k)]))
    case InsertRead(k, v, word, node) =>
      At(s, c, InsertReady(k, v, word, node, if node.syn.Some? then Some(SynonymAt(w, s, node.syn.value)) else None))
    case InsertReady(k, v, word, node, syn) =>
      var h, r := w.home(k), Insert(Pair(node.rec, syn), k, v);
      var s1 := At(s, c, Writing(h, InsertWrites(node, r, a, word)));
      if !r.Stored? then s1
      else s1.(goals := s.goals[h := InsertGoal(node, r.pair, a)], contents := s.contents[k := v], used := s.used + {a})
    case SearchingSynonym(k, v, h, addr) =>
      if IndexOf(SynonymAt(w, s, addr), k, 0) < |SynonymAt(w, s, addr)| then
        At(s, c, WantUpdate(k, v, h, AtSynonym(addr)))
      else At(s, c, Searching(k, v))
    case WantUpdate(k, v, h, place) =>
      if s.locks[h] == FREE then At(Locked(s, h), c, UpdateLocked(k, v, h, place, s.locks[h])) else s
    case UpdateLocked(k, v, h, AtLeaf, word) =>
      var node, g := s.leaves[h], s.goals[h];
      if IndexOf(node.rec, k, 0) < |node.rec| then
        var node' := Node(Updated(node.rec, k, v), node.syn);
        At(s, c, Writing(h, [WriteLeaf(node'), Unlock(word)]))
          .(goals := s.goals[h := Goal(node', g.syn)], contents := s.contents[k := v])
      else if node.syn.None? then At(s, c, AssertionFailed)
      else At(s, c, UpdateLocked(k, v, h, AtSynonym(node.syn.value), word))
    case UpdateLocked(k, v, h, AtSynonym(addr), word) =>
      var rec, g := SynonymAt(w, s, addr), s.goals[h];
      if IndexOf(rec, k, 0) < |rec| then
        var rec' := Updated(rec, k, v);
        At(s, c, Writing(h, [WriteSynonym(addr, rec'), Unlock(word)]))
          .(goals := s.goals[h := Goal(g.node, Some(rec'))], contents := s.contents[k := v])
      else At(s, c, AssertionFailed)
    case Writing(h, pending) =>
      At(Applied(s, h, pending[0]), c, if |pending| == 1 then Idle else Writing(h, pending[1..]))
    case _ => s
  }

  /** A client can take its next step: the leaves it names exist, an allocated
      address is new, and an insert finds room in the synonym leaf. */
  predicate Enabled(w: Config, s: State, c: nat, a: Address)
    requires c < |s.clients|
  {
    match s.clients[c]
    case WantInsert(k, _) => w.home(k) < |s.locks|
    case InsertLocked(k, _, _) => w.home(k) < |s.leaves|
    case InsertRead(_, _, _, _) => true
    case InsertReady(k, v, _, node, syn) =>
      && w.home(k) < |s.goals| && |node.rec| > 0 && a !in s.used
      && Room(Pair(node.rec, syn), k, v)
    case SearchingSynonym(_, _, _, _) => true
    case WantUpdate(_, _, h, _) => h < |s.locks|
    case UpdateLocked(_, _, h, _, _) => h < |s.leaves| && h < |s.goals|
    case Writing(h, pending) => h < |s.leaves| == |s.locks| && |pending| > 0
    case _ => false
  }

  /** Client c takes the given step. */
  ghost predicate Next(w: Config, s: State, c: nat, step: Step, s': State)
    requires w.Valid()
  {
    && c < |s.clients| && |s.leaves| == |s.locks| == |s.goals| == w.count
    && match step
       case StartInsert(k, v) =>
         s.clients[c] == Idle && k != NULL_KEY && w.home(k) < w.count && s' == At(s, c, WantInsert(k, v))
       case StartUpdate(k, v) => s.clients[c] == Idle && k != NULL_KEY && s' == At(s, c, Searching(k, v))
       case SearchLeaf(i) =>
         && s.clients[c].Searching? && i < w.count
         && var Searching(k, v) := s.clients[c];
            var node := s.leaves[i];
            s' == At(s, c,
                     if IndexOf(node.rec, k, 0) < |node.rec| then WantUpdate(k, v, i, AtLeaf)
                     else if node.syn.Some? then SearchingSynonym(k, v, i, node.syn.value) else Searching(k, v))
       case GiveUp => s.clients[c].Searching? && s' == At(s, c, Idle)
       case Advance(a) => Enabled(w, s, c, a) && s' == Advanced(w, s, c, a)
  }
}
