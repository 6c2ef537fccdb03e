/** Many threads allocating and freeing: no byte is ever in two live blocks,
    and no live block reaches into the leaf region. */
module AllocatorRuns {
  import opened DivMod
  import opened BranchlessSearch
  import opened Allocator

  /** Bytes from..to of a memory node. */
  datatype Extent = Extent(node: nat, from: int, to: int)

  predicate Apart(x: Extent, y: Extent) {
    x.node != y.node || x.to <= y.from || y.to <= x.from
  }

  function Bytes(a: Address, size: nat): Extent { Extent(a.node, a.offset, a.offset + size) }

  /** Synonym region of a memory node, divided among its directories. */
  datatype Region = Region(synStart: nat, dsmSize: nat, directories: nat) {
    predicate Valid() { 0 < synStart < dsmSize && directories > 0 && PerDirectory() >= CHUNK }

    function PerDirectory(): nat
      requires synStart <= dsmSize && directories > 0
    {
      (dsmSize - synStart) / directories
    }

    function Start(d: nat): nat
      requires synStart <= dsmSize && directories > 0
    {
      synStart + PerDirectory() * d
    }

    function Chunks(): nat
      requires synStart <= dsmSize && directories > 0
    {
      PerDirectory() / CHUNK
    }
  }

  /** A thread's allocator for one directory of one memory node. */
  datatype Slot = Slot(thread: nat, node: nat, directory: nat)

  datatype Control =
    | Idle
    | Waiting(slot: Slot, size: nat, align: nat)
    | Granted(slot: Slot, size: nat, align: nat)

  datatype Holder = Client | Listed(slot: Slot)

  /** Local allocators, next chunk per directory, what each thread is doing, and
      the live blocks. Two components record history: the blocks ever carved
      from a chunk, with their full size, and who holds each of them now. */
  datatype State = State(locals: map<Slot, Local>, tails: map<(nat, nat), nat>, control: map<nat, Control>,
                         live: map<Address, nat>, carved: map<Address, nat>, holder: map<Address, Holder>)

  function LocalAt(s: State, p: Slot): Local { if p in s.locals then s.locals[p] else NEW_LOCAL }

  function TailAt(s: State, node: nat, d: nat): nat { if (node, d) in s.tails then s.tails[(node, d)] else 1 }

  function ControlAt(s: State, t: nat): Control { if t in s.control then s.control[t] else Idle }

  const INIT := State(map[], map[], map[], map[], map[], map[])

  // ---- steps --------------------------------------------------------------

  datatype Step =
    | Request(node: nat, directory: nat, size: nat, align: nat)
    | Serve
    | Retry
    | Free(addr: Address)

  /** A block goes to the caller, as the local allocator answered. */
  function Given(s: State, p: Slot, x: Answer, size: nat): State {
    var carved := if x.res in s.carved then s.carved else s.carved[x.res := size];
    s.(locals := s.locals[p := x.local], live := s.live[x.res := size], carved := carved,
       holder := s.holder[x.res := Client], control := s.control[p.thread := Idle])
  }

  ghost predicate Next(m: Region, s: State, t: nat, step: Step, s': State)
    requires m.Valid()
  {
    match step
    case Request(node, d, size, align) =>
      && ControlAt(s, t) == Idle && d < m.directories && size > 0 && align <= 24 && Fits(m.Start(d), size, align)
      && var p := Slot(t, node, d);
         var x := Malloc(LocalAt(s, p), size, align);
         s' == if x.needChunk then
                 s.(locals := s.locals[p := x.local], control := s.control[t := Waiting(p, size, align)])
               else Given(s, p, x, size)
    case Serve =>
      && ControlAt(s, t).Waiting?
      && var Waiting(p, size, align) := ControlAt(s, t);
         var tail := TailAt(s, p.node, p.directory);
         var chunk := Address(p.node, m.Start(p.directory) + tail * CHUNK);
         && tail < m.Chunks()
         && s' == s.(locals := s.locals[p := LocalAt(s, p).(head := chunk, cur := chunk)],
                     tails := s.tails[(p.node, p.directory) := tail + 1],
                     control := s.control[t := Granted(p, size, align)])
    case Retry =>
      && ControlAt(s, t).Granted?
      && var Granted(p, size, align) := ControlAt(s, t);
         s' == Given(s, p, Malloc(LocalAt(s, p), size, align), size)
    case Free(a) =>
      && ControlAt(s, t) == Idle && a in s.live
      && var p := Slot(t, a.node, 0);
         var l := LocalAt(s, p);
         s' == s.(locals := s.locals[p := l.(free := l.free + [Block(a, s.live[a])])], live := s.live - {a},
                  holder := s.holder[a := Listed(p)])
  }

  // ---- invariant ----------------------------------------------------------

  /** What is left of the chunk in use. */
  function Rest(l: Local): Extent { Extent(l.head.node, l.cur.offset, l.head.offset + CHUNK) }

  /** The bytes lie in chunks that directory d has handed out. */
  ghost predicate Issued(m: Region, s: State, x: Extent, d: nat)
    requires m.Valid()
  {
    d < m.directories && m.Start(d) + CHUNK <= x.from && x.to <= m.Start(d) + TailAt(s, x.node, d) * CHUNK
  }

  ghost predicate TailOk(m: Region, s: State, node: nat, d: nat)
    requires m.Valid()
  {
    1 <= TailAt(s, node, d) <= m.Chunks()
  }

  ghost predicate RestOk(m: Region, s: State, p: Slot)
    requires m.Valid()
  {
    var l := LocalAt(s, p);
    l.head == NULL ||
    (l.head.node == l.cur.node == p.node && l.head.offset <= l.cur.offset &&
     Issued(m, s, Extent(p.node, l.head.offset, l.head.offset + CHUNK), p.directory))
  }

  predicate RestsApart(l: Local, l': Local) {
    l.head == NULL || l'.head == NULL || Apart(Rest(l), Rest(l'))
  }

  ghost predicate BlockOk(m: Region, s: State, a: Address)
    requires m.Valid() && a in s.carved
  {
    s.carved[a] > 0 && exists d :: Issued(m, s, Bytes(a, s.carved[a]), d)
  }

  predicate BlockApart(s: State, a: Address, l: Local)
    requires a in s.carved
  {
    l.head == NULL || Apart(Bytes(a, s.carved[a]), Rest(l))
  }

  ghost predicate RestsOk(m: Region, s: State)
    requires m.Valid()
  {
    && (forall node, d :: TailOk(m, s, node, d))
    && (forall p :: RestOk(m, s, p))
    && (forall p, q :: p != q ==> RestsApart(LocalAt(s, p), LocalAt(s, q)))
  }

  ghost predicate BlocksApart(s: State) {
    forall a, b :: a in s.carved && b in s.carved && a != b ==> Apart(Bytes(a, s.carved[a]), Bytes(b, s.carved[b]))
  }

  ghost predicate BlocksOk(m: Region, s: State)
    requires m.Valid()
  {
    && (forall a :: a in s.carved ==> BlockOk(m, s, a))
    && (forall a, p :: a in s.carved ==> BlockApart(s, a, LocalAt(s, p)))
  }

  /** No byte is in two places: blocks, and rests of chunks. */
  ghost predicate Space(m: Region, s: State)
    requires m.Valid()
  {
    RestsOk(m, s) && BlocksOk(m, s) && BlocksApart(s)
  }

  /** The blocks in a free list are whole, held by that list, and listed once. */
  ghost predicate ListOk(s: State, p: Slot) {
    var free := LocalAt(s, p).free;
    && (forall i :: 0 <= i < |free| ==>
          free[i].addr in s.carved && free[i].addr in s.holder
          && s.holder[free[i].addr] == Listed(p) && free[i].size <= s.carved[free[i].addr])
    && (forall i, j :: 0 <= i < j < |free| ==> free[i].addr != free[j].addr)
  }

  ghost predicate InList(s: State, p: Slot, a: Address) {
    exists i :: 0 <= i < |LocalAt(s, p).free| && LocalAt(s, p).free[i].addr == a
  }

  /** Every carved block is either live or in exactly one free list. */
  ghost predicate Holdings(s: State) {
    && s.holder.Keys == s.carved.Keys
    && (forall p :: ListOk(s, p))
    && (forall a :: a in s.live ==> a in s.carved && s.holder[a] == Client && s.live[a] <= s.carved[a])
    && (forall a :: a in s.holder && s.holder[a] == Client ==> a in s.live)
    && (forall a :: a in s.holder && s.holder[a].Listed? ==> InList(s, s.holder[a].slot, a))
  }

  ghost predicate ControlOk(m: Region, s: State, t: nat)
    requires m.Valid()
  {
    match ControlAt(s, t)
    case Idle => true
    case Waiting(p, size, align) =>
      && p.thread == t && p.directory < m.directories && size > 0 && align <= 24
      && Fits(m.Start(p.directory), size, align)
      && FirstFit(LocalAt(s, p).free, size, 0) == |LocalAt(s, p).free|
    case Granted(p, size, align) =>
      && p.thread == t && p.directory < m.directories && size > 0 && align <= 24
      && Fits(m.Start(p.directory), size, align)
      && FirstFit(LocalAt(s, p).free, size, 0) == |LocalAt(s, p).free|
      && LocalAt(s, p).head == LocalAt(s, p).cur
      && exists k: nat :: k > 0 && LocalAt(s, p).head == Address(p.node, m.Start(p.directory) + CHUNK * k)
  }

  ghost predicate Inv(m: Region, s: State) {
    m.Valid() && Space(m, s) && Holdings(s) && forall t :: ControlOk(m, s, t)
  }

  // ---- space --------------------------------------------------------------

  ghost predicate OnlyLocal(s: State, s': State, p: Slot) {
    forall q :: q != p ==> LocalAt(s', q) == LocalAt(s, q)
  }

  /** The rest of one chunk gets smaller at its low end. */
  ghost predicate Shrinks(l: Local, l': Local) {
    l'.head == l.head && l'.cur.node == l.cur.node && l'.cur.offset >= l.cur.offset
  }

  lemma RestsShrink(m: Region, s: State, s': State, p: Slot)
    requires m.Valid() && RestsOk(m, s) && OnlyLocal(s, s', p) && Shrinks(LocalAt(s, p), LocalAt(s', p))
    requires s'.tails == s.tails
    ensures RestsOk(m, s')
  {
    forall node, d
      ensures TailOk(m, s', node, d)
    {
      assert TailOk(m, s, node, d);
    }
    forall q
      ensures RestOk(m, s', q)
    {
      assert RestOk(m, s, q);
    }
    forall q, q' | q != q'
      ensures RestsApart(LocalAt(s', q), LocalAt(s', q'))
    {
      assert RestsApart(LocalAt(s, q), LocalAt(s, q'));
    }
  }

  lemma BlocksShrink(m: Region, s: State, s': State, p: Slot)
    requires m.Valid() && BlocksOk(m, s) && OnlyLocal(s, s', p) && Shrinks(LocalAt(s, p), LocalAt(s', p))
    requires s'.tails == s.tails && s'.carved == s.carved
    ensures BlocksOk(m, s')
  {
    forall a | a in s.carved
      ensures BlockOk(m, s', a)
    {
      SameBlock(m, s, s', a);
    }
    forall a, q | a in s.carved
      ensures BlockApart(s', a, LocalAt(s', q))
    {
      assert BlockApart(s, a, LocalAt(s, q));
    }
  }

  lemma SameBlock(m: Region, s: State, s': State, a: Address)
    requires m.Valid() && a in s.carved && BlockOk(m, s, a) && a in s'.carved && s'.carved[a] == s.carved[a]
    requires forall node, d :: TailAt(s, node, d) <= TailAt(s', node, d)
    ensures BlockOk(m, s', a)
  {
    var d :| Issued(m, s, Bytes(a, s.carved[a]), d);
    assert TailAt(s, a.node, d) <= TailAt(s', a.node, d);
    assert Issued(m, s', Bytes(a, s.carved[a]), d);
  }

  /** `size` bytes from c on lie in the rest of p's chunk. */
  ghost predicate InRest(s: State, p: Slot, c: Address, size: nat) {
    var l := LocalAt(s, p);
    && l.head != NULL && size > 0 && c.node == l.cur.node
    && l.cur.offset <= c.offset && c.offset + size <= l.head.offset + CHUNK
  }

  /** Bytes inside the rest of a chunk belong to no block yet. */
  lemma RestIsNew(m: Region, s: State, p: Slot, c: Address, size: nat)
    requires m.Valid() && Space(m, s) && InRest(s, p, c, size)
    ensures c !in s.carved
    ensures forall a :: a in s.carved ==> Apart(Bytes(a, s.carved[a]), Bytes(c, size))
    ensures forall q :: q != p && LocalAt(s, q).head != NULL ==> Apart(Bytes(c, size), Rest(LocalAt(s, q)))
    ensures Issued(m, s, Bytes(c, size), p.directory)
  {
    assert RestOk(m, s, p);
    forall a | a in s.carved
      ensures a != c && Apart(Bytes(a, s.carved[a]), Bytes(c, size))
    {
      assert BlockOk(m, s, a) && BlockApart(s, a, LocalAt(s, p));
    }
    forall q | q != p && LocalAt(s, q).head != NULL
      ensures Apart(Bytes(c, size), Rest(LocalAt(s, q)))
    {
      assert RestsApart(LocalAt(s, p), LocalAt(s, q));
    }
  }

  lemma SpaceCarved(m: Region, s: State, s': State, p: Slot, c: Address, size: nat)
    requires m.Valid() && Space(m, s) && InRest(s, p, c, size) && OnlyLocal(s, s', p)
    requires LocalAt(s', p).head == LocalAt(s, p).head && LocalAt(s', p).cur == Address(c.node, c.offset + size)
    requires s'.tails == s.tails && s'.carved == s.carved[c := size]
    ensures c !in s.carved && Space(m, s')
  {
    RestIsNew(m, s, p, c, size);
    RestsShrink(m, s, s', p);
    BlocksCarved(m, s, s', p, c, size);
    assert BlocksApart(s') by {
      hide Bytes, Apart;
      ApartSymmetric();
    }
  }

  lemma ApartSymmetric()
    ensures forall x, y :: Apart(x, y) ==> Apart(y, x)
  {
  }

  lemma BlocksCarved(m: Region, s: State, s': State, p: Slot, c: Address, size: nat)
    requires m.Valid() && Space(m, s) && InRest(s, p, c, size) && OnlyLocal(s, s', p)
    requires LocalAt(s', p).head == LocalAt(s, p).head && LocalAt(s', p).cur == Address(c.node, c.offset + size)
    requires s'.tails == s.tails && s'.carved == s.carved[c := size]
    ensures BlocksOk(m, s')
  {
    RestIsNew(m, s, p, c, size);
    var mid := s.(locals := s'.locals);
    BlocksShrink(m, s, mid, p);
    forall a | a in s'.carved
      ensures BlockOk(m, s', a)
    {
      if a != c {
        SameBlock(m, s, s', a);
      } else {
        assert Issued(m, s', Bytes(c, size), p.directory);
      }
    }
    forall a, q | a in s'.carved
      ensures BlockApart(s', a, LocalAt(s', q))
    {
      if a != c {
        assert BlockApart(mid, a, LocalAt(mid, q));
      }
    }
  }

  // ---- a new chunk --------------------------------------------------------

  lemma DirectoriesApart(m: Region, d: nat, d': nat)
    requires m.Valid() && d < d'
    ensures m.Start(d) + m.Chunks() * CHUNK <= m.Start(d')
  {
    MulMono(d + 1, d', m.PerDirectory());
  }

  function ChunkAt(m: Region, node: nat, d: nat, tail: nat): Extent
    requires m.Valid()
  {
    Extent(node, m.Start(d) + tail * CHUNK, m.Start(d) + tail * CHUNK + CHUNK)
  }

  lemma ChunkIsNew(m: Region, s: State, node: nat, d: nat, x: Extent, d': nat)
    requires m.Valid() && TailAt(s, node, d) < m.Chunks() && TailOk(m, s, x.node, d') && Issued(m, s, x, d')
    ensures Apart(x, ChunkAt(m, node, d, TailAt(s, node, d)))
  {
    hide Region.Start, Region.Chunks;
    if d < d' {
      DirectoriesApart(m, d, d');
    } else if d' < d {
      DirectoriesApart(m, d', d);
    }
  }

  lemma SpaceServed(m: Region, s: State, s': State, p: Slot)
    requires m.Valid() && Space(m, s) && p.directory < m.directories && OnlyLocal(s, s', p)
    requires TailAt(s, p.node, p.directory) < m.Chunks() && s'.carved == s.carved
    requires s'.tails == s.tails[(p.node, p.directory) := TailAt(s, p.node, p.directory) + 1]
    requires LocalAt(s', p).head == LocalAt(s', p).cur
    requires LocalAt(s', p).head == Address(p.node, m.Start(p.directory) + TailAt(s, p.node, p.directory) * CHUNK)
    ensures Space(m, s')
  {
    RestsServed(m, s, s', p);
    BlocksServed(m, s, s', p);
  }

  lemma RestsServed(m: Region, s: State, s': State, p: Slot)
    requires m.Valid() && Space(m, s) && p.directory < m.directories && OnlyLocal(s, s', p)
    requires TailAt(s, p.node, p.directory) < m.Chunks()
    requires s'.tails == s.tails[(p.node, p.directory) := TailAt(s, p.node, p.directory) + 1]
    requires LocalAt(s', p).head == LocalAt(s', p).cur
    requires LocalAt(s', p).head == Address(p.node, m.Start(p.directory) + TailAt(s, p.node, p.directory) * CHUNK)
    ensures RestsOk(m, s')
  {
    forall node, d
      ensures TailOk(m, s', node, d)
    {
      assert TailOk(m, s, node, d);
    }
    forall q
      ensures RestOk(m, s', q)
    {
      assert RestOk(m, s, q) && TailOk(m, s, q.node, q.directory);
    }
    forall q | q != p
      ensures RestsApart(LocalAt(s', p), LocalAt(s', q)) && RestsApart(LocalAt(s', q), LocalAt(s', p))
    {
      var l := LocalAt(s, q);
      assert RestOk(m, s, q) && TailOk(m, s, q.node, q.directory);
      if l.head != NULL {
        ChunkIsNew(m, s, p.node, p.directory, Extent(q.node, l.head.offset, l.head.offset + CHUNK), q.directory);
      }
    }
    forall q, q' | q != q'
      ensures RestsApart(LocalAt(s', q), LocalAt(s', q'))
    {
      assert RestsApart(LocalAt(s, q), LocalAt(s, q'));
    }
  }

  lemma BlocksServed(m: Region, s: State, s': State, p: Slot)
    requires m.Valid() && Space(m, s) && p.directory < m.directories && OnlyLocal(s, s', p)
    requires TailAt(s, p.node, p.directory) < m.Chunks() && s'.carved == s.carved
    requires s'.tails == s.tails[(p.node, p.directory) := TailAt(s, p.node, p.directory) + 1]
    requires LocalAt(s', p).head == LocalAt(s', p).cur
    requires LocalAt(s', p).head == Address(p.node, m.Start(p.directory) + TailAt(s, p.node, p.directory) * CHUNK)
    ensures BlocksOk(m, s')
  {
    forall a | a in s.carved
      ensures BlockOk(m, s', a) && BlockApart(s', a, LocalAt(s', p))
    {
      SameBlock(m, s, s', a);
      var d :| Issued(m, s, Bytes(a, s.carved[a]), d);
      assert TailOk(m, s, a.node, d);
      ChunkIsNew(m, s, p.node, p.directory, Bytes(a, s.carved[a]), d);
    }
    forall a, q | a in s.carved
      ensures BlockApart(s', a, LocalAt(s', q))
    {
      assert BlockApart(s, a, LocalAt(s, q));
    }
  }

  // ---- who holds what -----------------------------------------------------

  lemma SameHoldings(s: State, s': State)
    requires Holdings(s) && s'.holder == s.holder && s'.carved == s.carved && s'.live == s.live
    requires forall q :: LocalAt(s', q).free == LocalAt(s, q).free
    ensures Holdings(s')
  {
    forall q
      ensures ListOk(s', q)
    {
      assert ListOk(s, q);
    }
    forall a | a in s'.holder && s'.holder[a].Listed?
      ensures InList(s', s'.holder[a].slot, a)
    {
      assert InList(s, s.holder[a].slot, a);
    }
  }

  lemma HoldingsCarved(s: State, s': State, c: Address, size: nat)
    requires Holdings(s) && c !in s.carved && s'.carved == s.carved[c := size]
    requires s'.holder == s.holder[c := Client] && s'.live == s.live[c := size]
    requires forall q :: LocalAt(s', q).free == LocalAt(s, q).free
    ensures c !in s.live && Holdings(s')
  {
    hide ListOk, InList;
    forall q
      ensures ListOk(s', q)
    {
      ListCarved(s, s', c, size, q);
    }
    forall a | a in s'.holder && s'.holder[a].Listed?
      ensures InList(s', s'.holder[a].slot, a)
    {
      SameList(s, s', s.holder[a].slot, a);
    }
  }

  lemma ListCarved(s: State, s': State, c: Address, size: nat, q: Slot)
    requires ListOk(s, q) && c !in s.carved && s'.carved == s.carved[c := size]
    requires s'.holder == s.holder[c := Client] && LocalAt(s', q).free == LocalAt(s, q).free
    ensures ListOk(s', q)
  {
  }

  lemma SameList(s: State, s': State, q: Slot, a: Address)
    requires InList(s, q, a) && LocalAt(s', q).free == LocalAt(s, q).free
    ensures InList(s', q, a)
  {
  }

  ghost predicate Reused(s: State, s': State, p: Slot, i: nat, size: nat) {
    var free := LocalAt(s, p).free;
    && i < |free| && size <= free[i].size && OnlyLocal(s, s', p) && s'.carved == s.carved
    && LocalAt(s', p).free == free[..i] + free[i + 1..]
    && s'.holder == s.holder[free[i].addr := Client] && s'.live == s.live[free[i].addr := size]
  }

  lemma ListedAt(s: State, p: Slot, i: nat)
    requires ListOk(s, p) && i < |LocalAt(s, p).free|
    ensures var b := LocalAt(s, p).free[i];
            b.addr in s.carved && b.addr in s.holder && s.holder[b.addr] == Listed(p) && b.size <= s.carved[b.addr]
  {
  }

  lemma ListReused(s: State, s': State, p: Slot, i: nat, size: nat, q: Slot)
    requires Reused(s, s', p, i, size) && ListOk(s, p) && ListOk(s, q)
    ensures ListOk(s', q)
  {
    var free, free' := LocalAt(s, p).free, LocalAt(s', p).free;
    assert forall j :: 0 <= j < |free'| ==> free'[j] == free[if j < i then j else j + 1];
  }

  lemma InListReused(s: State, s': State, p: Slot, i: nat, size: nat, q: Slot, a: Address)
    requires Reused(s, s', p, i, size) && InList(s, q, a) && a != LocalAt(s, p).free[i].addr
    ensures InList(s', q, a)
  {
    var free, free' := LocalAt(s, p).free, LocalAt(s', p).free;
    if q == p {
      var j :| 0 <= j < |free| && free[j].addr == a;
      assert free'[if j < i then j else j - 1] == free[j];
    }
  }

  /** A free block, the i-th of its list, becomes live. */
  lemma HoldingsReused(s: State, s': State, p: Slot, i: nat, size: nat)
    requires Holdings(s) && Reused(s, s', p, i, size)
    ensures LocalAt(s, p).free[i].addr !in s.live && Holdings(s')
  {
    hide ListOk, InList;
    assert ListOk(s, p);
    ListedAt(s, p, i);
    forall q
      ensures ListOk(s', q)
    {
      ListReused(s, s', p, i, size, q);
    }
    forall a | a in s'.holder && s'.holder[a].Listed?
      ensures InList(s', s'.holder[a].slot, a)
    {
      InListReused(s, s', p, i, size, s.holder[a].slot, a);
    }
  }

  ghost predicate Freed(s: State, s': State, p: Slot, a: Address) {
    && a in s.live && OnlyLocal(s, s', p) && s'.carved == s.carved
    && LocalAt(s', p).free == LocalAt(s, p).free + [Block(a, s.live[a])]
    && s'.holder == s.holder[a := Listed(p)] && s'.live == s.live - {a}
  }

  lemma ListFreed(s: State, s': State, p: Slot, a: Address, q: Slot)
    requires Freed(s, s', p, a) && ListOk(s, q)
    requires a in s.carved && a in s.holder && s.holder[a] == Client && s.live[a] <= s.carved[a]
    ensures ListOk(s', q)
  {
    var free, free' := LocalAt(s, p).free, LocalAt(s', p).free;
    assert forall j :: 0 <= j < |free'| ==> free'[j] == if j < |free| then free[j] else Block(a, s.live[a]);
  }

  lemma InListFreed(s: State, s': State, p: Slot, a: Address, q: Slot, b: Address)
    requires Freed(s, s', p, a) && (InList(s, q, b) || (q == p && b == a))
    ensures InList(s', q, b)
  {
    var free, free' := LocalAt(s, p).free, LocalAt(s', p).free;
    assert forall j :: 0 <= j < |free'| ==> free'[j] == if j < |free| then free[j] else Block(a, s.live[a]);
    if q == p {
      if b == a {
        assert free'[|free|].addr == a;
      } else {
        var j :| 0 <= j < |free| && free[j].addr == b;
        assert free'[j].addr == b;
      }
    }
  }

  lemma HoldingsFreed(s: State, s': State, p: Slot, a: Address)
    requires Holdings(s) && Freed(s, s', p, a)
    ensures Holdings(s')
  {
    hide ListOk, InList;
    forall q
      ensures ListOk(s', q)
    {
      ListFreed(s, s', p, a, q);
    }
    forall b | b in s'.holder && s'.holder[b].Listed?
      ensures InList(s', s'.holder[b].slot, b)
    {
      InListFreed(s, s', p, a, s'.holder[b].slot, b);
    }
  }

  // ---- steps keep the invariant -------------------------------------------

  lemma ControlElsewhere(m: Region, s: State, s': State, p: Slot, u: nat)
    requires m.Valid() && ControlOk(m, s, u) && u != p.thread && OnlyLocal(s, s', p)
    requires ControlAt(s', u) == ControlAt(s, u)
    ensures ControlOk(m, s', u)
  {
  }

  lemma GivenControl(m: Region, s: State, p: Slot, x: Answer, size: nat)
    requires m.Valid() && forall u :: ControlOk(m, s, u)
    ensures forall u :: ControlOk(m, Given(s, p, x, size), u)
  {
    var s' := Given(s, p, x, size);
    forall u
      ensures ControlOk(m, s', u)
    {
      if u != p.thread {
        ControlElsewhere(m, s, s', p, u);
      }
    }
  }

  lemma CarvedStep(m: Region, s: State, p: Slot, size: nat, align: nat)
    requires m.Valid() && Space(m, s) && Holdings(s) && size > 0 && LocalAt(s, p).head != NULL
    requires Aligned(LocalAt(s, p).cur, align).offset + size <= LocalAt(s, p).head.offset + CHUNK
    ensures var x := Malloc(LocalAt(s, p), size, align);
            !x.needChunk && x.res !in s.live && Space(m, Given(s, p, x, size)) && Holdings(Given(s, p, x, size))
  {
    hide Space, Holdings;
    var x := Malloc(LocalAt(s, p), size, align);
    var s' := Given(s, p, x, size);
    RestIsNew(m, s, p, x.res, size);
    SpaceCarved(m, s, s', p, x.res, size);
    HoldingsCarved(s, s', x.res, size);
  }

  lemma ReusedStep(m: Region, s: State, p: Slot, size: nat, align: nat)
    requires m.Valid() && Space(m, s) && Holdings(s)
    requires LocalAt(s, p).head == NULL ||
             Aligned(LocalAt(s, p).cur, align).offset + size > LocalAt(s, p).head.offset + CHUNK
    requires FirstFit(LocalAt(s, p).free, size, 0) < |LocalAt(s, p).free|
    ensures var x := Malloc(LocalAt(s, p), size, align);
            !x.needChunk && x.res !in s.live && Space(m, Given(s, p, x, size)) && Holdings(Given(s, p, x, size))
  {
    hide Space, Holdings, RestsOk, BlocksOk, ListOk;
    var i, x := FirstFit(LocalAt(s, p).free, size, 0), Malloc(LocalAt(s, p), size, align);
    var s' := Given(s, p, x, size);
    InLists(s, p);
    ListedAt(s, p, i);
    SpaceShrinks(m, s, s', p);
    HoldingsReused(s, s', p, i, size);
  }

  lemma InLists(s: State, p: Slot)
    requires Holdings(s)
    ensures ListOk(s, p)
  {
  }

  lemma SpaceShrinks(m: Region, s: State, s': State, p: Slot)
    requires m.Valid() && Space(m, s) && OnlyLocal(s, s', p) && Shrinks(LocalAt(s, p), LocalAt(s', p))
    requires s'.tails == s.tails && s'.carved == s.carved
    ensures Space(m, s')
  {
    RestsShrink(m, s, s', p);
    BlocksShrink(m, s, s', p);
  }

  /** A block answered by the local allocator was not live, and giving it out
      keeps everything apart. */
  lemma GivenStep(m: Region, s: State, p: Slot, size: nat, align: nat)
    requires Inv(m, s) && size > 0 && !Malloc(LocalAt(s, p), size, align).needChunk
    ensures Malloc(LocalAt(s, p), size, align).res !in s.live
    ensures Inv(m, Given(s, p, Malloc(LocalAt(s, p), size, align), size))
  {
    hide Space, Holdings, ControlOk, Given;
    var l, x := LocalAt(s, p), Malloc(LocalAt(s, p), size, align);
    if l.head != NULL && Aligned(l.cur, align).offset + size <= l.head.offset + CHUNK {
      CarvedStep(m, s, p, size, align);
    } else {
      ReusedStep(m, s, p, size, align);
    }
    GivenControl(m, s, p, x, size);
  }

  lemma RequestFails(m: Region, s: State, t: nat, p: Slot, size: nat, align: nat)
    requires Inv(m, s) && p.thread == t && p.directory < m.directories && size > 0 && align <= 24
    requires Fits(m.Start(p.directory), size, align) && Malloc(LocalAt(s, p), size, align).needChunk
    ensures var x := Malloc(LocalAt(s, p), size, align);
            Inv(m, s.(locals := s.locals[p := x.local], control := s.control[t := Waiting(p, size, align)]))
  {
    hide Space, Holdings, Fits;
    var x := Malloc(LocalAt(s, p), size, align);
    var s' := s.(locals := s.locals[p := x.local], control := s.control[t := Waiting(p, size, align)]);
    SpaceShrinks(m, s, s', p);
    SameHoldings(s, s');
    forall u
      ensures ControlOk(m, s', u)
    {
      if u != t {
        ControlElsewhere(m, s, s', p, u);
      }
    }
  }

  lemma ServedSpace(m: Region, s: State, t: nat, s': State)
    requires Inv(m, s) && Next(m, s, t, Serve, s')
    ensures Space(m, s') && Holdings(s')
  {
    assert ControlOk(m, s, t);
    hide Space, Holdings, Fits, ControlOk, FirstFit;
    SpaceServed(m, s, s', ControlAt(s, t).slot);
    SameHoldings(s, s');
  }

  lemma ServedControl(m: Region, s: State, t: nat, s': State, u: nat)
    requires Inv(m, s) && Next(m, s, t, Serve, s')
    ensures ControlOk(m, s', u)
  {
    assert ControlOk(m, s, t) && ControlOk(m, s, u);
    var Waiting(p, size, align) := ControlAt(s, t);
    var tail := TailAt(s, p.node, p.directory);
    TailPositive(m, s, p.node, p.directory);
    hide Space, Holdings, Fits, FirstFit, Inv;
    if u != t {
      ControlElsewhere(m, s, s', p, u);
    } else {
      assert LocalAt(s', p).head == Address(p.node, m.Start(p.directory) + CHUNK * tail);
    }
  }

  lemma TailPositive(m: Region, s: State, node: nat, d: nat)
    requires m.Valid() && Space(m, s)
    ensures TailAt(s, node, d) >= 1
  {
    assert TailOk(m, s, node, d);
  }

  lemma ServeStep(m: Region, s: State, t: nat, s': State)
    requires Inv(m, s) && Next(m, s, t, Serve, s')
    ensures Inv(m, s')
  {
    ServedSpace(m, s, t, s');
    forall u
      ensures ControlOk(m, s', u)
    {
      ServedControl(m, s, t, s', u);
    }
    hide Space, Holdings, ControlOk, Next;
  }

  /** The retry on a new chunk never asks for another one. */
  lemma RetryStep(m: Region, s: State, t: nat, s': State)
    requires Inv(m, s) && Next(m, s, t, Retry, s')
    ensures Inv(m, s')
  {
    hide Space, Holdings, Fits, Given, FirstFit;
    assert ControlOk(m, s, t);
    var Granted(p, size, align) := ControlAt(s, t);
    var l := LocalAt(s, p);
    var k: nat :| k > 0 && l.head == Address(p.node, m.Start(p.directory) + CHUNK * k);
    RetrySucceeds(m.Start(p.directory), k, p.node, l.free, size, align);
    GivenStep(m, s, p, size, align);
  }

  lemma FreeStep(m: Region, s: State, t: nat, a: Address, s': State)
    requires Inv(m, s) && Next(m, s, t, Free(a), s')
    ensures Inv(m, s')
  {
    hide Space, Holdings, Malloc, Fits;
    var p := Slot(t, a.node, 0);
    SpaceShrinks(m, s, s', p);
    HoldingsFreed(s, s', p, a);
    forall u
      ensures ControlOk(m, s', u)
    {
      assert ControlOk(m, s, u);
      if u != t {
        ControlElsewhere(m, s, s', p, u);
      }
    }
  }

  /** Every step of every thread keeps the invariant. */
  lemma StepKeepsInvariant(m: Region, s: State, t: nat, step: Step, s': State)
    requires Inv(m, s) && Next(m, s, t, step, s')
    ensures Inv(m, s')
  {
    match step
    case Request(node, d, size, align) =>
      var p := Slot(t, node, d);
      if Malloc(LocalAt(s, p), size, align).needChunk {
        RequestFails(m, s, t, p, size, align);
      } else {
        GivenStep(m, s, p, size, align);
      }
    case Serve => ServeStep(m, s, t, s');
    case Retry => RetryStep(m, s, t, s');
    case Free(a) => FreeStep(m, s, t, a, s');
  }

  // ---- runs ---------------------------------------------------------------

  ghost predicate Run(m: Region, states: seq<State>, who: seq<nat>, steps: seq<Step>) {
    && m.Valid() && |states| == |steps| + 1 == |who| + 1 && states[0] == INIT
    && forall i :: 0 <= i < |steps| ==> Next(m, states[i], who[i], steps[i], states[i + 1])
  }

  lemma {:induction false} RunInvariant(m: Region, states: seq<State>, who: seq<nat>, steps: seq<Step>, n: nat)
    requires Run(m, states, who, steps) && n < |states|
    ensures Inv(m, states[n])
  {
    if n == 0 {
      InitInvariant(m);
    } else {
      RunInvariant(m, states, who, steps, n - 1);
      StepKeepsInvariant(m, states[n - 1], who[n - 1], steps[n - 1], states[n]);
    }
  }

  lemma InitInvariant(m: Region)
    requires m.Valid()
    ensures Inv(m, INIT)
  {
  }

  ghost predicate InRegion(m: Region, x: Extent) {
    m.synStart + CHUNK <= x.from && x.to <= m.dsmSize
  }

  lemma IssuedInRegion(m: Region, s: State, x: Extent, d: nat)
    requires m.Valid() && Issued(m, s, x, d) && TailOk(m, s, x.node, d)
    ensures InRegion(m, x)
  {
    MulMono(d + 1, m.directories, m.PerDirectory());
    MulMono(0, d, m.PerDirectory());
    DivFloor(m.dsmSize - m.synStart, m.directories);
  }

  /** In every state of every run, live blocks do not overlap, and all of them
      lie in the synonym region past each directory's reserved chunk. */
  lemma LiveBlocksApart(m: Region, states: seq<State>, who: seq<nat>, steps: seq<Step>, n: nat)
    requires Run(m, states, who, steps) && n < |states|
    ensures var live := states[n].live;
            && (forall a, b :: a in live && b in live && a != b ==> Apart(Bytes(a, live[a]), Bytes(b, live[b])))
            && (forall a :: a in live ==> InRegion(m, Bytes(a, live[a])))
  {
    RunInvariant(m, states, who, steps, n);
    var s := states[n];
    forall a, b | a in s.live && b in s.live && a != b
      ensures Apart(Bytes(a, s.live[a]), Bytes(b, s.live[b]))
    {
      assert Apart(Bytes(a, s.carved[a]), Bytes(b, s.carved[b]));
    }
    forall a | a in s.live
      ensures InRegion(m, Bytes(a, s.live[a]))
    {
      assert BlockOk(m, s, a);
      var d :| Issued(m, s, Bytes(a, s.carved[a]), d);
      assert TailOk(m, s, a.node, d);
      IssuedInRegion(m, s, Bytes(a, s.carved[a]), d);
    }
  }

  /** Nothing carved is lost: each block is live, or in exactly one free list. */
  lemma BlocksAccounted(m: Region, states: seq<State>, who: seq<nat>, steps: seq<Step>, n: nat, a: Address)
    requires Run(m, states, who, steps) && n < |states| && a in states[n].carved
    ensures a in states[n].live <==> forall p :: !InList(states[n], p, a)
    ensures forall p, q :: InList(states[n], p, a) && InList(states[n], q, a) ==> p == q
  {
    RunInvariant(m, states, who, steps, n);
    var s := states[n];
    forall p | InList(s, p, a)
      ensures s.holder[a] == Listed(p)
    {
      assert ListOk(s, p);
    }
  }

  // ---- what a run leaves behind ---------------------------------------------

  /** Step i of a run carved the block at a: the request was made at step r, for
      that size and that alignment, and thread t has done nothing else since. */
  ghost predicate CarvedBy(states: seq<State>, who: seq<nat>, steps: seq<Step>, a: Address, r: nat, i: nat) {
    && r <= i < |steps| && |states| == |steps| + 1 == |who| + 1 && who[r] == who[i] && steps[r].Request?
    && a !in states[i].carved && a in states[i + 1].carved && states[i + 1].carved[a] == steps[r].size
    && a.node == steps[r].node && a.offset % Pow2(steps[r].align) == 0
    && forall j :: r < j <= i && who[j] == who[r] ==> steps[j] == Serve || steps[j] == Retry
  }

  /** A waiting thread has asked for what it waits for. */
  ghost predicate AskedAt(states: seq<State>, who: seq<nat>, steps: seq<Step>, t: nat, n: nat, c: Control, r: nat) {
    && r < n <= |steps| == |who| && who[r] == t && !c.Idle?
    && steps[r] == Request(c.slot.node, c.slot.directory, c.size, c.align)
    && forall j :: r < j < n && who[j] == t ==> steps[j] == Serve || steps[j] == Retry
  }

  lemma {:induction false} Asked(m: Region, states: seq<State>, who: seq<nat>, steps: seq<Step>, n: nat, t: nat)
    returns (r: nat)
    requires Run(m, states, who, steps) && n < |states| && !ControlAt(states[n], t).Idle?
    ensures AskedAt(states, who, steps, t, n, ControlAt(states[n], t), r)
  {
    assert n > 0;
    assert Next(m, states[n - 1], who[n - 1], steps[n - 1], states[n]);
    hide Malloc, Fits, LocalAt, TailAt, Region.Valid;
    if who[n - 1] == t && steps[n - 1].Request? {
      r := n - 1;
    } else {
      r := Asked(m, states, who, steps, n - 1, t);
    }
  }

  lemma CarvedAt(l: Local, size: nat, align: nat, a: Address)
    requires !Malloc(l, size, align).needChunk && a == Malloc(l, size, align).res
    requires forall b :: b in l.free ==> b.addr != a
    ensures a.node == l.cur.node && a.offset % Pow2(align) == 0
  {
    hide Malloc, RoomAt, Pow2, RemovedAt;
    MallocAnswers(l, size, align);
    if NoRoom(l, size, align) {
      TakenFrom(l.free, Malloc(l, size, align).local.free, size, a);
      assert false;
    } else {
      RoomAligned(l, size, align, a.offset);
    }
  }

  lemma TakenFrom(free: seq<Block>, rest: seq<Block>, size: nat, a: Address)
    requires FirstBlock(free, rest, size, a)
    ensures exists b :: b in free && b.addr == a
  {
    var i: nat :| RemovedAt(free, rest, size, a, i);
    assert free[i] in free;
  }

  lemma RoomAligned(l: Local, size: nat, align: nat, o: nat)
    requires RoomAt(l, size, align, o)
    ensures o % Pow2(align) == 0 && l.head != NULL
  {
  }

  /** A block in a free list was carved before. */
  lemma ListedIsCarved(s: State, p: Slot, a: Address)
    requires Holdings(s) && a !in s.carved
    ensures forall b :: b in LocalAt(s, p).free ==> b.addr != a
  {
    assert ListOk(s, p);
  }

  lemma GivenAligned(m: Region, s: State, p: Slot, size: nat, align: nat, a: Address)
    requires Inv(m, s) && a !in s.carved
    requires var x := Malloc(LocalAt(s, p), size, align); !x.needChunk && a in Given(s, p, x, size).carved
    ensures a.node == p.node && a.offset % Pow2(align) == 0
    ensures Given(s, p, Malloc(LocalAt(s, p), size, align), size).carved[a] == size
  {
    assert RestOk(m, s, p);
    hide Malloc, Space, Holdings, ControlOk, Pow2;
    ListedIsCarved(s, p, a);
    CarvedAt(LocalAt(s, p), size, align, a);
    ChunkInUse(LocalAt(s, p), size, align);
  }

  lemma ChunkInUse(l: Local, size: nat, align: nat)
    requires !Malloc(l, size, align).needChunk && forall b :: b in l.free ==> b.addr != Malloc(l, size, align).res
    ensures l.head != NULL
  {
    hide Malloc, RoomAt, Pow2, RemovedAt;
    MallocAnswers(l, size, align);
    if NoRoom(l, size, align) {
      TakenFrom(l.free, Malloc(l, size, align).local.free, size, Malloc(l, size, align).res);
      assert false;
    } else {
      RoomAligned(l, size, align, Malloc(l, size, align).res.offset);
    }
  }

  /** Every block ever carved starts at a multiple of the alignment it was
      requested with, on the node and with the size requested. */
  lemma {:induction false} BlocksAligned(m: Region, states: seq<State>, who: seq<nat>, steps: seq<Step>, n: nat,
                                         a: Address)
    returns (r: nat, i: nat)
    requires Run(m, states, who, steps) && n < |states| && a in states[n].carved
    ensures i < n && CarvedBy(states, who, steps, a, r, i)
  {
    assert n > 0;
    if a in states[n - 1].carved {
      r, i := BlocksAligned(m, states, who, steps, n - 1, a);
    } else {
      i := n - 1;
      r := CarvedNow(m, states, who, steps, i, a);
    }
  }

  lemma CarvedNow(m: Region, states: seq<State>, who: seq<nat>, steps: seq<Step>, i: nat, a: Address)
    returns (r: nat)
    requires Run(m, states, who, steps) && i < |steps| && a !in states[i].carved && a in states[i + 1].carved
    ensures CarvedBy(states, who, steps, a, r, i)
  {
    RunInvariant(m, states, who, steps, i);
    assert Next(m, states[i], who[i], steps[i], states[i + 1]);
    hide Inv, Next, Pow2;
    CarvedByStep(m, states[i], who[i], steps[i], states[i + 1], a);
    if steps[i].Retry? {
      r := Asked(m, states, who, steps, i, who[i]);
    } else {
      r := i;
    }
  }

  /** A step that carves a block is a request or its retry, and the block is as
      requested. */
  lemma CarvedByStep(m: Region, s: State, t: nat, step: Step, s': State, a: Address)
    requires Inv(m, s) && Next(m, s, t, step, s') && a !in s.carved && a in s'.carved
    ensures step.Request? || (step.Retry? && ControlAt(s, t).Granted?)
    ensures step.Request? ==> a.node == step.node && a.offset % Pow2(step.align) == 0 && s'.carved[a] == step.size
    ensures step.Retry? ==>
              var Granted(p, size, align) := ControlAt(s, t);
              a.node == p.node && a.offset % Pow2(align) == 0 && s'.carved[a] == size
  {
    if step.Retry? {
      var Granted(p, size, align) := ControlAt(s, t);
      RetryAnswers(m, s, t);
      hide Malloc, Inv, Pow2, Fits;
      GivenAligned(m, s, p, size, align, a);
    } else {
      hide Malloc, Inv, Pow2, Fits;
      var Request(node, d, size, align) := step;
      GivenAligned(m, s, Slot(t, node, d), size, align, a);
    }
  }

  lemma RetryAnswers(m: Region, s: State, t: nat)
    requires Inv(m, s) && ControlAt(s, t).Granted?
    ensures var Granted(p, size, align) := ControlAt(s, t); !Malloc(LocalAt(s, p), size, align).needChunk
  {
    hide Space, Holdings, Fits, FirstFit, Malloc;
    assert ControlOk(m, s, t);
    var Granted(p, size, align) := ControlAt(s, t);
    var l := LocalAt(s, p);
    var k: nat :| k > 0 && l.head == Address(p.node, m.Start(p.directory) + CHUNK * k);
    RetrySucceeds(m.Start(p.directory), k, p.node, l.free, size, align);
  }

  /** A freed block goes to the list that its thread keeps for the first directory
      of the block's node, with the size it was requested with, and to no other. */
  lemma FreedIsListed(m: Region, s: State, t: nat, a: Address, s': State)
    requires Inv(m, s) && Next(m, s, t, Free(a), s')
    ensures a !in s'.live && Block(a, s.live[a]) in LocalAt(s', Slot(t, a.node, 0)).free
    ensures forall q :: q != Slot(t, a.node, 0) ==> !InList(s', q, a)
  {
    var p := Slot(t, a.node, 0);
    var free := LocalAt(s', p).free;
    assert free[|free| - 1] == Block(a, s.live[a]);
    FreeStep(m, s, t, a, s');
    hide Space, ControlOk;
    forall q | q != p
      ensures !InList(s', q, a)
    {
      assert ListOk(s', q);
    }
  }

  /** No chunk is skipped: each one below the tail was handed to some thread. */
  lemma {:induction false} ChunksGranted(m: Region, states: seq<State>, who: seq<nat>, steps: seq<Step>, n: nat,
                                         node: nat, d: nat, k: nat)
    returns (i: nat)
    requires Run(m, states, who, steps) && n < |states| && 1 <= k < TailAt(states[n], node, d)
    ensures i < n && steps[i] == Serve && ControlAt(states[i], who[i]).Waiting?
    ensures var p := ControlAt(states[i], who[i]).slot;
            p.node == node && p.directory == d
            && LocalAt(states[i + 1], p).head == Address(node, m.Start(d) + k * CHUNK)
  {
    assert n > 0;
    assert Next(m, states[n - 1], who[n - 1], steps[n - 1], states[n]);
    hide Malloc, Fits, Region.Start, Region.Chunks, Region.Valid;
    if k < TailAt(states[n - 1], node, d) {
      i := ChunksGranted(m, states, who, steps, n - 1, node, d, k);
    } else {
      i := n - 1;
    }
  }

  /** The synonym region is divided evenly: a directory's part starts where the
      one before ends, fewer bytes than directories are left over, and its chunks
      leave less than a chunk. */
  lemma RegionDivided(m: Region, d: nat)
    requires m.Valid()
    ensures m.Start(0) == m.synStart && m.Start(d + 1) == m.Start(d) + m.PerDirectory()
    ensures m.Start(m.directories) <= m.dsmSize < m.Start(m.directories) + m.directories
    ensures m.Chunks() * CHUNK <= m.PerDirectory() < m.Chunks() * CHUNK + CHUNK
  {
    DivFloor(m.dsmSize - m.synStart, m.directories);
    assert m.PerDirectory() * (d + 1) == m.PerDirectory() * d + m.PerDirectory();
    assert m.PerDirectory() * m.directories == m.directories * m.PerDirectory();
  }

  // ---- every request is answered --------------------------------------------

  /** Thread t alone goes from one state to the next by the given steps. */
  ghost predicate Solo(m: Region, states: seq<State>, t: nat, steps: seq<Step>) {
    && m.Valid() && |states| == |steps| + 1
    && forall i :: 0 <= i < |steps| ==> Next(m, states[i], t, steps[i], states[i + 1])
  }

  lemma GivenLive(s: State, p: Slot, x: Answer, size: nat)
    ensures var s' := Given(s, p, x, size);
            s'.live == s.live[x.res := size] && ControlAt(s', p.thread) == Idle
  {
  }

  /** A request that the local allocator can answer takes one step. */
  lemma AnsweredAtOnce(m: Region, s: State, t: nat, node: nat, d: nat, size: nat, align: nat)
    returns (s': State, a: Address)
    requires Inv(m, s) && ControlAt(s, t) == Idle && d < m.directories && size > 0 && align <= 24
    requires Fits(m.Start(d), size, align) && !Malloc(LocalAt(s, Slot(t, node, d)), size, align).needChunk
    ensures Next(m, s, t, Request(node, d, size, align), s')
    ensures ControlAt(s', t) == Idle && a !in s.live && s'.live == s.live[a := size]
  {
    var p := Slot(t, node, d);
    var x := Malloc(LocalAt(s, p), size, align);
    s', a := Given(s, p, x, size), x.res;
    GivenStep(m, s, p, size, align);
    GivenLive(s, p, x, size);
    hide Malloc, Given, Inv, Fits;
  }

  lemma RequestWaits(m: Region, s: State, t: nat, p: Slot, size: nat, align: nat) returns (s': State)
    requires Inv(m, s) && ControlAt(s, t) == Idle && p.thread == t && p.directory < m.directories
    requires size > 0 && align <= 24
    requires Fits(m.Start(p.directory), size, align) && Malloc(LocalAt(s, p), size, align).needChunk
    ensures Next(m, s, t, Request(p.node, p.directory, size, align), s') && Inv(m, s')
    ensures ControlAt(s', t) == Waiting(p, size, align) && s'.live == s.live && s'.tails == s.tails
  {
    s' := s.(locals := s.locals[p := Malloc(LocalAt(s, p), size, align).local],
             control := s.control[t := Waiting(p, size, align)]);
    RequestFails(m, s, t, p, size, align);
    hide Malloc, Inv, Fits;
    assert Slot(t, p.node, p.directory) == p;
  }

  lemma ChunkServed(m: Region, s: State, t: nat) returns (s': State)
    requires Inv(m, s) && ControlAt(s, t).Waiting?
    requires TailAt(s, ControlAt(s, t).slot.node, ControlAt(s, t).slot.directory) < m.Chunks()
    ensures Next(m, s, t, Serve, s') && Inv(m, s') && s'.live == s.live
    ensures var Waiting(p, size, align) := ControlAt(s, t); ControlAt(s', t) == Granted(p, size, align)
  {
    ValidRegion(m, s);
    hide Inv;
    var Waiting(p, size, align) := ControlAt(s, t);
    var tail := TailAt(s, p.node, p.directory);
    var chunk := Address(p.node, m.Start(p.directory) + tail * CHUNK);
    s' := s.(locals := s.locals[p := LocalAt(s, p).(head := chunk, cur := chunk)],
             tails := s.tails[(p.node, p.directory) := tail + 1], control := s.control[t := Granted(p, size, align)]);
    ServeStep(m, s, t, s');
  }

  lemma GrantedFacts(m: Region, s: State, t: nat)
    requires Inv(m, s) && ControlAt(s, t).Granted?
    ensures ControlAt(s, t).slot.thread == t && ControlAt(s, t).size > 0
  {
    hide Space, Holdings, Fits, FirstFit;
    assert ControlOk(m, s, t);
  }

  lemma RetryGives(m: Region, s: State, t: nat) returns (s': State, a: Address)
    requires Inv(m, s) && ControlAt(s, t).Granted?
    ensures Next(m, s, t, Retry, s') && ControlAt(s', t) == Idle && a !in s.live
    ensures s'.live == s.live[a := ControlAt(s, t).size]
  {
    hide Malloc, Given, Inv, Fits, LocalAt, Region.Valid;
    ValidRegion(m, s);
    GrantedFacts(m, s, t);
    var Granted(p, size, align) := ControlAt(s, t);
    RetryAnswers(m, s, t);
    var x := Malloc(LocalAt(s, p), size, align);
    GivenStep(m, s, p, size, align);
    GivenLive(s, p, x, size);
    s', a := Given(s, p, x, size), x.res;
  }

  /** Whatever the other threads have done, an idle thread's request that fits a
      chunk is answered within three steps of its own with a block that was not
      live, unless a chunk is needed and the directory has none left. */
  lemma RequestAnswered(m: Region, s: State, t: nat, node: nat, d: nat, size: nat, align: nat)
    returns (states: seq<State>, steps: seq<Step>, a: Address)
    requires Inv(m, s) && ControlAt(s, t) == Idle && d < m.directories && size > 0 && align <= 24
    requires Fits(m.Start(d), size, align)
    requires Malloc(LocalAt(s, Slot(t, node, d)), size, align).needChunk ==> TailAt(s, node, d) < m.Chunks()
    ensures Solo(m, states, t, steps) && 0 < |steps| <= 3 && states[0] == s && steps[0] == Request(node, d, size, align)
    ensures var last := states[|steps|];
            ControlAt(last, t) == Idle && a !in s.live && last.live == s.live[a := size]
  {
    hide Next, Malloc, Fits, Inv, Region.Valid, Region.Start, Region.Chunks, LocalAt, TailAt;
    assert m.Valid() by { ValidRegion(m, s); }
    if Malloc(LocalAt(s, Slot(t, node, d)), size, align).needChunk {
      var s1 := RequestWaits(m, s, t, Slot(t, node, d), size, align);
      SameTail(s, s1, node, d);
      var s2 := ChunkServed(m, s1, t);
      var s3, b := RetryGives(m, s2, t);
      states, steps, a := [s, s1, s2, s3], [Request(node, d, size, align), Serve, Retry], b;
    } else {
      var s', b := AnsweredAtOnce(m, s, t, node, d, size, align);
      states, steps, a := [s, s'], [Request(node, d, size, align)], b;
    }
  }

  lemma SameTail(s: State, s': State, node: nat, d: nat)
    requires s'.tails == s.tails
    ensures TailAt(s', node, d) == TailAt(s, node, d)
  {
  }

  lemma ValidRegion(m: Region, s: State)
    requires Inv(m, s)
    ensures m.Valid()
  {
  }

  // ---- the leaf region ----------------------------------------------------

  /** Leaf i with its lock, on node i mod nodes. */
  function LeafBytes(i: nat, nodes: nat, regionStart: nat, leafSize: nat): Extent
    requires nodes > 0
  {
    var from := regionStart + i / nodes * RoundUp(leafSize, 3);
    Extent(i % nodes, from, from + leafSize)
  }

  /** Different leaves do not overlap. */
  lemma LeavesApart(i: nat, j: nat, nodes: nat, regionStart: nat, leafSize: nat)
    requires nodes > 0 && i != j
    ensures Apart(LeafBytes(i, nodes, regionStart, leafSize), LeafBytes(j, nodes, regionStart, leafSize))
  {
    hide RoundUp;
    DifferentPlace(i, j, nodes);
    StrideApart(i / nodes, j / nodes, RoundUp(leafSize, 3), leafSize);
  }

  /** Leaves start at multiples of 8 from the region's start and waste fewer
      than 8 bytes between neighbours on a node. */
  lemma LeavesDense(i: nat, nodes: nat, regionStart: nat, leafSize: nat)
    requires nodes > 0
    ensures var x, y := LeafBytes(i, nodes, regionStart, leafSize), LeafBytes(i + nodes, nodes, regionStart, leafSize);
            && x.node == y.node == i % nodes && (x.from - regionStart) % 8 == 0 && x.to == x.from + leafSize
            && x.to <= y.from < x.to + 8 && (i < nodes ==> x.from == regionStart)
  {
    var stride, q := RoundUp(leafSize, 3), i / nodes;
    assert Pow2(3) == 8;
    assert i == q * nodes + i % nodes;
    QuotientOf(i + nodes, nodes, q + 1, i % nodes);
    if i < nodes {
      QuotientOf(i, nodes, 0, i);
    }
    assert (q + 1) * stride == q * stride + stride;
    StillMultiple(0, stride, q, 8);
    assert q * stride == stride * q;
  }

  lemma DifferentPlace(i: nat, j: nat, nodes: nat)
    requires nodes > 0 && i != j
    ensures i / nodes != j / nodes || i % nodes != j % nodes
  {
    assert i == i / nodes * nodes + i % nodes && j == j / nodes * nodes + j % nodes;
  }

  lemma StrideApart(q: int, q': int, stride: nat, size: nat)
    requires size <= stride
    ensures q < q' ==> q * stride + size <= q' * stride
    ensures q' < q ==> q' * stride + size <= q * stride
  {
    if q < q' {
      MulMono(q + 1, q', stride);
    } else if q' < q {
      MulMono(q' + 1, q, stride);
    }
  }

  /** A leaf that passes the address assertion overlaps no live block. */
  lemma LeafUntouched(m: Region, states: seq<State>, who: seq<nat>, steps: seq<Step>, n: nat, leaf: Extent)
    requires Run(m, states, who, steps) && n < |states| && leaf.to < m.synStart
    ensures forall a :: a in states[n].live ==> Apart(leaf, Bytes(a, states[n].live[a]))
  {
    LiveBlocksApart(m, states, who, steps, n);
  }
}
