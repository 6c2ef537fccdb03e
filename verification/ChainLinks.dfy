/** The index-linked chains of a leaf table: the links, the leaf numbers they
    lead to, and what adding an entry behind another does to them. */
module ChainLinks {
  import opened LeafChain

  const SYNONYM_MAX: nat := 128

  datatype Entry = Entry(leafNum: nat, synonymLeaf: nat)

  /** The leaf table and the synonym table. Synonym entry 0 holds in its leaf
      number the next free entry; a link to it ends a chain. */
  datatype Links = Links(table: seq<Entry>, syn: seq<Entry>) {
    ghost predicate Valid() { |syn| == SYNONYM_MAX && 1 <= Next() < SYNONYM_MAX }

    function Next(): nat
      requires |syn| == SYNONYM_MAX
    {
      syn[0].leafNum
    }
  }

  function At(chain: seq<nat>, a: nat): nat { if a < |chain| then chain[a] else 0 }

  /** Following the links from `first` visits the entries of `chain`, then ends. */
  ghost predicate Follows(k: Links, first: nat, chain: seq<nat>)
    requires k.Valid()
  {
    && first == At(chain, 0)
    && forall a :: 0 <= a < |chain| ==> 0 < chain[a] < k.Next() && k.syn[chain[a]].synonymLeaf == At(chain, a + 1)
  }

  lemma EntriesInTable(k: Links, first: nat, chain: seq<nat>)
    requires k.Valid() && Follows(k, first, chain)
    ensures forall a :: 0 <= a < |chain| ==> chain[a] < SYNONYM_MAX
  {
  }

  /** The leaf numbers of slot l: its main leaf, then along the chain. */
  ghost function Nums(k: Links, l: nat, chain: seq<nat>): (s: seq<nat>)
    requires k.Valid() && l < |k.table| && forall a :: 0 <= a < |chain| ==> chain[a] < SYNONYM_MAX
    ensures |s| == |chain| + 1
    ensures forall a :: 0 <= a < |s| ==> s[a] == if a == 0 then k.table[l].leafNum else k.syn[chain[a - 1]].leafNum
  {
    [k.table[l].leafNum] + seq(|chain|, a requires 0 <= a < |chain| => k.syn[chain[a]].leafNum)
  }

  /** No number occurs twice, in one sequence or in two. */
  ghost predicate AllApart(all: seq<seq<nat>>) {
    forall l, m, a, b ::
      0 <= l < |all| && 0 <= m < |all| && 0 <= a < |all[l]| && 0 <= b < |all[m]| && (l != m || a != b) ==>
        all[l][a] != all[m][b]
  }

  ghost predicate AllBelow(all: seq<seq<nat>>, pool: nat) {
    forall l, a :: 0 <= l < |all| && 0 <= a < |all[l]| ==> all[l][a] < pool
  }

  /** Every slot's links lead along its finite chain. */
  ghost predicate Followed(k: Links, chains: seq<seq<nat>>) {
    && k.Valid() && |chains| == |k.table|
    && forall l :: 0 <= l < |chains| ==> Follows(k, k.table[l].synonymLeaf, chains[l])
  }

  ghost function AllNums(k: Links, chains: seq<seq<nat>>): (all: seq<seq<nat>>)
    requires Followed(k, chains)
    ensures |all| == |chains| && forall l :: 0 <= l < |all| ==> |all[l]| == |chains[l]| + 1
  {
    seq(|chains|, l requires 0 <= l < |chains| =>
          assert Follows(k, k.table[l].synonymLeaf, chains[l]); Nums(k, l, chains[l]))
  }

  /** Every slot has its finite chain, every leaf number exists, and no leaf is
      reached twice: chains are acyclic and share nothing. */
  ghost predicate Chained(k: Links, chains: seq<seq<nat>>, pool: nat) {
    Followed(k, chains) && AllBelow(AllNums(k, chains), pool) && AllApart(AllNums(k, chains))
  }

  lemma InsertedAtApart(all: seq<seq<nat>>, pool: nat, l: nat, p: nat)
    requires AllApart(all) && AllBelow(all, pool) && l < |all| && p <= |all[l]|
    ensures AllApart(all[l := InsertedAt(all[l], p, pool)]) && AllBelow(all[l := InsertedAt(all[l], p, pool)], pool + 1)
  {
    var all' := all[l := InsertedAt(all[l], p, pool)];
    forall m, m', a, b | 0 <= m < |all'| && 0 <= m' < |all'|
                     && 0 <= a < |all'[m]| && 0 <= b < |all'[m']| && (m != m' || a != b)
      ensures all'[m][a] != all'[m'][b]
    {
      if (m == l && a == p) || (m' == l && b == p) {
      } else {
        var a', b' := if m == l && a > p then a - 1 else a, if m' == l && b > p then b - 1 else b;
        assert all'[m][a] == all[m][a'] && all'[m'][b] == all[m'][b'];
      }
    }
  }

  /** A new entry for leaf `num` right behind the given one, which is slot l's
      own entry or a synonym entry. */
  function Emplaced(k: Links, inTable: bool, l: nat, num: nat): (k': Links)
    requires |k.syn| == SYNONYM_MAX && k.Next() < SYNONYM_MAX && if inTable then l < |k.table| else l < SYNONYM_MAX
    ensures |k'.syn| == SYNONYM_MAX && |k'.table| == |k.table|
  {
    var idx := k.Next();
    var counted := k.syn[0 := k.syn[0].(leafNum := idx + 1)];
    if inTable then
      Links(k.table[l := k.table[l].(synonymLeaf := idx)], counted[idx := Entry(num, k.table[l].synonymLeaf)])
    else
      Links(k.table, counted[l := counted[l].(synonymLeaf := idx)][idx := Entry(num, counted[l].synonymLeaf)])
  }

  /** The entry that the new one goes behind links to it; it takes over that
      entry's old link; every other entry keeps its leaf and its link. */
  lemma EmplacedFields(k: Links, inTable: bool, l: nat, num: nat)
    requires k.Valid() && k.Next() + 1 < SYNONYM_MAX && if inTable then l < |k.table| else 0 < l < k.Next()
    ensures var k', idx := Emplaced(k, inTable, l, num), k.Next();
            && k'.Valid() && k'.Next() == idx + 1
            && k'.syn[idx] == Entry(num, if inTable then k.table[l].synonymLeaf else k.syn[l].synonymLeaf)
            && (forall e :: 0 < e < idx ==>
                  k'.syn[e] == if !inTable && e == l then k.syn[e].(synonymLeaf := idx) else k.syn[e])
            && (forall m :: 0 <= m < |k.table| ==>
                  k'.table[m] == if inTable && m == l then k.table[m].(synonymLeaf := idx) else k.table[m])
  {
  }

  /** The links after emplacing behind the p-th leaf of slot l. */
  function EmplacedBehind(k: Links, l: nat, chain: seq<nat>, p: nat, num: nat): (k': Links)
    requires k.Valid() && l < |k.table| && p <= |chain| && forall a :: 0 <= a < |chain| ==> chain[a] < SYNONYM_MAX
    ensures |k'.syn| == SYNONYM_MAX && |k'.table| == |k.table|
  {
    if p == 0 then Emplaced(k, true, l, num) else Emplaced(k, false, chain[p - 1], num)
  }

  lemma BehindIs(k: Links, l: nat, chain: seq<nat>, p: nat, num: nat)
    requires k.Valid() && l < |k.table| && p <= |chain| && forall a :: 0 <= a < |chain| ==> chain[a] < SYNONYM_MAX
    ensures EmplacedBehind(k, l, chain, p, num) == Emplaced(k, p == 0, if p == 0 then l else chain[p - 1], num)
  {
  }

  ghost predicate Distinct(chain: seq<nat>) {
    forall a, b :: 0 <= a < b < |chain| ==> chain[a] != chain[b]
  }

  lemma OwnEntry(k: Links, l: nat, chain: seq<nat>, p: nat, num: nat, a: nat)
    requires k.Valid() && l < |k.table| && k.Next() + 1 < SYNONYM_MAX && p <= |chain| && a <= |chain|
    requires Follows(k, k.table[l].synonymLeaf, chain) && Distinct(chain)
    ensures var k', chain' := EmplacedBehind(k, l, chain, p, num), InsertedAt(chain, p, k.Next());
            && k'.Valid() && 0 < chain'[a] < k'.Next() && k'.syn[chain'[a]].synonymLeaf == At(chain', a + 1)
            && k'.syn[chain'[a]].leafNum == if a == p then num else k.syn[chain'[a]].leafNum
  {
    BehindFields(k, l, chain, p, num);
    hide EmplacedBehind, Emplaced, Distinct;
    if a < p {
      assert k.syn[chain[a]].synonymLeaf == At(chain, a + 1);
    } else if a > p {
      assert k.syn[chain[a - 1]].synonymLeaf == At(chain, a);
    }
  }

  lemma BehindFields(k: Links, l: nat, chain: seq<nat>, p: nat, num: nat)
    requires k.Valid() && l < |k.table| && k.Next() + 1 < SYNONYM_MAX && p <= |chain|
    requires Follows(k, k.table[l].synonymLeaf, chain) && Distinct(chain)
    ensures var k', idx := EmplacedBehind(k, l, chain, p, num), k.Next();
            && k'.Valid() && k'.Next() == idx + 1 && k'.syn[idx] == Entry(num, At(chain, p))
            && forall a :: 0 <= a < |chain| ==>
                 && 0 < chain[a] < idx
                 && k'.syn[chain[a]] == if a + 1 == p then k.syn[chain[a]].(synonymLeaf := idx) else k.syn[chain[a]]
  {
    EmplacedFields(k, p == 0, if p == 0 then l else chain[p - 1], num);
    hide Emplaced;
  }

  /** Its own chain gains the new entry, right behind that leaf. */
  lemma OwnChain(k: Links, l: nat, chain: seq<nat>, p: nat, num: nat)
    requires k.Valid() && l < |k.table| && k.Next() + 1 < SYNONYM_MAX && p <= |chain|
    requires Follows(k, k.table[l].synonymLeaf, chain) && Distinct(chain)
    ensures var k' := EmplacedBehind(k, l, chain, p, num);
            && k'.Valid() && Follows(k', k'.table[l].synonymLeaf, InsertedAt(chain, p, k.Next()))
            && Nums(k', l, InsertedAt(chain, p, k.Next())) == InsertedAt(Nums(k, l, chain), p + 1, num)
  {
    OwnFollows(k, l, chain, p, num);
    hide Nums, EmplacedBehind, Follows;
    var k', chain' := EmplacedBehind(k, l, chain, p, num), InsertedAt(chain, p, k.Next());
    EntriesInTable(k, k.table[l].synonymLeaf, chain);
    EntriesInTable(k', k'.table[l].synonymLeaf, chain');
    forall a | 0 <= a < |chain| + 2
      ensures Nums(k', l, chain')[a] == InsertedAt(Nums(k, l, chain), p + 1, num)[a]
    {
      if a > 0 {
        OwnEntry(k, l, chain, p, num, a - 1);
      }
    }
  }

  lemma OwnFollows(k: Links, l: nat, chain: seq<nat>, p: nat, num: nat)
    requires k.Valid() && l < |k.table| && k.Next() + 1 < SYNONYM_MAX && p <= |chain|
    requires Follows(k, k.table[l].synonymLeaf, chain) && Distinct(chain)
    ensures var k', chain' := EmplacedBehind(k, l, chain, p, num), InsertedAt(chain, p, k.Next());
            k'.Valid() && k'.table[l].leafNum == k.table[l].leafNum && Follows(k', k'.table[l].synonymLeaf, chain')
  {
    OwnFirst(k, l, chain, p, num);
    hide EmplacedBehind, Emplaced, At;
    var k', chain' := EmplacedBehind(k, l, chain, p, num), InsertedAt(chain, p, k.Next());
    forall a | 0 <= a < |chain'|
      ensures 0 < chain'[a] < k'.Next() && k'.syn[chain'[a]].synonymLeaf == At(chain', a + 1)
    {
      OwnEntry(k, l, chain, p, num, a);
    }
  }

  lemma OwnFirst(k: Links, l: nat, chain: seq<nat>, p: nat, num: nat)
    requires k.Valid() && l < |k.table| && k.Next() + 1 < SYNONYM_MAX && p <= |chain|
    requires Follows(k, k.table[l].synonymLeaf, chain)
    ensures var k' := EmplacedBehind(k, l, chain, p, num);
            k'.Valid() && k'.table[l] == Entry(k.table[l].leafNum, At(InsertedAt(chain, p, k.Next()), 0))
  {
    EmplacedFields(k, p == 0, if p == 0 then l else chain[p - 1], num);
    hide Emplaced;
  }

  lemma OtherChain(k: Links, l: nat, chain: seq<nat>, p: nat, num: nat, m: nat, other: seq<nat>)
    requires k.Valid() && l < |k.table| && m < |k.table| && l != m && k.Next() + 1 < SYNONYM_MAX && p <= |chain|
    requires Follows(k, k.table[l].synonymLeaf, chain) && Follows(k, k.table[m].synonymLeaf, other)
    requires forall a, b :: 0 <= a < |chain| && 0 <= b < |other| ==> chain[a] != other[b]
    ensures var k' := EmplacedBehind(k, l, chain, p, num);
            && k'.Valid() && Follows(k', k'.table[m].synonymLeaf, other) && Nums(k', m, other) == Nums(k, m, other)
  {
    EmplacedFields(k, p == 0, if p == 0 then l else chain[p - 1], num);
  }

  /** No entry occurs twice in a chain, or in two chains. */
  lemma EntriesApart(k: Links, chains: seq<seq<nat>>, pool: nat, l: nat, m: nat)
    requires Chained(k, chains, pool) && l < |chains| && m < |chains|
    ensures forall a, b :: 0 <= a < |chains[l]| && 0 <= b < |chains[m]| && (l != m || a != b) ==>
              chains[l][a] != chains[m][b]
  {
    var all := AllNums(k, chains);
    assert Follows(k, k.table[l].synonymLeaf, chains[l]) && Follows(k, k.table[m].synonymLeaf, chains[m]);
    forall a, b | 0 <= a < |chains[l]| && 0 <= b < |chains[m]| && (l != m || a != b)
      ensures chains[l][a] != chains[m][b]
    {
      assert all[l][a + 1] == k.syn[chains[l][a]].leafNum && all[m][b + 1] == k.syn[chains[m][b]].leafNum;
    }
  }

  /** Chains stay acyclic and disjoint when a leaf not yet in any is added. */
  lemma EmplacedChained(k: Links, chains: seq<seq<nat>>, pool: nat, l: nat, p: nat)
    requires Chained(k, chains, pool) && l < |chains| && p <= |chains[l]| && k.Next() + 1 < SYNONYM_MAX
    ensures var k', chains' :=
              EmplacedBehind(k, l, chains[l], p, pool), chains[l := InsertedAt(chains[l], p, k.Next())];
            && Chained(k', chains', pool + 1)
            && AllNums(k', chains') == AllNums(k, chains)[l := InsertedAt(AllNums(k, chains)[l], p + 1, pool)]
  {
    var k', chains' := EmplacedBehind(k, l, chains[l], p, pool), chains[l := InsertedAt(chains[l], p, k.Next())];
    EntriesApart(k, chains, pool, l, l);
    OwnChain(k, l, chains[l], p, pool);
    forall m | 0 <= m < |chains| && m != l
      ensures Follows(k', k'.table[m].synonymLeaf, chains[m]) && Nums(k', m, chains[m]) == Nums(k, m, chains[m])
    {
      EntriesApart(k, chains, pool, l, m);
      OtherChain(k, l, chains[l], p, pool, m, chains[m]);
    }
    assert Followed(k', chains');
    assert AllNums(k', chains') == AllNums(k, chains)[l := InsertedAt(AllNums(k, chains)[l], p + 1, pool)];
    InsertedAtApart(AllNums(k, chains), pool, l, p + 1);
  }

  /** A new slot with a new main leaf and no chain. */
  lemma SlotAdded(k: Links, chains: seq<seq<nat>>, pool: nat)
    requires Chained(k, chains, pool)
    ensures var k' := Links(k.table + [Entry(pool, 0)], k.syn);
            Chained(k', chains + [[]], pool + 1) && AllNums(k', chains + [[]]) == AllNums(k, chains) + [[pool]]
  {
    hide Follows, Nums, AllApart, AllBelow;
    var k', chains' := Links(k.table + [Entry(pool, 0)], k.syn), chains + [[]];
    forall l | 0 <= l < |chains'|
      ensures Follows(k', k'.table[l].synonymLeaf, chains'[l])
    {
      SlotSame(k, chains, pool, l);
    }
    assert Followed(k', chains');
    forall l | 0 <= l < |chains'|
      ensures AllNums(k', chains')[l] == (AllNums(k, chains) + [[pool]])[l]
    {
      SlotSame(k, chains, pool, l);
    }
    assert AllNums(k', chains') == AllNums(k, chains) + [[pool]];
    NewApart(AllNums(k, chains), pool);
  }

  lemma SlotSame(k: Links, chains: seq<seq<nat>>, pool: nat, l: nat)
    requires Chained(k, chains, pool) && l <= |chains|
    ensures var k', chains' := Links(k.table + [Entry(pool, 0)], k.syn), chains + [[]];
            && Follows(k', k'.table[l].synonymLeaf, chains'[l])
            && (forall a :: 0 <= a < |chains'[l]| ==> chains'[l][a] < SYNONYM_MAX)
            && Nums(k', l, chains'[l]) == if l < |chains| then AllNums(k, chains)[l] else [pool]
  {
    if l < |chains| {
      assert Follows(k, k.table[l].synonymLeaf, chains[l]);
    }
  }

  lemma NewApart(all: seq<seq<nat>>, pool: nat)
    requires AllApart(all) && AllBelow(all, pool)
    ensures AllApart(all + [[pool]]) && AllBelow(all + [[pool]], pool + 1)
  {
  }

  /** Where the a-th leaf number of slot l is stored. */
  lemma NumOf(k: Links, chains: seq<seq<nat>>, pool: nat, l: nat, a: nat)
    requires Chained(k, chains, pool) && l < |chains| && a <= |chains[l]|
    ensures a > 0 ==> 0 < chains[l][a - 1] < k.Next()
    ensures AllNums(k, chains)[l][a] == if a == 0 then k.table[l].leafNum else k.syn[chains[l][a - 1]].leafNum
    ensures AllNums(k, chains)[l][a] < pool
  {
    assert Follows(k, k.table[l].synonymLeaf, chains[l]);
    assert AllNums(k, chains)[l] == Nums(k, l, chains[l]);
  }
}
