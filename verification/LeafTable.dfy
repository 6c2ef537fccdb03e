/** The leaf table of a memory node: slots, each with a main leaf and a chain of
    synonym leaves, changed in place by inserts and updates. */
module LeafTable {
  import opened LeafChain
  import opened ChainLinks
  import opened ChainLeaf

  /** The contents of the leaves with the given numbers. */
  ghost function Gather(pool: seq<seq<Rec>>, nums: seq<nat>): (c: Chain)
    requires forall a :: 0 <= a < |nums| ==> nums[a] < |pool|
    ensures |c| == |nums| && forall a :: 0 <= a < |c| ==> c[a] == pool[nums[a]]
  {
    seq(|nums|, a requires 0 <= a < |nums| => pool[nums[a]])
  }

  ghost function Gathered(pool: seq<seq<Rec>>, all: seq<seq<nat>>): (s: seq<Chain>)
    requires AllBelow(all, |pool|)
    ensures |s| == |all| && forall l :: 0 <= l < |s| ==> s[l] == Gather(pool, all[l])
  {
    seq(|all|, l requires 0 <= l < |all| => Gather(pool, all[l]))
  }

  ghost predicate AllOk(s: seq<Chain>, n: nat) {
    forall l :: 0 <= l < |s| ==> ChainOk(s[l], n)
  }

  /** Other contents for the p-th leaf of slot l show there and nowhere else. */
  lemma GatherUpdated(pool: seq<seq<Rec>>, all: seq<seq<nat>>, l: nat, p: nat, t: seq<Rec>)
    requires AllApart(all) && AllBelow(all, |pool|) && l < |all| && p < |all[l]|
    ensures Gathered(pool[all[l][p] := t], all) == Gathered(pool, all)[l := Gathered(pool, all)[l][p := t]]
  {
    forall m | 0 <= m < |all|
      ensures Gather(pool[all[l][p] := t], all[m]) ==
              if m == l then Gather(pool, all[l])[p := t] else Gather(pool, all[m])
    {
    }
  }

  lemma GatherAppended(pool: seq<seq<Rec>>, all: seq<seq<nat>>)
    requires AllBelow(all, |pool|)
    ensures AllBelow(all + [[|pool|]], |pool| + 1)
    ensures Gathered(pool + [[]], all + [[|pool|]]) == Gathered(pool, all) + [[[]]]
  {
    forall m | 0 <= m < |all|
      ensures Gather(pool + [[]], all[m]) == Gather(pool, all[m])
    {
    }
    assert Gather(pool + [[]], [|pool|]) == [[]];
  }

  lemma EmptyChainOk(n: nat)
    ensures ChainOk([[]], n)
  {
  }

  /** A new leaf behind the p-th of slot l that takes over its upper half. */
  lemma GatherHalved(pool: seq<seq<Rec>>, all: seq<seq<nat>>, l: nat, p: nat, n: nat, num: nat)
    requires num == |pool| && AllApart(all) && AllBelow(all, |pool|) && l < |all| && p < |all[l]|
    requires |pool[all[l][p]]| == n
    requires AllBelow(all[l := InsertedAt(all[l], p + 1, num)], |pool| + 1)
    ensures var s := pool[all[l][p]];
            Gathered(pool[all[l][p] := s[..n / 2]] + [s[n / 2..]], all[l := InsertedAt(all[l], p + 1, num)])
            == Gathered(pool, all)[l := Halved(Gathered(pool, all)[l], p, n)]
  {
    var s := pool[all[l][p]];
    var pool' := pool[all[l][p] := s[..n / 2]] + [s[n / 2..]];
    var all' := all[l := InsertedAt(all[l], p + 1, num)];
    forall m | 0 <= m < |all|
      ensures Gather(pool', all'[m]) == if m == l then Halved(Gather(pool, all[l]), p, n) else Gather(pool, all[m])
    {
      if m == l {
        OwnHalved(pool, all[l], p, n, num);
      }
    }
  }

  lemma OwnHalved(pool: seq<seq<Rec>>, nums: seq<nat>, p: nat, n: nat, num: nat)
    requires num == |pool| && (forall a :: 0 <= a < |nums| ==> nums[a] < |pool|) && p < |nums| && |pool[nums[p]]| == n
    requires forall a, b :: 0 <= a < b < |nums| ==> nums[a] != nums[b]
    ensures var s := pool[nums[p]];
            Gather(pool[nums[p] := s[..n / 2]] + [s[n / 2..]], InsertedAt(nums, p + 1, num)) ==
              Halved(Gather(pool, nums), p, n)
  {
    var s := pool[nums[p]];
    var pool', nums' := pool[nums[p] := s[..n / 2]] + [s[n / 2..]], InsertedAt(nums, p + 1, num);
    var c: Chain := Gather(pool, nums);
    forall a | 0 <= a < |nums'|
      ensures Gather(pool', nums')[a] == Halved(c, p, n)[a]
    {
      HalvedAt(c, p, n, a);
      assert a <= p ==> nums'[a] == nums[a];
      assert a > p + 1 ==> nums'[a] == nums[a - 1];
    }
  }

  /** Different leaves of size n. */
  ghost predicate LeavesOk(leaves: seq<Leaf>, n: nat)
    reads leaves
  {
    && (forall i :: 0 <= i < |leaves| ==> leaves[i].Valid() && |leaves[i].keys| == n)
    && (forall i, j :: 0 <= i < j < |leaves| ==> leaves[i] != leaves[j])
  }

  ghost function PoolOf(leaves: seq<Leaf>, n: nat): (p: seq<seq<Rec>>)
    requires LeavesOk(leaves, n)
    reads leaves
    ensures |p| == |leaves| && forall i :: 0 <= i < |p| ==> p[i] == leaves[i].Contents()
  {
    seq(|leaves|, i requires 0 <= i < |leaves| && LeavesOk(leaves, n) reads leaves => leaves[i].Contents())
  }

  class LeafTable {
    const n: nat
    var table: seq<Entry>
    var synonymTable: seq<Entry>
    /** The leaf pool: a leaf's number is its index. */
    var leaves: seq<Leaf>
    /** The synonym entries of each slot, in the order of the links. */
    ghost var chains: seq<seq<nat>>

    function View(): Links
      reads this
    {
      Links(table, synonymTable)
    }

    ghost predicate PoolOk()
      reads this, leaves
    {
      LeavesOk(leaves, n)
    }

    ghost function Pool(): (p: seq<seq<Rec>>)
      requires PoolOk()
      reads this, leaves
      ensures |p| == |leaves|
    {
      PoolOf(leaves, n)
    }

    ghost predicate Linked()
      reads this, leaves
    {
      PoolOk() && Chained(View(), chains, |leaves|)
    }

    /** The chain of each slot, leaf by leaf. */
    ghost function Slots(): (c: seq<Chain>)
      requires Linked()
      reads this, leaves
      ensures |c| == |table| && forall l :: 0 <= l < |c| ==> |c[l]| == |chains[l]| + 1
    {
      Gathered(Pool(), AllNums(View(), chains))
    }

    ghost predicate Valid()
      reads this, leaves
    {
      n > 0 && Linked() && AllOk(Slots(), n)
    }

    constructor (n: nat)
      requires n > 0
      ensures Valid() && this.n == n && table == [] && View().Next() == 1
    {
      this.n := n;
      table, leaves, chains := [], [], [];
      synonymTable := seq(SYNONYM_MAX, _ => Entry(1, 0));
    }

    lemma Parts()
      requires Linked()
      ensures PoolOk() && LeavesOk(leaves, n) && Chained(View(), chains, |leaves|) && Pool() == PoolOf(leaves, n)
      ensures View().Valid() && |table| == |chains| == |AllNums(View(), chains)|
      ensures |synonymTable| == SYNONYM_MAX && View().Next() == synonymTable[0].leafNum < SYNONYM_MAX
      ensures AllApart(AllNums(View(), chains)) && AllBelow(AllNums(View(), chains), |leaves|)
      ensures forall l :: 0 <= l < |chains| ==> forall a :: 0 <= a < |chains[l]| ==> chains[l][a] < SYNONYM_MAX
      ensures Slots() == Gathered(Pool(), AllNums(View(), chains))
    {
      forall l, a | 0 <= l < |chains| && 0 <= a < |chains[l]|
        ensures chains[l][a] < SYNONYM_MAX
      {
        LeafOf(l, a + 1);
      }
    }

    lemma Whole()
      requires LeavesOk(leaves, n) && Chained(View(), chains, |leaves|)
      ensures Linked() && Pool() == PoolOf(leaves, n) && |table| == |chains|
      ensures AllBelow(AllNums(View(), chains), |leaves|) && Slots() == Gathered(Pool(), AllNums(View(), chains))
    {
    }

    /** An empty leaf from the pool: its number. */
    method FetchNewLeaf() returns (num: nat)
      requires LeavesOk(leaves, n) && n > 0
      modifies this`leaves
      ensures LeavesOk(leaves, n) && num == old(|leaves|) && |leaves| == num + 1
      ensures leaves[..num] == old(leaves) && fresh(leaves[num]) && PoolOf(leaves, n) == old(PoolOf(leaves, n)) + [[]]
    {
      hide KeysOk, Recs;
      var leaf := new Leaf(n);
      num := |leaves|;
      leaves := leaves + [leaf];
    }

    /** Another slot, with an empty main leaf. */
    method TrainEmplaceBack()
      requires Valid()
      modifies this
      ensures Valid() && |table| == old(|table|) + 1 && View().Next() == old(View().Next())
      ensures Slots() == old(Slots()) + [[[]]]
    {
      ghost var slots := Slots();
      assert n > 0 && Linked() && AllOk(slots, n);
      Parts();
      SlotAdded(View(), chains, |leaves|);
      GatherAppended(Pool(), AllNums(View(), chains));
      hide *;
      var num := FetchNewLeaf();
      table := table + [Entry(num, 0)];
      chains := chains + [[]];
      ViewIs();
      Whole();
      ValidWith(slots);
    }

    /** Neighbouring leaves that overlap are not those of a table in order. */
    lemma OddBreaks(l: nat, p: nat, num: nat)
      requires l < |table| == |chains| && p < |chains[l]| && Chained(View(), chains, |leaves|)
      requires AllNums(View(), chains)[l][p] < |leaves| && num < |leaves|
      requires |AllNums(View(), chains)[l]| > p + 1 && AllNums(View(), chains)[l][p + 1] == num
      requires Overlap(leaves[AllNums(View(), chains)[l][p]], leaves[num], n)
      ensures !Valid()
    {
      if Valid() {
        LeafOf(l, p);
        LeafOf(l, p + 1);
        var cur := leaves[AllNums(View(), chains)[l][p]];
        RecsOk(cur.keys, cur.vals);
        assert false;
      }
    }

    lemma ViewIs()
      ensures View() == Links(table, synonymTable)
    {
    }

    lemma ValidWith(slots: seq<Chain>)
      requires n > 0 && Linked() && AllOk(slots, n) && Slots() == slots + [[[]]]
      ensures Valid()
    {
      EmptyChainOk(n);
    }

    /** Slot l's a-th leaf: the number stored for it, and its contents. */
    lemma LeafOf(l: nat, a: nat)
      requires Linked() && l < |table| && a <= |chains[l]|
      ensures a > 0 ==> 0 < chains[l][a - 1] < View().Next() < SYNONYM_MAX == |synonymTable|
      ensures var num := if a == 0 then table[l].leafNum else synonymTable[chains[l][a - 1]].leafNum;
              num == AllNums(View(), chains)[l][a] && num < |leaves| && leaves[num].Valid() &&
              Slots()[l][a] == leaves[num].Contents() == Pool()[num]
    {
      NumOf(View(), chains, |leaves|, l, a);
    }

    /** The chain of a slot, by following the links. */
    method Collect(l: nat) returns (s: seq<nat>)
      requires Linked() && l < |table|
      ensures s == chains[l]
    {
      assert Follows(View(), table[l].synonymLeaf, chains[l]);
      var sIdx := table[l].synonymLeaf;
      s := [];
      while sIdx != 0
        invariant |s| <= |chains[l]| && s == chains[l][..|s|] && sIdx == At(chains[l], |s|)
        decreases |chains[l]| - |s|
      {
        s := s + [sIdx];
        sIdx := synonymTable[sIdx].synonymLeaf;
      }
    }

    /** What every slot satisfies. */
    lemma SlotOk(l: nat)
      requires Valid() && l < |table|
      ensures n > 0 && Linked() && AllOk(Slots(), n) && ChainOk(Slots()[l], n)
      ensures forall a :: 0 < a < |Slots()[l]| ==> |Slots()[l][a]| > 0
    {
    }

    /** The leaf number that the key belongs to, and its synonym entry, -1 for
        the main leaf. */
    method Locate(l: nat, key: nat) returns (cur: nat, idx: int)
      requires Valid() && l < |table| && key < INVALID
      ensures var p := Target(Slots()[l], key);
              && cur == AllNums(View(), chains)[l][p]
              && idx == if p == 0 then -1 else chains[l][p - 1]
    {
      hide *;
      SlotOk(l);
      ghost var c := Slots()[l];
      LeafOf(l, 0);
      PickStep(c, key, 0);
      cur, idx := table[l].leafNum, -1;
      var s := Collect(l);
      var i := |s| - 1;
      while i >= 0
        invariant -1 <= i < |s| && cur == table[l].leafNum && idx == -1
        invariant Target(c, key) == Pick(c, key, i + 1)
      {
        LeafOf(l, i + 1);
        PickStep(c, key, i + 1);
        var num := synonymTable[s[i]].leafNum;
        if leaves[num].InsertHere(key) {
          return num, s[i];
        }
        i := i - 1;
      }
    }

    /** Looks in the main leaf, then through the chain from its end. */
    method Search(key: nat, l: nat) returns (found: bool, val: int)
      requires Valid() && l < |table| && key < INVALID
      ensures found <==> Has(Slots()[l], key)
      ensures found ==> Holds(Slots()[l], Rec(key, val))
    {
      hide *;
      SlotOk(l);
      ghost var c := Slots()[l];
      LeafOf(l, 0);
      found, val := leaves[table[l].leafNum].Search(key);
      if found {
        FoundIn(c, 0, key, val);
        return;
      }
      var s := Collect(l);
      var i := |s| - 1;
      while i >= 0
        invariant -1 <= i < |s| && !found && !HasKey(c[0], key)
        invariant forall a :: i + 1 < a < |c| ==> !HasKey(c[a], key)
      {
        LeafOf(l, i + 1);
        var num := synonymTable[s[i]].leafNum;
        found, val := leaves[num].Search(key);
        if found {
          FoundIn(c, i + 1, key, val);
          return;
        }
        i := i - 1;
      }
      FoundNowhere(c, key);
    }

    /** The pool after the leaf numbered cur alone has changed. */
    twostate lemma PoolChanged(cur: nat)
      requires old(PoolOk()) && leaves == old(leaves) && cur < |leaves|
      requires leaves[cur].Valid() && |leaves[cur].keys| == n
      requires forall i :: 0 <= i < |leaves| && i != cur ==> unchanged(leaves[i])
      ensures PoolOk() && Pool() == old(Pool())[cur := leaves[cur].Contents()]
    {
    }

    /** Updates slot l's p-th leaf, numbered cur. */
    method UpdateAt(l: nat, ghost p: nat, cur: nat, key: nat, val: int) returns (ok: bool)
      requires Linked() && l < |table| && p <= |chains[l]| && cur == AllNums(View(), chains)[l][p] && key < INVALID
      modifies leaves
      ensures Linked() && unchanged(this)
      ensures Slots() == old(Slots())[l := old(Slots()[l])[p := Rebound(old(Slots()[l])[p], key, val)]]
      ensures ok <==> HasKey(old(Slots()[l])[p], key)
    {
      ghost var pool, all, c := Pool(), AllNums(View(), chains), Slots()[l];
      assert AllApart(all) && AllBelow(all, |pool|);
      hide Chained, AllNums, KeysOk, Recs, Gathered, HasKey, Rebound;
      LeafOf(l, p);
      ok := leaves[cur].Update(key, val);
      PoolChanged(cur);
      GatherUpdated(pool, all, l, p, Rebound(c[p], key, val));
    }

    lemma StillValid(slots: seq<Chain>, l: nat, c: Chain)
      requires n > 0 && Linked() && AllOk(slots, n) && l < |slots| && ChainOk(c, n) && Slots() == slots[l := c]
      ensures Valid()
    {
    }

    /** Gives the key a new value if the slot has it. */
    method UpdateSynonym(key: nat, val: int, l: nat) returns (ok: bool)
      requires Valid() && l < |table| && key < INVALID
      modifies leaves
      ensures Valid() && unchanged(this)
      ensures ok <==> Has(old(Slots()[l]), key)
      ensures forall x :: Holds(Slots()[l], x) <==>
                if x.key == key then ok && x.value == val else Holds(old(Slots()[l]), x)
      ensures Slots() == old(Slots())[l := Slots()[l]]
    {
      hide *;
      SlotOk(l);
      ghost var slots, c := Slots(), Slots()[l];
      ghost var p := Target(c, key);
      TargetDecides(c, n, key);
      ReboundOk(c, n, key, val);
      var cur, _ := Locate(l, key);
      ok := UpdateAt(l, p, cur, key, val);
      StillValid(slots, l, c[p := Rebound(c[p], key, val)]);
    }

    /** A synonym entry for leaf `leafNum`, right behind slot l's own entry or
        behind synonym entry l; 0 when the table is full. */
    method SynonymEmplaceBack(inTable: bool, l: nat, leafNum: nat) returns (idx: nat)
      requires View().Valid() && if inTable then l < |table| else l < SYNONYM_MAX
      modifies this`table, this`synonymTable
      ensures old(View().Next()) == SYNONYM_MAX - 1 ==> idx == 0 && View() == old(View())
      ensures old(View().Next()) < SYNONYM_MAX - 1 ==>
                idx == old(View().Next()) && View() == old(Emplaced(View(), inTable, l, leafNum))
    {
      if synonymTable[0].leafNum == SYNONYM_MAX - 1 {
        return 0;
      }
      idx := synonymTable[0].leafNum;
      synonymTable := synonymTable[0 := synonymTable[0].(leafNum := idx + 1)];
      var next;
      if inTable {
        next := table[l].synonymLeaf;
        table := table[l := table[l].(synonymLeaf := idx)];
      } else {
        next := synonymTable[l].synonymLeaf;
        synonymTable := synonymTable[l := synonymTable[l].(synonymLeaf := idx)];
      }
      synonymTable := synonymTable[idx := Entry(leafNum, next)];
    }

    /** A new, empty leaf right behind slot l's p-th. */
    method LinkNew(l: nat, ghost p: nat, idx: int) returns (num: nat)
      requires Linked() && n > 0 && l < |table| && p <= |chains[l]| && idx == if p == 0 then -1 else chains[l][p - 1]
      requires View().Next() < SYNONYM_MAX - 1
      modifies this
      ensures Linked() && |table| == old(|table|) && num == old(|leaves|) && |leaves| == num + 1
      ensures leaves[..num] == old(leaves) && fresh(leaves[num]) && Pool() == old(Pool()) + [[]]
      ensures AllNums(View(), chains) ==
                old(AllNums(View(), chains))[l := InsertedAt(old(AllNums(View(), chains)[l]), p + 1, num)]
      ensures View().Next() == old(View().Next()) + 1
    {
      hide *;
      Parts();
      ViewIs();
      LeafOf(l, p);
      EmplacedFields(View(), idx == -1, if idx == -1 then l else idx, |leaves|);
      EmplacedChained(View(), chains, |leaves|, l, p);
      BehindIs(View(), l, chains[l], p, |leaves|);
      num := FetchNewLeaf();
      ViewIs();
      var _ := SynonymEmplaceBack(idx == -1, if idx == -1 then l else idx, num);
      ViewIs();
      chains := chains[l := InsertedAt(chains[l], p, old(View().Next()))];
      ViewIs();
      Whole();
    }

    /** Splits the full leaf cur into itself and the empty leaf num, and inserts
        into the half that the key belongs to. */
    method HalveInto(cur: nat, num: nat, key: nat, val: int) returns (upper: bool)
      requires LeavesOk(leaves, n) && n > 0 && cur < |leaves| && num < |leaves| && cur != num && key < INVALID
      requires |PoolOf(leaves, n)[cur]| == n && PoolOf(leaves, n)[num] == [] && !HasKey(PoolOf(leaves, n)[cur], key)
      modifies leaves[cur], leaves[num]
      ensures unchanged(this)
      ensures n % 2 == 0 ==>
                && LeavesOk(leaves, n)
                && PoolOf(leaves, n) == HalvesWith(old(PoolOf(leaves, n)), cur, num, n, upper, Rec(key, val))
                && (upper <==> old(PoolOf(leaves, n)[cur])[n / 2].key <= key)
      ensures n % 2 == 1 ==> Overlap(leaves[cur], leaves[num], n)
    {
      hide KeysOk, Recs, Used, HasKey, InsertSorted;
      ghost var pool := PoolOf(leaves, n);
      upper := HalveAndInsert(leaves[cur], leaves[num], key, val);
      if n % 2 == 0 {
        HalvesAt(pool, cur, num, n, upper, Rec(key, val));
        hide HalvesWith;
        assert LeavesOk(leaves, n);
      }
    }

    /** Splits slot l's p-th leaf, numbered cur, and inserts. An odd size leaves
        the table without its order. */
    method SplitInsert(l: nat, ghost p: nat, cur: nat, idx: int, key: nat, val: int)
      requires Linked() && n > 0 && l < |table| && p <= |chains[l]|
      requires cur == AllNums(View(), chains)[l][p] && key < INVALID
      requires idx == (if p == 0 then -1 else chains[l][p - 1]) && View().Next() < SYNONYM_MAX - 1
      requires |Slots()[l][p]| == n && !HasKey(Slots()[l][p], key)
      modifies this, leaves
      ensures |table| == old(|table|) && |leaves| == old(|leaves|) + 1
      ensures leaves[..old(|leaves|)] == old(leaves) && fresh(leaves[old(|leaves|)])
      ensures synonymTable != [] && synonymTable[0].leafNum == old(View().Next()) + 1
      ensures n % 2 == 0 ==> Linked() && Slots() == old(Slots())[l := SplitWith(old(Slots()[l]), p, n, Rec(key, val))]
      ensures n % 2 == 1 ==> !Valid()
    {
      hide *;
      Parts();
      LeafOf(l, p);
      ghost var pool, all := Pool(), AllNums(View(), chains);
      var num := LinkNew(l, p, idx);
      Parts();
      ghost var all' := AllNums(View(), chains);
      assert all' == all[l := InsertedAt(all[l], p + 1, num)];
      NextTo(all[l], p, num);
      PoolAppended(pool, cur, num);
      var upper := HalveInto(cur, num, key, val);
      ViewIs();
      if n % 2 == 0 {
        Whole();
        SlotsSplit(pool, all, l, p, n, num, upper, Rec(key, val));
      } else {
        OddBreaks(l, p, num);
      }
    }

    /** Inserts into slot l's p-th leaf, numbered cur, which has room. */
    method InsertAt(l: nat, ghost p: nat, cur: nat, key: nat, val: int)
      requires Linked() && l < |table| && p <= |chains[l]| && cur == AllNums(View(), chains)[l][p] && key < INVALID
      requires |Slots()[l][p]| < n && !HasKey(Slots()[l][p], key)
      modifies leaves
      ensures Linked() && unchanged(this)
      ensures Slots() == old(Slots())[l := old(Slots()[l])[p := InsertSorted(old(Slots()[l])[p], Rec(key, val))]]
    {
      ghost var pool, all, c := Pool(), AllNums(View(), chains), Slots()[l];
      assert AllApart(all) && AllBelow(all, |pool|);
      hide Chained, AllNums, KeysOk, Recs, Gathered, HasKey, InsertSorted;
      LeafOf(l, p);
      leaves[cur].InsertNotFull(key, val);
      PoolChanged(cur);
      GatherUpdated(pool, all, l, p, InsertSorted(c[p], Rec(key, val)));
    }

    /** Adds the binding if the key is new and synonym entries are not used up.
        The table keeps its order unless a leaf of odd size had to be split. */
    method InsertSynonym(key: nat, val: int, l: nat) returns (ok: bool)
      requires Valid() && l < |table| && key < INVALID
      modifies this, leaves
      ensures |table| == old(|table|) && forall i :: old(|leaves|) <= i < |leaves| ==> fresh(leaves[i])
      ensures var used := if ok && |old(Slots()[l])[Target(old(Slots()[l]), key)]| == n then 1 else 0;
              && |leaves| == old(|leaves|) + used && leaves[..old(|leaves|)] == old(leaves)
              && synonymTable != [] && synonymTable[0].leafNum == old(View().Next()) + used
      ensures ok <==> old(View().Next()) < SYNONYM_MAX - 1 && !Has(old(Slots()[l]), key)
      ensures Valid() <==> !(ok && n % 2 == 1 && |old(Slots()[l])[Target(old(Slots()[l]), key)]| == n)
      ensures Valid() && ok ==>
                Gains(old(Slots()[l]), Slots()[l], Rec(key, val)) && Slots() == old(Slots())[l := Slots()[l]]
      ensures !ok ==> Slots() == old(Slots())
    {
      hide *;
      SlotOk(l);
      Parts();
      ViewIs();
      ghost var slots, c := Slots(), Slots()[l];
      if synonymTable[0].leafNum == SYNONYM_MAX - 1 {
        return false;
      }
      var cur, idx := Locate(l, key);
      ghost var p := Target(c, key);
      TargetDecides(c, n, key);
      LeafOf(l, p);
      var i := leaves[cur].Find(key);
      if i < |leaves[cur].keys| {
        return false;
      }
      ok := true;
      if leaves[cur].IsFull() {
        SplitInsert(l, p, cur, idx, key, val);
        if n % 2 == 0 {
          SplitOk(c, Rec(key, val), n);
          StillValid(slots, l, SplitWith(c, p, n, Rec(key, val)));
        }
      } else {
        LeafSize(c, n, p);
        PlacedOk(c, Rec(key, val), n, p);
        InsertAt(l, p, cur, key, val);
        StillValid(slots, l, c[p := InsertSorted(c[p], Rec(key, val))]);
      }
    }
  }

  lemma FoundIn(c: Chain, a: nat, key: nat, val: int)
    requires a < |c| && HasKey(c[a], key) && Rec(key, val) in c[a]
    ensures Has(c, key) && Holds(c, Rec(key, val))
  {
  }

  lemma FoundNowhere(c: Chain, key: nat)
    requires forall a :: 0 <= a < |c| ==> !HasKey(c[a], key)
    ensures !Has(c, key)
  {
  }

  lemma LeafSize(c: Chain, n: nat, p: nat)
    requires ChainOk(c, n) && p < |c|
    ensures |c[p]| <= n
  {
  }

  /** The pool after a full leaf was halved and r went into one of the halves. */
  ghost function HalvesWith(pool: seq<seq<Rec>>, cur: nat, num: nat, n: nat, upper: bool, r: Rec): seq<seq<Rec>>
    requires cur < |pool| && num < |pool| && |pool[cur]| == n
  {
    var lo, hi := pool[cur][..n / 2], pool[cur][n / 2..];
    if upper then pool[cur := lo][num := InsertSorted(hi, r)] else pool[cur := InsertSorted(lo, r)][num := hi]
  }

  lemma HalvesAt(pool: seq<seq<Rec>>, cur: nat, num: nat, n: nat, upper: bool, r: Rec)
    requires cur < |pool| && num < |pool| && cur != num && |pool[cur]| == n
    ensures var out := HalvesWith(pool, cur, num, n, upper, r);
            && |out| == |pool| && (forall i :: 0 <= i < |pool| && i != cur && i != num ==> out[i] == pool[i])
            && out[cur] == (if upper then pool[cur][..n / 2] else InsertSorted(pool[cur][..n / 2], r))
            && out[num] == (if upper then InsertSorted(pool[cur][n / 2..], r) else pool[cur][n / 2..])
  {
    hide InsertSorted;
  }

  /** The p-th leaf of a chain halved, with r in the half it belongs to. */
  ghost function SplitWith(c: Chain, p: nat, n: nat, r: Rec): Chain
    requires p < |c| && |c[p]| == n >= 2
  {
    var d := Halved(c, p, n);
    HalvedAt(c, p, n, p + 1);
    var q := if d[p + 1][0].key <= r.key then p + 1 else p;
    d[q := InsertSorted(d[q], r)]
  }

  lemma SplitOk(c: Chain, r: Rec, n: nat)
    requires ChainOk(c, n) && n >= 2 && !Has(c, r.key) && |c[Target(c, r.key)]| == n
    ensures ChainOk(SplitWith(c, Target(c, r.key), n, r), n) && Gains(c, SplitWith(c, Target(c, r.key), n, r), r)
  {
    InsertedOk(c, r, n);
    InsertedIs(c, r, n);
  }

  lemma NextTo(nums: seq<nat>, p: nat, num: nat)
    requires p < |nums|
    ensures |InsertedAt(nums, p + 1, num)| == |nums| + 1
    ensures InsertedAt(nums, p + 1, num)[p] == nums[p] && InsertedAt(nums, p + 1, num)[p + 1] == num
  {
  }

  lemma PoolAppended(pool: seq<seq<Rec>>, cur: nat, num: nat)
    requires cur < |pool| == num
    ensures (pool + [[]])[cur] == pool[cur] && (pool + [[]])[num] == []
  {
  }

  lemma HalvesIs(pool: seq<seq<Rec>>, cur: nat, num: nat, n: nat, upper: bool, r: Rec)
    requires cur < |pool| == num && |pool[cur]| == n
    ensures var s := pool[cur];
            var mid, q := pool[cur := s[..n / 2]] + [s[n / 2..]], if upper then num else cur;
            && mid[q] == (if upper then s[n / 2..] else s[..n / 2])
            && HalvesWith(pool + [[]], cur, num, n, upper, r) == mid[q := InsertSorted(mid[q], r)]
  {
    hide InsertSorted;
  }

  lemma SplitIs(c: Chain, p: nat, n: nat, upper: bool, r: Rec)
    requires p < |c| && |c[p]| == n >= 2 && (upper <==> c[p][n / 2].key <= r.key)
    ensures var q := if upper then p + 1 else p;
            && Halved(c, p, n)[q] == (if upper then c[p][n / 2..] else c[p][..n / 2])
            && SplitWith(c, p, n, r) == Halved(c, p, n)[q := InsertSorted(Halved(c, p, n)[q], r)]
  {
    hide InsertSorted, Halved;
    HalvedAt(c, p, n, p);
    HalvedAt(c, p, n, p + 1);
  }

  lemma OwnLeaf(pool: seq<seq<Rec>>, all: seq<seq<nat>>, l: nat, p: nat)
    requires AllBelow(all, |pool|) && l < |all| && p < |all[l]|
    ensures all[l][p] < |pool| && |Gathered(pool, all)[l]| == |all[l]| && Gathered(pool, all)[l][p] == pool[all[l][p]]
  {
  }

  /** Halving in the pool is halving in the chain. */
  lemma SlotsSplit(pool: seq<seq<Rec>>, all: seq<seq<nat>>, l: nat, p: nat, n: nat, num: nat, upper: bool, r: Rec)
    requires AllApart(all) && AllBelow(all, |pool|) && l < |all| && p < |all[l]| && num == |pool|
    requires |pool[all[l][p]]| == n >= 2 && (upper <==> pool[all[l][p]][n / 2].key <= r.key)
    requires AllBelow(all[l := InsertedAt(all[l], p + 1, num)], |pool| + 1)
    ensures Gathered(HalvesWith(pool + [[]], all[l][p], num, n, upper, r), all[l := InsertedAt(all[l], p + 1, num)])
            == Gathered(pool, all)[l := SplitWith(Gathered(pool, all)[l], p, n, r)]
  {
    hide *;
    OwnLeaf(pool, all, l, p);
    var cur, all' := all[l][p], all[l := InsertedAt(all[l], p + 1, num)];
    var s, c, q := pool[cur], Gathered(pool, all)[l], if upper then p + 1 else p;
    var mid := pool[cur := s[..n / 2]] + [s[n / 2..]];
    InsertedAtApart(all, num, l, p + 1);
    GatherHalved(pool, all, l, p, n, num);
    NextTo(all[l], p, num);
    HalvesIs(pool, cur, num, n, upper, r);
    SplitIs(c, p, n, upper, r);
    GatherUpdated(mid, all', l, q, InsertSorted(mid[all'[l][q]], r));
  }
}
