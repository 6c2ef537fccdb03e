/** Reading the store: the lookup and the range query, from the predicted leaves
    to the answer, against the map that the store represents. */
module Lookup {
  import opened LeafSlots
  import opened LeafStore
  import opened Protocol
  import opened ProtocolInvariant
  import opened ProtocolRuns
  import opened DivMod
  import opened Index
  import opened Routing
  import RolexCache

  // ---- the cache of synonym addresses -------------------------------------

  /** Synonym addresses that a client has seen, by leaf number. */
  type Cache = map<nat, Address>

  ghost predicate CacheOk(s: State, cache: Cache) {
    forall i :: i in cache ==> i < |s.leaves| && s.leaves[i].syn == Some(cache[i])
  }

  /** A cached address never goes stale, whatever any client does. */
  lemma CacheStays(w: Config, s: State, c: nat, step: Step, s': State, cache: Cache)
    requires w.Valid() && Inv(w, s) && Next(w, s, c, step, s') && CacheOk(s, cache)
    ensures CacheOk(s', cache)
  {
    StepKeepsInvariant(w, s, c, step, s');
    forall i | i in cache
      ensures i < |s'.leaves| && s'.leaves[i].syn == Some(cache[i])
    {
      StepMovesKeys(w, s, c, step, s', i);
    }
  }

  // ---- the leaves read ----------------------------------------------------

  /** The records are those of leaf i or of its synonym leaf. */
  ghost predicate PartOf(w: Config, s: State, i: nat, rec: seq<Record>)
    requires i < |s.leaves|
  {
    rec == s.leaves[i].rec || (s.leaves[i].syn.Some? && rec == SynonymAt(w, s, s.leaves[i].syn.value))
  }

  ghost predicate PartOfRange(w: Config, s: State, l: nat, r: nat, rec: seq<Record>)
    requires r < |s.leaves|
  {
    exists i :: l <= i <= r && PartOf(w, s, i, rec)
  }

  /** Leaves l..r, in order. */
  method FetchLeaves(w: Config, s: State, l: nat, r: nat) returns (nodes: seq<seq<Record>>)
    requires r < |s.leaves|
    ensures forall rec :: rec in nodes ==> PartOfRange(w, s, l, r, rec)
    ensures forall u :: l <= u <= r ==> s.leaves[u].rec in nodes
  {
    nodes := [];
    var i := l;
    while i <= r
      invariant l <= i
      invariant forall rec :: rec in nodes ==> PartOfRange(w, s, l, r, rec)
      invariant forall u :: l <= u < i && u <= r ==> s.leaves[u].rec in nodes
    {
      assert PartOf(w, s, i, s.leaves[i].rec);
      nodes := nodes + [s.leaves[i].rec];
      i := i + 1;
    }
  }

  /** The synonym leaves whose address is cached. */
  method FetchCached(w: Config, s: State, l: nat, r: nat, cache: Cache) returns (nodes: seq<seq<Record>>)
    requires r < |s.leaves| && CacheOk(s, cache)
    ensures forall rec :: rec in nodes ==> PartOfRange(w, s, l, r, rec)
    ensures forall u :: l <= u <= r && u in cache ==> SynonymAt(w, s, cache[u]) in nodes
  {
    nodes := [];
    var i := l;
    while i <= r
      invariant l <= i
      invariant forall rec :: rec in nodes ==> PartOfRange(w, s, l, r, rec)
      invariant forall u :: l <= u < i && u <= r && u in cache ==> SynonymAt(w, s, cache[u]) in nodes
    {
      if i in cache {
        assert PartOf(w, s, i, SynonymAt(w, s, cache[i]));
        nodes := nodes + [SynonymAt(w, s, cache[i])];
      }
      i := i + 1;
    }
  }

  /** The synonym leaves whose address is first seen in a leaf just read. */
  method FetchUncached(w: Config, s: State, l: nat, r: nat, cache: Cache) returns (nodes: seq<seq<Record>>, seen: Cache)
    requires r < |s.leaves| && CacheOk(s, cache)
    ensures forall rec :: rec in nodes ==> PartOfRange(w, s, l, r, rec)
    ensures CacheOk(s, seen) && forall u :: u in cache ==> u in seen
    ensures forall u :: l <= u <= r && u in seen && u !in cache ==> SynonymAt(w, s, seen[u]) in nodes
    ensures forall u :: l <= u <= r && s.leaves[u].syn.Some? ==> u in seen
  {
    nodes, seen := [], cache;
    var i := l;
    while i <= r
      invariant l <= i
      invariant CacheOk(s, seen) && forall u :: u in cache ==> u in seen
      invariant forall rec :: rec in nodes ==> PartOfRange(w, s, l, r, rec)
      invariant forall u :: l <= u <= r && u in seen && u !in cache ==> SynonymAt(w, s, seen[u]) in nodes
      invariant forall u :: l <= u < i && u <= r && s.leaves[u].syn.Some? ==> u in seen
    {
      if s.leaves[i].syn.Some? && i !in seen {
        var a := s.leaves[i].syn.value;
        assert PartOf(w, s, i, SynonymAt(w, s, a));
        seen := seen[i := a];
        nodes := nodes + [SynonymAt(w, s, a)];
      }
      i := i + 1;
    }
  }

  /** Everything the predicted leaves and their synonym leaves hold, read once. */
  method FetchNodes(w: Config, s: State, l: nat, r: nat, cache: Cache) returns (nodes: seq<seq<Record>>, seen: Cache)
    requires r < |s.leaves| && CacheOk(s, cache)
    ensures forall rec :: rec in nodes <==> PartOfRange(w, s, l, r, rec)
    ensures CacheOk(s, seen) && forall i :: i in cache ==> i in seen
  {
    var leaves := FetchLeaves(w, s, l, r);
    var cached := FetchCached(w, s, l, r, cache);
    var appended;
    appended, seen := FetchUncached(w, s, l, r, cache);
    nodes := leaves + cached + appended;
    forall rec | PartOfRange(w, s, l, r, rec)
      ensures rec in nodes
    {
      var u :| l <= u <= r && PartOf(w, s, u, rec);
    }
  }

  /** The first record with the key, node after node. */
  method FindRecord(nodes: seq<seq<Record>>, k: nat) returns (found: bool, v: int)
    requires k != NULL_KEY
    ensures found ==> exists j :: 0 <= j < |nodes| && Holds(nodes[j], k, v)
    ensures !found ==> forall j :: 0 <= j < |nodes| ==> !HasKey(nodes[j], k)
  {
    for j := 0 to |nodes|
      invariant forall u :: 0 <= u < j ==> !HasKey(nodes[u], k)
    {
      for i := 0 to |nodes[j]|
        invariant forall u :: 0 <= u < i ==> nodes[j][u].key != k
      {
        if nodes[j][i].key == k {
          assert nodes[j][i] == Record(k, nodes[j][i].value);
          return true, nodes[j][i].value;
        }
      }
    }
    return false, 0;
  }

  // ---- what memory shows --------------------------------------------------

  /** At any moment, a key seen anywhere is in its home leaf or that leaf's
      synonym leaf. */
  lemma SeenAtHome(w: Config, s: State, i: nat, rec: seq<Record>, k: nat)
    requires Inv(w, s) && i < w.count && PartOf(w, s, i, rec) && k != NULL_KEY && HasKey(rec, k)
    ensures w.home(k) == i
  {
    assert LeafOk(w, s, i);
  }

  /** While its lock is free, a leaf shows exactly the bindings of its keys. */
  lemma SeenIsStored(w: Config, s: State, i: nat, rec: seq<Record>, k: nat, v: int)
    requires Inv(w, s) && i < w.count && s.locks[i] == FREE && PartOf(w, s, i, rec) && Holds(rec, k, v)
    ensures k in s.contents && s.contents[k] == v
  {
    assert LeafOk(w, s, i) && Settled(w, s, i);
    assert HasKey(rec, k);
    SeenAtHome(w, s, i, rec, k);
    assert PairHolds(s.goals[i].AsPair(), k, v);
    assert Represents(w, s, k, v);
  }

  lemma StoredIsSeen(w: Config, s: State, k: nat)
    requires Inv(w, s) && k in s.contents && (w.home(k) < w.count ==> s.locks[w.home(k)] == FREE)
    ensures w.home(k) < w.count && exists rec :: PartOf(w, s, w.home(k), rec) && Holds(rec, k, s.contents[k])
  {
    var h, v := w.home(k), s.contents[k];
    assert Represents(w, s, k, v);
    assert LeafOk(w, s, h) && Settled(w, s, h);
    if Holds(s.goals[h].node.rec, k, v) {
      assert PartOf(w, s, h, s.leaves[h].rec);
    } else {
      assert Holds(s.goals[h].AsPair().Synonyms(), k, v);
      assert PartOf(w, s, h, SynonymAt(w, s, s.leaves[h].syn.value));
    }
  }

  /** Nobody at work: every lock is free. */
  lemma QuietIsUnlocked(w: Config, s: State)
    requires Inv(w, s) && forall c :: 0 <= c < |s.clients| ==> s.clients[c] == Idle
    ensures forall h :: 0 <= h < w.count ==> s.locks[h] == FREE
  {
    forall h | 0 <= h < w.count
      ensures s.locks[h] == FREE
    {
      assert !HeldBy(w, s, h);
    }
  }

  // ---- the index and the store --------------------------------------------

  /** The store has the leaves that the index was trained for, and a key that
      can be inserted belongs to the leaf the index computes for inserts. */
  ghost predicate Linked(w: Config, ix: Index, keys: seq<int>, epsilon: nat) {
    && w.Valid() && Trained(ix, keys, epsilon, w.span) && w.count == ix.leafIdxOffsets[|ix.models|]
    && forall k: nat ::
         if Insertable(ix, keys, k, w.span) then w.home(k) == Home(ix, keys, k, w.span) else w.home(k) >= w.count
  }

  /** Only leaves of the store are predicted. */
  lemma RangeInStore(ix: Index, keys: seq<int>, epsilon: nat, span: nat, k: nat)
    requires Trained(ix, keys, epsilon, span)
    ensures LeafRange(ix, k, epsilon, span).1 < ix.leafIdxOffsets[|ix.models|]
  {
    RankInSegment(ix, keys, epsilon, span, k);
    var m := ModelForKey(ix, k);
    var p := ix.models[m].Predict(k, epsilon);
    DivMono(p.hi, ix.models[m].capacity - 1, span);
    DivMono(ix.models[m].capacity - 1, ix.models[m].capacity, span);
    DivStep(ix.models[m].capacity, span);
    OffsetsGrow(ix, keys, epsilon, span, m + 1, |ix.models|);
  }

  /** While the key's home leaf is not locked, a lookup answers exactly what
      the store holds for the key. */
  method Search(w: Config, s: State, index: RolexCache.RolexCache, k: nat, cache: Cache)
    returns (found: bool, v: int, seen: Cache)
    requires index.Valid() && |index.rolex.models| >= 2 && index.rolex.span == w.span
    requires Linked(w, index.rolex.View(), index.intKeys, index.rolex.epsilon)
    requires Inv(w, s) && CacheOk(s, cache) && k != NULL_KEY
    requires w.home(k) < w.count ==> s.locks[w.home(k)] == FREE
    ensures found <==> k in s.contents
    ensures found ==> v == s.contents[k]
    ensures CacheOk(s, seen)
  {
    ghost var ix, keys, epsilon := index.rolex.View(), index.intKeys, index.rolex.epsilon;
    var l, r := index.SearchFromCache(k);
    RangeInStore(ix, keys, epsilon, w.span, k);
    var nodes;
    nodes, seen := FetchNodes(w, s, l, r, cache);
    found, v := FindRecord(nodes, k);
    SearchAnswer(w, s, l, r, nodes, k, found, v);
  }

  lemma SearchAnswer(w: Config, s: State, l: nat, r: nat, nodes: seq<seq<Record>>, k: nat, found: bool, v: int)
    requires Inv(w, s) && r < w.count && k != NULL_KEY
    requires w.home(k) < w.count ==> s.locks[w.home(k)] == FREE && l <= w.home(k) <= r
    requires forall rec :: rec in nodes <==> PartOfRange(w, s, l, r, rec)
    requires found ==> exists j :: 0 <= j < |nodes| && Holds(nodes[j], k, v)
    requires !found ==> forall j :: 0 <= j < |nodes| ==> !HasKey(nodes[j], k)
    ensures found <==> k in s.contents
    ensures found ==> v == s.contents[k]
  {
    if found {
      var j :| 0 <= j < |nodes| && Holds(nodes[j], k, v);
      assert nodes[j] in nodes;
      var i :| l <= i <= r && PartOf(w, s, i, nodes[j]);
      SeenAtHome(w, s, i, nodes[j], k);
      SeenIsStored(w, s, i, nodes[j], k, v);
    } else if k in s.contents {
      StoredIsSeen(w, s, k);
      var rec :| PartOf(w, s, w.home(k), rec) && Holds(rec, k, s.contents[k]);
      assert PartOfRange(w, s, l, r, rec) && rec in nodes;
      assert HasKey(rec, k);
      assert false;
    }
  }

  // ---- the range query ----------------------------------------------------

  /** The records in [from, to), given that no two disagree. */
  method Collect(nodes: seq<seq<Record>>, from: nat, to: nat, ghost m: map<nat, int>) returns (ret: map<nat, int>)
    requires forall j, k: nat, v :: 0 <= j < |nodes| && Holds(nodes[j], k, v) ==> k in m && m[k] == v
    ensures forall k :: k in ret ==> from <= k < to && k in m && ret[k] == m[k]
    ensures forall j, k: nat, v :: 0 <= j < |nodes| && Holds(nodes[j], k, v) && from <= k < to ==> k in ret
  {
    ret := map[];
    for j := 0 to |nodes|
      invariant forall k :: k in ret ==> from <= k < to && k in m && ret[k] == m[k]
      invariant forall u, k: nat, v :: 0 <= u < j && Holds(nodes[u], k, v) && from <= k < to ==> k in ret
    {
      ret := CollectNode(nodes[j], from, to, ret, m);
    }
  }

  method CollectNode(rec: seq<Record>, from: nat, to: nat, before: map<nat, int>, ghost m: map<nat, int>)
    returns (ret: map<nat, int>)
    requires forall k: nat, v :: Holds(rec, k, v) ==> k in m && m[k] == v
    requires forall k :: k in before ==> from <= k < to && k in m && before[k] == m[k]
    ensures forall k :: k in ret ==> from <= k < to && k in m && ret[k] == m[k]
    ensures forall k :: k in before ==> k in ret
    ensures forall k: nat, v :: Holds(rec, k, v) && from <= k < to ==> k in ret
  {
    ret := before;
    for i := 0 to |rec|
      invariant forall k :: k in ret ==> from <= k < to && k in m && ret[k] == m[k]
      invariant forall k :: k in before ==> k in ret
      invariant forall u :: 0 <= u < i && rec[u].key != NULL_KEY && from <= rec[u].key < to ==> rec[u].key in ret
    {
      var e := rec[i];
      if e.key != NULL_KEY && e.key >= from && e.key < to {
        assert Holds(rec, e.key, e.value) by {
          assert rec[i] == Record(e.key, e.value);
        }
        ret := ret[e.key := e.value];
      }
    }
  }

  /** With no lock taken, a range query returns exactly the stored bindings
      with keys in [from, to). */
  method RangeQuery(w: Config, s: State, index: RolexCache.RolexCache, from: nat, to: nat, cache: Cache)
    returns (ret: map<nat, int>, seen: Cache)
    requires index.Valid() && |index.rolex.models| >= 2 && index.rolex.span == w.span
    requires Linked(w, index.rolex.View(), index.intKeys, index.rolex.epsilon)
    requires Inv(w, s) && CacheOk(s, cache) && forall h :: 0 <= h < w.count ==> s.locks[h] == FREE
    ensures ret == map k | k in s.contents && from <= k < to :: s.contents[k]
    ensures CacheOk(s, seen)
  {
    ghost var ix, keys, epsilon := index.rolex.View(), index.intKeys, index.rolex.epsilon;
    var l, r := index.SearchRangeFromCache(from, to);
    RangeInStore(ix, keys, epsilon, w.span, to);
    var nodes;
    nodes, seen := FetchNodes(w, s, l, r, cache);
    NodesAgree(w, s, l, r, nodes);
    ret := Collect(nodes, from, to, s.contents);
    RangeAnswer(w, s, l, r, nodes, from, to, ret);
  }

  lemma NodesAgree(w: Config, s: State, l: nat, r: nat, nodes: seq<seq<Record>>)
    requires Inv(w, s) && r < w.count && forall h :: 0 <= h < w.count ==> s.locks[h] == FREE
    requires forall rec :: rec in nodes <==> PartOfRange(w, s, l, r, rec)
    ensures forall j, k: nat, v :: 0 <= j < |nodes| && Holds(nodes[j], k, v) ==> k in s.contents && s.contents[k] == v
  {
    forall j, k: nat, v | 0 <= j < |nodes| && Holds(nodes[j], k, v)
      ensures k in s.contents && s.contents[k] == v
    {
      assert nodes[j] in nodes;
      var i :| l <= i <= r && PartOf(w, s, i, nodes[j]);
      SeenIsStored(w, s, i, nodes[j], k, v);
    }
  }

  lemma RangeAnswer(w: Config, s: State, l: nat, r: nat, nodes: seq<seq<Record>>,
                    from: nat, to: nat, ret: map<nat, int>)
    requires Inv(w, s) && r < w.count && forall h :: 0 <= h < w.count ==> s.locks[h] == FREE
    requires forall rec :: rec in nodes <==> PartOfRange(w, s, l, r, rec)
    requires forall k: nat :: from <= k < to && w.home(k) < w.count ==> l <= w.home(k) <= r
    requires forall k :: k in ret ==> from <= k < to && k in s.contents && ret[k] == s.contents[k]
    requires forall j, k: nat, v :: 0 <= j < |nodes| && Holds(nodes[j], k, v) && from <= k < to ==> k in ret
    ensures ret == map k | k in s.contents && from <= k < to :: s.contents[k]
  {
    forall k | k in s.contents && from <= k < to
      ensures k in ret
    {
      StoredIsSeen(w, s, k);
      var rec :| PartOf(w, s, w.home(k), rec) && Holds(rec, k, s.contents[k]);
      assert PartOfRange(w, s, l, r, rec) && rec in nodes;
      var j :| 0 <= j < |nodes| && nodes[j] == rec;
    }
  }
}
