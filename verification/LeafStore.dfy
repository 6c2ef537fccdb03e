/** A sorted leaf with its synonym leaf: what an insert, an update and a lookup
    do to the pair, as values. */
module LeafStore {
  import opened LeafSlots

  datatype Option<+T> = None | Some(value: T)

  datatype Record = Record(key: nat, value: int)

  const EMPTY := Record(NULL_KEY, 0)

  /** Keys strictly increase, and empty records come last. */
  ghost predicate Ordered(rec: seq<Record>) {
    forall i, j :: 0 <= i < j < |rec| && rec[j].key != NULL_KEY ==> NULL_KEY < rec[i].key < rec[j].key
  }

  ghost predicate HasKey(rec: seq<Record>, k: nat) {
    exists i :: 0 <= i < |rec| && rec[i].key == k
  }

  ghost predicate Holds(rec: seq<Record>, k: nat, v: int) {
    k != NULL_KEY && exists i :: 0 <= i < |rec| && rec[i] == Record(k, v)
  }

  // ---- one leaf -----------------------------------------------------------

  /** The first record from i on that holds k, a greater key or nothing. */
  function Find(rec: seq<Record>, k: nat, i: nat): (p: nat)
    requires i <= |rec|
    ensures i <= p <= |rec|
    ensures p < |rec| ==> rec[p].key == k || rec[p].key == NULL_KEY || rec[p].key > k
    ensures forall u :: i <= u < p ==> NULL_KEY < rec[u].key < k
    decreases |rec| - i
  {
    if i == |rec| || rec[i].key == k || rec[i].key == NULL_KEY || rec[i].key > k then i else Find(rec, k, i + 1)
  }

  function FirstNull(rec: seq<Record>, i: nat): (p: nat)
    requires i <= |rec|
    ensures i <= p <= |rec| && (p < |rec| ==> rec[p].key == NULL_KEY)
    ensures forall u :: i <= u < p ==> rec[u].key != NULL_KEY
    decreases |rec| - i
  {
    if i == |rec| || rec[i].key == NULL_KEY then i else FirstNull(rec, i + 1)
  }

  /** Find answers membership in an ordered leaf. */
  lemma FindDecides(rec: seq<Record>, k: nat)
    requires Ordered(rec) && k != NULL_KEY
    ensures HasKey(rec, k) <==> Find(rec, k, 0) < |rec| && rec[Find(rec, k, 0)].key == k
  {
  }

  /** Shifting in a fresh key at its place keeps the leaf ordered, whether it
      ends at an empty record or pushes the last record out. */
  lemma ShiftedOrdered(rec: seq<Record>, k: nat, v: int, j: nat)
    requires Ordered(rec) && k != NULL_KEY && !HasKey(rec, k)
    requires Find(rec, k, 0) <= j < |rec| && (rec[j].key == NULL_KEY || j == |rec| - 1)
    requires forall u :: Find(rec, k, 0) <= u < j ==> rec[u].key != NULL_KEY
    ensures Ordered(Shifted(rec, Find(rec, k, 0), j, Record(k, v)))
  {
    var i := Find(rec, k, 0);
    var out := Shifted(rec, i, j, Record(k, v));
    forall a, b | 0 <= a < b < |out| && out[b].key != NULL_KEY
      ensures NULL_KEY < out[a].key < out[b].key
    {
      ShiftedAt(rec, i, j, Record(k, v), a);
      ShiftedAt(rec, i, j, Record(k, v), b);
    }
  }

  lemma ShiftedHolds(rec: seq<Record>, i: nat, j: nat, x: Record)
    requires i <= j < |rec| && x.key != NULL_KEY
    ensures forall k: nat, v :: Holds(rec, k, v) ==> Holds(Shifted(rec, i, j, x), k, v) || Record(k, v) == rec[j]
    ensures forall k: nat, v :: Holds(Shifted(rec, i, j, x), k, v) ==> Holds(rec, k, v) || Record(k, v) == x
    ensures Holds(Shifted(rec, i, j, x), x.key, x.value)
  {
    var out := Shifted(rec, i, j, x);
    forall u | 0 <= u < |rec|
      ensures out[u] == if u < i then rec[u] else if u == i then x else if u <= j then rec[u - 1] else rec[u]
    {
      ShiftedAt(rec, i, j, x, u);
    }
    assert out[i] == Record(x.key, x.value);
    forall k: nat, v | Holds(rec, k, v)
      ensures Holds(out, k, v) || Record(k, v) == rec[j]
    {
      var u :| 0 <= u < |rec| && rec[u] == Record(k, v);
      assert u < i || u > j ==> out[u] == rec[u];
      assert i <= u < j ==> out[u + 1] == rec[u];
    }
  }

  // ---- the pair -----------------------------------------------------------

  datatype Pair = Pair(leaf: seq<Record>, syn: Option<seq<Record>>) {
    /** The synonym leaf's records; none while it has not been created. */
    function Synonyms(): seq<Record> { if syn.None? then [] else syn.value }
  }

  /** Both leaves are ordered, and whatever is in the synonym leaf is greater
      than all of a full leaf. */
  ghost predicate PairOk(p: Pair, span: nat) {
    && span > 0 && |p.leaf| == span && Ordered(p.leaf) && Ordered(p.Synonyms())
    && (p.syn.Some? ==> |p.syn.value| == span)
    && forall i, j :: 0 <= i < |p.leaf| && 0 <= j < |p.Synonyms()| && p.Synonyms()[j].key != NULL_KEY ==>
         NULL_KEY < p.leaf[i].key < p.Synonyms()[j].key
  }

  ghost predicate PairHolds(p: Pair, k: nat, v: int) {
    Holds(p.leaf, k, v) || Holds(p.Synonyms(), k, v)
  }

  ghost predicate PairHas(p: Pair, k: nat) {
    HasKey(p.leaf, k) || HasKey(p.Synonyms(), k)
  }

  /** A full synonym leaf that ends below the key is written past its end. */
  datatype SynonymResult = SynonymHasKey | SynonymOutOfBounds | Synonym(rec: seq<Record>)

  /** The synonym leaf can take k: it is still to be created, holds k already,
      or has an empty record. */
  predicate RoomFor(syn: Option<seq<Record>>, k: nat) {
    syn.None?
    || var i := Find(syn.value, k, 0);
       (i < |syn.value| && syn.value[i].key == k) || FirstNull(syn.value, i) < |syn.value|
  }

  /** Without room, the last record is overwritten. */
  function InsertSynonym(syn: Option<seq<Record>>, k: nat, v: int, span: nat): SynonymResult
    requires span > 0
  {
    if syn.None? then Synonym([Record(k, v)] + seq(span - 1, _ => EMPTY))
    else
      var i := Find(syn.value, k, 0);
      if i == |syn.value| then SynonymOutOfBounds
      else if syn.value[i].key == k then SynonymHasKey
      else
        var j := FirstNull(syn.value, i);
        Synonym(Shifted(syn.value, i, if j == |syn.value| then j - 1 else j, Record(k, v)))
  }

  datatype Result = KeyExists | OutOfBounds | Stored(pair: Pair, wroteLeaf: bool, wroteSynonym: bool)

  /** The key that an insert of k hands to the synonym leaf, if any. */
  function Overflow(p: Pair, k: nat, v: int): Option<Record> {
    var i := Find(p.leaf, k, 0);
    if i == |p.leaf| then Some(Record(k, v))
    else if p.leaf[i].key != k && FirstNull(p.leaf, i) == |p.leaf| then Some(p.leaf[|p.leaf| - 1])
    else None
  }

  predicate Room(p: Pair, k: nat, v: int) {
    Overflow(p, k, v).Some? ==> RoomFor(p.syn, Overflow(p, k, v).value.key)
  }

  /** Insert k: at its place in the leaf, pushing the last record into the
      synonym leaf when the leaf is full, or straight into the synonym leaf
      when k is greater than the whole leaf. */
  function Insert(p: Pair, k: nat, v: int): Result
    requires |p.leaf| > 0
  {
    var n := |p.leaf|;
    var i := Find(p.leaf, k, 0);
    if i == n then
      match InsertSynonym(p.syn, k, v, n)
      case SynonymHasKey => KeyExists
      case SynonymOutOfBounds => OutOfBounds
      case Synonym(rec) => Stored(Pair(p.leaf, Some(rec)), p.syn.None?, true)
    else if p.leaf[i].key == k then KeyExists
    else
      var j := FirstNull(p.leaf, i);
      if j < n then Stored(Pair(Shifted(p.leaf, i, j, Record(k, v)), p.syn), true, false)
      else
        var last := p.leaf[n - 1];
        match InsertSynonym(p.syn, last.key, last.value, n)
        case SynonymHasKey => KeyExists
        case SynonymOutOfBounds => OutOfBounds
        case Synonym(rec) => Stored(Pair(Shifted(p.leaf, i, n - 1, Record(k, v)), Some(rec)), true, true)
  }

  // ---- what an insert keeps and adds --------------------------------------

  /** The bindings of `out` are those of `rec` and k -> v. */
  ghost predicate Gains(rec: seq<Record>, out: seq<Record>, k: nat, v: int) {
    forall k': nat, v' :: Holds(out, k', v') <==> Holds(rec, k', v') || (k' == k && v' == v)
  }

  /** Every record is in use, and by a key below k. */
  ghost predicate FullBelow(rec: seq<Record>, k: nat) {
    forall i :: 0 <= i < |rec| ==> NULL_KEY < rec[i].key < k
  }

  /** A synonym insert runs past the end exactly if all records hold keys below
      k, and otherwise adds exactly k -> v if and only if there is room. */
  lemma SynonymStored(syn: Option<seq<Record>>, k: nat, v: int, span: nat)
    requires span > 0 && k != NULL_KEY
    requires syn.Some? ==> |syn.value| == span && Ordered(syn.value)
    ensures var rec := if syn.None? then [] else syn.value;
            var r := InsertSynonym(syn, k, v, span);
            && (r.SynonymHasKey? <==> HasKey(rec, k))
            && (r.SynonymOutOfBounds? <==> syn.Some? && FullBelow(syn.value, k))
            && (r.SynonymOutOfBounds? ==> !RoomFor(syn, k))
            && (r.Synonym? ==> |r.rec| == span && Ordered(r.rec) && (Gains(rec, r.rec, k, v) <==> RoomFor(syn, k)))
            && (r.Synonym? ==> forall i :: 0 <= i < span && r.rec[i].key != NULL_KEY ==>
                  r.rec[i].key == k || HasKey(rec, r.rec[i].key))
  {
    if syn.None? {
      NewSynonym(k, v, span);
    } else {
      var rec, i := syn.value, Find(syn.value, k, 0);
      FindDecides(rec, k);
      if i < span && !HasKey(rec, k) {
        hide Ordered, Gains, HasKey;
        SynonymShifted(rec, k, v, span);
      }
    }
  }

  /** A synonym leaf that the scan stays inside of, without k. */
  lemma SynonymShifted(rec: seq<Record>, k: nat, v: int, span: nat)
    requires k != NULL_KEY && |rec| == span && Ordered(rec) && Find(rec, k, 0) < span && !HasKey(rec, k)
    ensures var i := Find(rec, k, 0);
            var j := FirstNull(rec, i);
            var out := Shifted(rec, i, if j == span then span - 1 else j, Record(k, v));
            && Ordered(out) && (Gains(rec, out, k, v) <==> j < span)
            && forall u :: 0 <= u < span && out[u].key != NULL_KEY ==> out[u].key == k || HasKey(rec, out[u].key)
  {
    hide Shifted, Holds, HasKey;
    var i := Find(rec, k, 0);
    var j := FirstNull(rec, i);
    var j' := if j == span then span - 1 else j;
    ShiftedOrdered(rec, k, v, j');
    SynonymKeys(rec, k, v, i, j');
    if j == span {
      LastLost(rec, k, v, i);
    } else {
      ShiftedGains(rec, i, j, Record(k, v));
    }
  }

  lemma NewSynonym(k: nat, v: int, span: nat)
    requires span > 0 && k != NULL_KEY
    ensures var out := [Record(k, v)] + seq(span - 1, _ => EMPTY);
            Ordered(out) && Gains([], out, k, v) &&
            forall i :: 0 <= i < span && out[i].key != NULL_KEY ==> out[i].key == k
  {
    var out := [Record(k, v)] + seq(span - 1, _ => EMPTY);
    assert out[0] == Record(k, v) && forall i :: 1 <= i < |out| ==> out[i] == EMPTY;
  }

  lemma SynonymKeys(rec: seq<Record>, k: nat, v: int, i: nat, j: nat)
    requires i <= j < |rec|
    ensures var out := Shifted(rec, i, j, Record(k, v));
            forall u :: 0 <= u < |rec| && out[u].key != NULL_KEY ==> out[u].key == k || HasKey(rec, out[u].key)
  {
    var out := Shifted(rec, i, j, Record(k, v));
    forall u | 0 <= u < |rec|
      ensures out[u].key == k || HasKey(rec, out[u].key)
    {
      ShiftedAt(rec, i, j, Record(k, v), u);
    }
  }

  /** Shifting through a full leaf loses its last binding. */
  lemma LastLost(rec: seq<Record>, k: nat, v: int, i: nat)
    requires Ordered(rec) && i == Find(rec, k, 0) < |rec| && k != NULL_KEY && !HasKey(rec, k)
    requires FirstNull(rec, i) == |rec|
    ensures var out, last := Shifted(rec, i, |rec| - 1, Record(k, v)), rec[|rec| - 1];
            Holds(rec, last.key, last.value) && !Holds(out, last.key, last.value)
  {
    var n := |rec| - 1;
    var out, last := Shifted(rec, i, n, Record(k, v)), rec[n];
    assert last == Record(last.key, last.value);
    forall u | 0 <= u < |rec|
      ensures out[u].key != last.key
    {
      ShiftedAt(rec, i, n, Record(k, v), u);
    }
  }

  /** On the overflow path the pushed-out key is never already in the synonym
      leaf. */
  lemma OverflowIsFresh(p: Pair, span: nat)
    requires PairOk(p, span) && p.leaf[span - 1].key != NULL_KEY
    ensures !HasKey(p.Synonyms(), p.leaf[span - 1].key)
  {
  }

  lemma HoldsHasKey(rec: seq<Record>, k: nat)
    requires k != NULL_KEY
    ensures HasKey(rec, k) <==> exists v :: Holds(rec, k, v)
  {
    if HasKey(rec, k) {
      var i :| 0 <= i < |rec| && rec[i].key == k;
      assert rec[i] == Record(k, rec[i].value);
      assert Holds(rec, k, rec[i].value);
    }
  }

  /** The bindings of the pair `q` are those of p and k -> v. */
  ghost predicate PairGains(p: Pair, q: Pair, k: nat, v: int) {
    forall k': nat, v' :: PairHolds(q, k', v') <==> PairHolds(p, k', v') || (k' == k && v' == v)
  }

  /** What an insert guarantees: it refuses exactly the keys already there, it
      runs out of bounds exactly if both leaves are full of keys below k, it
      keeps the pair well-formed, and it adds exactly k -> v if and only if
      there is room. */
  ghost predicate InsertCorrect(p: Pair, k: nat, v: int, span: nat)
    requires |p.leaf| > 0
  {
    var r := Insert(p, k, v);
    && (r.KeyExists? <==> PairHas(p, k))
    && (r.OutOfBounds? <==> p.syn.Some? && FullBelow(p.leaf, k) && FullBelow(p.syn.value, k))
    && (r.OutOfBounds? ==> !Room(p, k, v))
    && (r.Stored? ==> PairOk(r.pair, span) && (PairGains(p, r.pair, k, v) <==> Room(p, k, v)))
  }

  lemma ShiftedGains(rec: seq<Record>, i: nat, j: nat, x: Record)
    requires i <= j < |rec| && x.key != NULL_KEY && rec[j].key == NULL_KEY
    ensures Gains(rec, Shifted(rec, i, j, x), x.key, x.value)
  {
    hide Shifted;
    ShiftedHolds(rec, i, j, x);
  }

  lemma GainsThroughLeaf(p: Pair, q: Pair, k: nat, v: int)
    requires q.syn == p.syn && Gains(p.leaf, q.leaf, k, v)
    ensures PairGains(p, q, k, v)
  {
    hide Holds;
  }

  lemma GainsThroughSynonym(p: Pair, q: Pair, k: nat, v: int)
    requires q.leaf == p.leaf && Gains(p.Synonyms(), q.Synonyms(), k, v)
    ensures PairGains(p, q, k, v)
  {
    hide Holds;
  }

  /** A key greater than the whole leaf. */
  lemma InsertPast(p: Pair, k: nat, v: int, span: nat)
    requires PairOk(p, span) && k != NULL_KEY && Find(p.leaf, k, 0) == span
    ensures InsertCorrect(p, k, v, span)
  {
    hide Holds, Gains, PairGains, Shifted, InsertSynonym, RoomFor;
    SynonymStored(p.syn, k, v, span);
    if Insert(p, k, v).Stored? {
      var q := Insert(p, k, v).pair;
      SynonymAbove(p, q, Record(k, v), span);
      if RoomFor(p.syn, k) {
        GainsThroughSynonym(p, q, k, v);
      } else {
        NoRoomLoses(p, q, k, v, Record(k, v), span);
      }
    }
  }

  /** The new synonym leaf stays above the leaf. */
  lemma SynonymAbove(p: Pair, q: Pair, x: Record, span: nat)
    requires PairOk(p, span) && x.key != NULL_KEY && !HasKey(p.Synonyms(), x.key)
    requires q.syn.Some? && InsertSynonym(p.syn, x.key, x.value, span) == Synonym(q.syn.value)
    requires |q.leaf| == span && forall i :: 0 <= i < span ==> NULL_KEY < q.leaf[i].key < x.key
    requires forall i, j :: 0 <= i < span && 0 <= j < |p.Synonyms()| && p.Synonyms()[j].key != NULL_KEY ==>
               q.leaf[i].key < p.Synonyms()[j].key
    ensures forall i, j :: 0 <= i < span && 0 <= j < |q.Synonyms()| && q.Synonyms()[j].key != NULL_KEY ==>
              NULL_KEY < q.leaf[i].key < q.Synonyms()[j].key
  {
    SynonymStored(p.syn, x.key, x.value, span);
    forall i, j | 0 <= i < span && 0 <= j < |q.Synonyms()| && q.Synonyms()[j].key != NULL_KEY
      ensures NULL_KEY < q.leaf[i].key < q.Synonyms()[j].key
    {
      if q.Synonyms()[j].key != x.key {
        var u :| 0 <= u < |p.Synonyms()| && p.Synonyms()[u].key == q.Synonyms()[j].key;
      }
    }
  }

  /** Without room the greatest synonym binding disappears from the pair. */
  lemma NoRoomLoses(p: Pair, q: Pair, k: nat, v: int, x: Record, span: nat)
    requires PairOk(p, span) && !RoomFor(p.syn, x.key) && x.key != NULL_KEY
    requires !HasKey(p.Synonyms(), x.key) && !HasKey(p.Synonyms(), k)
    requires q.syn.Some? && InsertSynonym(p.syn, x.key, x.value, span) == Synonym(q.syn.value)
    requires forall i :: 0 <= i < |q.leaf| && q.leaf[i].key != NULL_KEY ==>
               q.leaf[i].key == k || HasKey(p.leaf, q.leaf[i].key)
    ensures !PairGains(p, q, k, v)
  {
    var rec := p.syn.value;
    var last := rec[span - 1];
    SynonymLoses(rec, x, span);
    assert HasKey(rec, last.key);
    NotInLeaf(p, q, k, span);
    hide *;
    NotBoth(p, q, k, v, last);
  }

  lemma SynonymLoses(rec: seq<Record>, x: Record, span: nat)
    requires |rec| == span > 0 && Ordered(rec) && x.key != NULL_KEY && !HasKey(rec, x.key) && !RoomFor(Some(rec), x.key)
    requires InsertSynonym(Some(rec), x.key, x.value, span).Synonym?
    ensures var last, out := rec[span - 1], InsertSynonym(Some(rec), x.key, x.value, span).rec;
            last.key != NULL_KEY && Holds(rec, last.key, last.value) && !Holds(out, last.key, last.value)
  {
    LastLost(rec, x.key, x.value, Find(rec, x.key, 0));
  }

  lemma NotInLeaf(p: Pair, q: Pair, k: nat, span: nat)
    requires PairOk(p, span) && p.syn.Some? && p.syn.value[span - 1].key != NULL_KEY && k != p.syn.value[span - 1].key
    requires forall i :: 0 <= i < |q.leaf| && q.leaf[i].key != NULL_KEY ==>
               q.leaf[i].key == k || HasKey(p.leaf, q.leaf[i].key)
    ensures !HasKey(q.leaf, p.syn.value[span - 1].key)
  {
    assert !HasKey(p.leaf, p.syn.value[span - 1].key);
  }

  lemma NotBoth(p: Pair, q: Pair, k: nat, v: int, last: Record)
    requires p.syn.Some? && q.syn.Some? && last.key != NULL_KEY && k != last.key
    requires Holds(p.syn.value, last.key, last.value)
    requires !Holds(q.syn.value, last.key, last.value) && !HasKey(q.leaf, last.key)
    ensures !PairGains(p, q, k, v)
  {
    assert PairHolds(p, last.key, last.value) && !PairHolds(q, last.key, last.value);
  }

  /** A leaf with an empty record. */
  lemma InsertHere(p: Pair, k: nat, v: int, span: nat)
    requires PairOk(p, span) && k != NULL_KEY
    requires Find(p.leaf, k, 0) < span && FirstNull(p.leaf, Find(p.leaf, k, 0)) < span
    ensures InsertCorrect(p, k, v, span)
  {
    var i := Find(p.leaf, k, 0);
    var j := FirstNull(p.leaf, i);
    FindDecides(p.leaf, k);
    if p.leaf[i].key != k {
      hide Holds, Gains, PairGains, Shifted;
      ShiftedOrdered(p.leaf, k, v, j);
      ShiftedGains(p.leaf, i, j, Record(k, v));
      GainsThroughLeaf(p, Insert(p, k, v).pair, k, v);
    }
  }

  lemma TransferGains(p: Pair, q: Pair, k: nat, v: int, last: Record)
    requires forall k': nat, v' :: Holds(p.leaf, k', v') ==> Holds(q.leaf, k', v') || Record(k', v') == last
    requires forall k': nat, v' :: Holds(q.leaf, k', v') ==> Holds(p.leaf, k', v') || Record(k', v') == Record(k, v)
    requires Holds(q.leaf, k, v) && Holds(p.leaf, last.key, last.value)
    requires Gains(p.Synonyms(), q.Synonyms(), last.key, last.value)
    ensures PairGains(p, q, k, v)
  {
    hide Holds;
  }

  lemma PushedGains(p: Pair, q: Pair, k: nat, v: int, span: nat)
    requires PairOk(p, span) && k != NULL_KEY && |q.leaf| == span && Find(p.leaf, k, 0) < span
    requires q.leaf == Shifted(p.leaf, Find(p.leaf, k, 0), span - 1, Record(k, v))
    requires p.leaf[span - 1].key != NULL_KEY
    requires Gains(p.Synonyms(), q.Synonyms(), p.leaf[span - 1].key, p.leaf[span - 1].value)
    ensures PairGains(p, q, k, v)
  {
    var last := p.leaf[span - 1];
    assert Holds(p.leaf, last.key, last.value) by {
      assert last == Record(last.key, last.value);
    }
    hide Shifted, Holds, Gains, PairGains, Ordered;
    ShiftedHolds(p.leaf, Find(p.leaf, k, 0), span - 1, Record(k, v));
    TransferGains(p, q, k, v, last);
  }

  lemma PushedShape(p: Pair, k: nat, v: int, span: nat)
    requires PairOk(p, span) && k != NULL_KEY && !HasKey(p.leaf, k)
    requires Find(p.leaf, k, 0) < span == FirstNull(p.leaf, Find(p.leaf, k, 0))
    ensures var r, last := Insert(p, k, v), p.leaf[span - 1];
            && !HasKey(p.Synonyms(), k) && last.key != NULL_KEY
            && (Room(p, k, v) <==> RoomFor(p.syn, last.key))
            && r.Stored? && r.pair.leaf == Shifted(p.leaf, Find(p.leaf, k, 0), span - 1, Record(k, v))
            && r.pair.syn.Some? && InsertSynonym(p.syn, last.key, last.value, span) == Synonym(r.pair.syn.value)
  {
    var last := p.leaf[span - 1];
    FindDecides(p.leaf, k);
    SynonymStored(p.syn, last.key, last.value, span);
    OverflowIsFresh(p, span);
  }

  /** A full leaf pushes its last record out. */
  lemma InsertPushing(p: Pair, k: nat, v: int, span: nat)
    requires PairOk(p, span) && k != NULL_KEY
    requires Find(p.leaf, k, 0) < span == FirstNull(p.leaf, Find(p.leaf, k, 0))
    ensures InsertCorrect(p, k, v, span)
  {
    FindDecides(p.leaf, k);
    if !HasKey(p.leaf, k) {
      PushedShape(p, k, v, span);
      PushedOk(p, Insert(p, k, v).pair, k, v, span);
    }
  }

  lemma PushedOk(p: Pair, q: Pair, k: nat, v: int, span: nat)
    requires PairOk(p, span) && k != NULL_KEY && !HasKey(p.leaf, k) && !HasKey(p.Synonyms(), k)
    requires Find(p.leaf, k, 0) < span == FirstNull(p.leaf, Find(p.leaf, k, 0))
    requires p.leaf[span - 1].key != NULL_KEY
    requires q.leaf == Shifted(p.leaf, Find(p.leaf, k, 0), span - 1, Record(k, v)) && q.syn.Some?
    requires InsertSynonym(p.syn, p.leaf[span - 1].key, p.leaf[span - 1].value, span) == Synonym(q.syn.value)
    ensures PairOk(q, span) && (PairGains(p, q, k, v) <==> RoomFor(p.syn, p.leaf[span - 1].key))
  {
    hide Holds, Gains, PairGains, Shifted, InsertSynonym, RoomFor, Find;
    var last := p.leaf[span - 1];
    SynonymStored(p.syn, last.key, last.value, span);
    OverflowIsFresh(p, span);
    ShiftedOrdered(p.leaf, k, v, span - 1);
    PushedLeaf(p, k, v, span);
    SynonymAbove(p, q, last, span);
    if RoomFor(p.syn, last.key) {
      PushedGains(p, q, k, v, span);
    } else {
      NoRoomLoses(p, q, k, v, last, span);
    }
  }

  /** After pushing, the leaf holds only keys below the one pushed out. */
  lemma PushedLeaf(p: Pair, k: nat, v: int, span: nat)
    requires PairOk(p, span) && k != NULL_KEY && !HasKey(p.leaf, k)
    requires Find(p.leaf, k, 0) < span == FirstNull(p.leaf, Find(p.leaf, k, 0))
    ensures var out := Shifted(p.leaf, Find(p.leaf, k, 0), span - 1, Record(k, v));
            forall u :: 0 <= u < span ==>
              && NULL_KEY < out[u].key < p.leaf[span - 1].key
              && (out[u].key == k || HasKey(p.leaf, out[u].key))
  {
    var i := Find(p.leaf, k, 0);
    var out := Shifted(p.leaf, i, span - 1, Record(k, v));
    forall u | 0 <= u < span
      ensures NULL_KEY < out[u].key < p.leaf[span - 1].key
      ensures out[u].key == k || HasKey(p.leaf, out[u].key)
    {
      ShiftedAt(p.leaf, i, span - 1, Record(k, v), u);
    }
  }

  /** Both leaves exist and neither has an empty record. */
  ghost predicate PairFull(p: Pair) {
    p.syn.Some? && !HasKey(p.leaf, NULL_KEY) && !HasKey(p.syn.value, NULL_KEY)
  }

  lemma RoomForIs(rec: seq<Record>, k: nat)
    requires Ordered(rec) && k != NULL_KEY
    ensures RoomFor(Some(rec), k) <==> HasKey(rec, k) || HasKey(rec, NULL_KEY)
  {
    FindDecides(rec, k);
    var i := Find(rec, k, 0);
    assert FirstNull(rec, i) < |rec| ==> HasKey(rec, NULL_KEY);
    assert HasKey(rec, NULL_KEY) ==> FirstNull(rec, i) < |rec|;
  }

  /** A key is handed on exactly if the leaf lacks it and has no empty record. */
  lemma OverflowIs(p: Pair, k: nat, v: int)
    requires |p.leaf| > 0 && Ordered(p.leaf) && k != NULL_KEY
    ensures Overflow(p, k, v).None? <==> HasKey(p.leaf, k) || HasKey(p.leaf, NULL_KEY)
    ensures Overflow(p, k, v).Some? ==> Overflow(p, k, v).value.key != NULL_KEY
    ensures Overflow(p, k, v).Some? ==>
              Overflow(p, k, v).value.key == k || Overflow(p, k, v).value == p.leaf[|p.leaf| - 1]
  {
    FindDecides(p.leaf, k);
    RoomForIs(p.leaf, k);
  }

  /** There is room exactly for a key already there, or while a synonym leaf can
      be created or a record is empty. */
  lemma RoomIs(p: Pair, k: nat, v: int, span: nat)
    requires PairOk(p, span) && k != NULL_KEY
    ensures Room(p, k, v) <==> PairHas(p, k) || !PairFull(p)
  {
    hide Overflow, RoomFor, Find, FirstNull;
    OverflowIs(p, k, v);
    var o := Overflow(p, k, v);
    if o.Some? {
      RoomForSyn(p, o.value.key);
      if o.value.key != k {
        OverflowIsFresh(p, span);
        PushedIsBelow(p, k, v, span);
      }
    }
  }

  lemma RoomForSyn(p: Pair, k: nat)
    requires Ordered(p.Synonyms()) && k != NULL_KEY
    ensures RoomFor(p.syn, k) <==> p.syn.None? || HasKey(p.syn.value, k) || HasKey(p.syn.value, NULL_KEY)
  {
    if p.syn.Some? {
      RoomForIs(p.syn.value, k);
    }
  }

  /** A key that pushes another out of the leaf is not in the synonym leaf. */
  lemma PushedIsBelow(p: Pair, k: nat, v: int, span: nat)
    requires PairOk(p, span) && k != NULL_KEY && Overflow(p, k, v).Some? && Overflow(p, k, v).value.key != k
    ensures !HasKey(p.Synonyms(), k)
  {
  }

  /** An insert, on all its paths: k -> v is added, and nothing else changes,
      exactly if the key is new and the pair is not full. */
  lemma InsertIsCorrect(p: Pair, k: nat, v: int, span: nat)
    requires PairOk(p, span) && k != NULL_KEY
    ensures InsertCorrect(p, k, v, span)
    ensures var r := Insert(p, k, v);
            r.Stored? && PairGains(p, r.pair, k, v) <==> !PairHas(p, k) && !PairFull(p)
  {
    RoomIs(p, k, v, span);
    if Find(p.leaf, k, 0) == span {
      InsertPast(p, k, v, span);
    } else if FirstNull(p.leaf, Find(p.leaf, k, 0)) < span {
      InsertHere(p, k, v, span);
    } else {
      InsertPushing(p, k, v, span);
    }
  }

  /** Keys in the synonym leaf stay there, but for its last one when there is no
      room, and a leaf that is not written back has not changed. */
  lemma InsertMoves(p: Pair, k: nat, v: int, span: nat)
    requires PairOk(p, span) && k != NULL_KEY && Insert(p, k, v).Stored?
    ensures var r := Insert(p, k, v);
            && (forall k': nat :: HasKey(p.Synonyms(), k') && k' != NULL_KEY ==>
                  HasKey(r.pair.Synonyms(), k') || (!Room(p, k, v) && k' == p.Synonyms()[span - 1].key))
            && (p.syn.Some? ==> r.pair.syn.Some?)
            && (!r.wroteLeaf ==> r.pair.leaf == p.leaf && p.syn.Some?)
            && (r.wroteSynonym ==> r.pair.syn.Some?) && (!r.wroteSynonym ==> r.pair.syn == p.syn)
  {
    var o := Overflow(p, k, v);
    OverflowIs(p, k, v);
    if o.Some? {
      SynonymMoves(p.syn, o.value, span);
    }
  }

  /** Exactly what has changed is written: the leaf when its records or its
      pointer change, the synonym leaf when its records do. */
  lemma WritesChanged(p: Pair, k: nat, v: int)
    requires |p.leaf| > 0 && Insert(p, k, v).Stored? && (p.syn.Some? ==> |p.syn.value| > 0)
    ensures var r := Insert(p, k, v);
            && (r.wroteLeaf <==> r.pair.leaf != p.leaf || (p.syn.None? && r.pair.syn.Some?))
            && (r.wroteSynonym <==> r.pair.syn != p.syn)
  {
    hide Shifted, FirstNull;
    var i, n := Find(p.leaf, k, 0), |p.leaf|;
    if i < n {
      var j := FirstNull(p.leaf, i);
      ShiftedAt(p.leaf, i, if j < n then j else n - 1, Record(k, v), i);
    }
    if p.syn.Some? && Overflow(p, k, v).Some? {
      var o, rec := Overflow(p, k, v).value, p.syn.value;
      var u := Find(rec, o.key, 0);
      var j := FirstNull(rec, u);
      ShiftedAt(rec, u, if j == |rec| then j - 1 else j, Record(o.key, o.value), u);
    }
  }

  /** A key below the last one of a full leaf pushes that one out. */
  lemma PushedOut(p: Pair, k: nat, v: int, span: nat)
    requires PairOk(p, span) && NULL_KEY < k < p.leaf[span - 1].key && !PairHas(p, k) && Room(p, k, v)
    ensures var r, x := Insert(p, k, v), p.leaf[span - 1].key;
            && r.Stored? && r.wroteLeaf && r.wroteSynonym && r.pair.syn.Some?
            && PairHas(p, x) && !HasKey(r.pair.leaf, x) && !HasKey(p.Synonyms(), x)
  {
    var i, x := Find(p.leaf, k, 0), p.leaf[span - 1].key;
    assert i < span && p.leaf[i].key != k && FirstNull(p.leaf, i) == span;
    OverflowIsFresh(p, span);
    hide Shifted, Room, FirstNull, Find, Ordered;
    InsertIsCorrect(p, k, v, span);
    var out := Shifted(p.leaf, i, span - 1, Record(k, v));
    NotShifted(p.leaf, i, Record(k, v));
  }

  lemma NotShifted(rec: seq<Record>, i: nat, x: Record)
    requires Ordered(rec) && i < |rec| && rec[|rec| - 1].key != NULL_KEY && x.key != rec[|rec| - 1].key
    ensures !HasKey(Shifted(rec, i, |rec| - 1, x), rec[|rec| - 1].key)
  {
    hide Shifted;
    var n := |rec| - 1;
    forall u | 0 <= u < |rec|
      ensures Shifted(rec, i, n, x)[u].key != rec[n].key
    {
      ShiftedAt(rec, i, n, x, u);
    }
  }

  lemma SynonymMoves(syn: Option<seq<Record>>, x: Record, span: nat)
    requires span > 0 && x.key != NULL_KEY && (syn.Some? ==> |syn.value| == span && Ordered(syn.value))
    requires InsertSynonym(syn, x.key, x.value, span).Synonym?
    ensures forall k': nat :: syn.Some? && HasKey(syn.value, k') && k' != NULL_KEY ==>
              || HasKey(InsertSynonym(syn, x.key, x.value, span).rec, k')
              || (!RoomFor(syn, x.key) && k' == syn.value[span - 1].key)
  {
    SynonymStored(syn, x.key, x.value, span);
    if syn.Some? {
      if RoomFor(syn, x.key) {
        GainsKeys(syn.value, InsertSynonym(syn, x.key, x.value, span).rec, x.key, x.value);
      } else {
        KeysShifted(syn.value, Find(syn.value, x.key, 0), x);
      }
    }
  }

  /** Only the last key can be lost. */
  lemma KeysShifted(rec: seq<Record>, i: nat, x: Record)
    requires i < |rec| && x.key != NULL_KEY
    ensures forall k: nat :: HasKey(rec, k) && k != NULL_KEY ==>
              HasKey(Shifted(rec, i, |rec| - 1, x), k) || k == rec[|rec| - 1].key
  {
    ShiftedHolds(rec, i, |rec| - 1, x);
    forall k: nat | HasKey(rec, k) && k != NULL_KEY && k != rec[|rec| - 1].key
      ensures HasKey(Shifted(rec, i, |rec| - 1, x), k)
    {
      hide Shifted, Holds;
      HoldsHasKey(rec, k);
      HoldsHasKey(Shifted(rec, i, |rec| - 1, x), k);
    }
  }

  lemma FullPair()
    ensures var p := Pair([Record(1, 0)], Some([Record(3, 0)]));
            PairOk(p, 1) && PairFull(p) && forall k: nat :: PairHas(p, k) ==> k == 1 || k == 3
  {
  }

  /** Both failures happen. With one-record leaves holding 1 and 3, inserting 2
      loses 3. */
  lemma FullPairLoses()
    ensures var p := Pair([Record(1, 0)], Some([Record(3, 0)]));
            && PairOk(p, 1) && PairFull(p) && !PairHas(p, 2)
            && Insert(p, 2, 0) == Stored(Pair([Record(1, 0)], Some([Record(2, 0)])), false, true)
  {
    FullPair();
    hide PairOk, PairFull, PairHas;
    var leaf, syn := [Record(1, 0)], [Record(3, 0)];
    assert Find(leaf, 2, 0) == 1 && Find(syn, 2, 0) == 0 && FirstNull(syn, 0) == FirstNull(syn, 1) == 1;
    assert Shifted(syn, 0, 0, Record(2, 0)) == [Record(2, 0)];
  }

  /** Inserting 4 there writes past the synonym leaf. */
  lemma FullPairOverruns()
    ensures var p := Pair([Record(1, 0)], Some([Record(3, 0)]));
            PairOk(p, 1) && PairFull(p) && !PairHas(p, 4) && Insert(p, 4, 0) == OutOfBounds
  {
    FullPair();
    hide PairOk, PairFull, PairHas;
    var leaf, syn := [Record(1, 0)], [Record(3, 0)];
    assert Find(leaf, 4, 0) == 1 && Find(syn, 4, 0) == 1;
  }

  lemma GainsKeys(rec: seq<Record>, out: seq<Record>, k: nat, v: int)
    requires Gains(rec, out, k, v)
    ensures forall k': nat :: HasKey(rec, k') && k' != NULL_KEY ==> HasKey(out, k')
  {
    forall k': nat | HasKey(rec, k') && k' != NULL_KEY
      ensures HasKey(out, k')
    {
      HoldsHasKey(rec, k');
      var v' :| Holds(rec, k', v');
      assert Holds(out, k', v');
    }
  }

  lemma PairHoldsHas(p: Pair, k: nat)
    requires k != NULL_KEY
    ensures PairHas(p, k) <==> exists v :: PairHolds(p, k, v)
  {
    HoldsHasKey(p.leaf, k);
    HoldsHasKey(p.Synonyms(), k);
    if HasKey(p.leaf, k) {
      var v :| Holds(p.leaf, k, v);
      assert PairHolds(p, k, v);
    }
    if HasKey(p.Synonyms(), k) {
      var v :| Holds(p.Synonyms(), k, v);
      assert PairHolds(p, k, v);
    }
  }

  lemma PairGainsKeys(p: Pair, q: Pair, k: nat, v: int)
    requires PairGains(p, q, k, v) && k != NULL_KEY
    ensures forall k': nat :: k' != NULL_KEY ==> (PairHas(q, k') <==> PairHas(p, k') || k' == k)
  {
    forall k': nat | k' != NULL_KEY
      ensures PairHas(q, k') <==> PairHas(p, k') || k' == k
    {
      hide PairHas, PairHolds;
      PairHoldsHas(p, k');
      PairHoldsHas(q, k');
      assert PairHolds(q, k, v);
      if PairHas(p, k') {
        var v' :| PairHolds(p, k', v');
        assert PairHolds(q, k', v');
      }
      if PairHas(q, k') {
        var v' :| PairHolds(q, k', v');
        assert PairHolds(p, k', v') || k' == k;
      }
    }
  }
}
