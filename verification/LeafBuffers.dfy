/** The local part of insert, update and search: loops over the fetched leaf
    buffers, in place. */
module LeafBuffers {
  import opened LeafSlots
  import opened LeafStore

  method FindIndex(a: array<Record>, k: nat) returns (i: nat)
    ensures i == Find(a[..], k, 0)
  {
    i := 0;
    while i < a.Length
      invariant i <= a.Length && Find(a[..], k, 0) == Find(a[..], k, i)
    {
      if a[i].key == k || a[i].key == NULL_KEY || a[i].key > k {
        return;
      }
      i := i + 1;
    }
  }

  method FindNull(a: array<Record>, i: nat) returns (j: nat)
    requires i <= a.Length
    ensures j == FirstNull(a[..], i)
  {
    j := i;
    while j < a.Length && a[j].key != NULL_KEY
      invariant i <= j <= a.Length && FirstNull(a[..], i) == FirstNull(a[..], j)
    {
      j := j + 1;
    }
  }

  /** Move i..j up by one and put the record at i. */
  method ShiftIn(a: array<Record>, i: nat, j: nat, x: Record)
    requires i <= j < a.Length
    modifies a
    ensures a[..] == Shifted(old(a[..]), i, j, x)
  {
    ghost var was := a[..];
    var u: int := j - 1;
    while u >= i
      invariant i - 1 <= u <= j - 1
      invariant forall p :: u + 1 < p <= j ==> a[p] == was[p - 1]
      invariant forall p :: 0 <= p <= u + 1 || j < p < a.Length ==> a[p] == was[p]
    {
      a[u + 1] := a[u];
      u := u - 1;
    }
    a[i] := x;
    forall p | 0 <= p < a.Length
      ensures a[p] == Shifted(was, i, j, x)[p]
    {
      ShiftedAt(was, i, j, x, p);
    }
  }

  ghost function SynonymOf(syn: array?<Record>): Option<seq<Record>>
    reads syn
  {
    if syn == null then None else Some(syn[..])
  }

  /** How the local part of an insert ends: the key was there, the scan ran past
      the synonym leaf, where the program would write outside it, or done. */
  datatype Ending = Present | Overrun | Done

  /** Insert into the synonym leaf buffer, making one when there is none. */
  method InsertIntoSynonym(syn: array?<Record>, k: nat, v: int, span: nat) returns (e: Ending, out: array?<Record>)
    requires span > 0
    modifies syn
    ensures var r := InsertSynonym(old(SynonymOf(syn)), k, v, span);
            && (e == Present <==> r.SynonymHasKey?) && (e == Overrun <==> r.SynonymOutOfBounds?)
            && (e == Done ==> out != null && r == Synonym(out[..]))
    ensures e != Done ==> out == syn && SynonymOf(syn) == old(SynonymOf(syn))
    ensures syn != null ==> out == syn
    ensures syn == null ==> out != null && fresh(out)
  {
    if syn == null {
      out := new Record[span](_ => EMPTY);
      out[0] := Record(k, v);
      assert out[..] == [Record(k, v)] + seq(span - 1, _ => EMPTY);
      return Done, out;
    }
    out := syn;
    var i := FindIndex(syn, k);
    if i == syn.Length {
      return Overrun, syn;
    }
    if syn[i].key == k {
      return Present, syn;
    }
    var j := FindNull(syn, i);
    if j == syn.Length {
      j := j - 1;
    }
    ShiftIn(syn, i, j, Record(k, v));
    e := Done;
  }

  /** The leaf buffers after the local part of an insert, and which of them
      have to be written back. */
  method InsertLocally(leaf: array<Record>, syn: array?<Record>, k: nat, v: int)
    returns (e: Ending, out: array?<Record>, writeLeaf: bool, writeSynonym: bool)
    requires leaf.Length > 0 && leaf != syn
    modifies leaf, syn
    ensures var r := Insert(old(Pair(leaf[..], SynonymOf(syn))), k, v);
            && (e == Present <==> r.KeyExists?) && (e == Overrun <==> r.OutOfBounds?)
            && (e == Done ==> r == Stored(Pair(leaf[..], SynonymOf(out)), writeLeaf, writeSynonym))
  {
    hide Find, FirstNull, Shifted, InsertSynonym;
    out, writeLeaf, writeSynonym := syn, false, false;
    var n := leaf.Length;
    var i := FindIndex(leaf, k);
    if i == n {
      writeSynonym := true;
      e, out := InsertIntoSynonym(syn, k, v, n);
      writeLeaf := syn == null;
      return;
    }
    if leaf[i].key == k {
      return Present, out, false, false;
    }
    writeLeaf := true;
    var j := FindNull(leaf, i);
    e := Done;
    if j == n {
      writeSynonym := true;
      var last := leaf[j - 1];
      e, out := InsertIntoSynonym(syn, last.key, last.value, n);
      if e != Done {
        return;
      }
      j := n - 1;
    }
    ShiftIn(leaf, i, j, Record(k, v));
  }

  /** Replace the value of k where it is found. */
  method UpdateLocally(a: array<Record>, k: nat, v: int) returns (found: bool)
    requires k != NULL_KEY
    modifies a
    ensures found <==> HasKey(old(a[..]), k)
    ensures !found ==> a[..] == old(a[..])
    ensures found ==> exists i :: 0 <= i < a.Length && old(a[i].key) == k && a[..] == old(a[..])[i := Record(k, v)]
  {
    for i := 0 to a.Length
      invariant a[..] == old(a[..]) && forall u :: 0 <= u < i ==> a[u].key != k
    {
      if a[i].key == k {
        a[i] := Record(k, v);
        return true;
      }
    }
    return false;
  }
}
