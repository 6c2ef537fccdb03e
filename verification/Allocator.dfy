/** The two-level allocator of remote memory for synonym leaves: chunks handed
    out by the memory node, blocks carved from them by each thread. */
module Allocator {
  import opened DivMod
  import opened BranchlessSearch

  const CHUNK: nat := 0x100_0000

  datatype Address = Address(node: nat, offset: nat)

  const NULL := Address(0, 0)

  datatype Block = Block(addr: Address, size: nat)

  // ---- alignment ----------------------------------------------------------

  /** The least multiple of 2^n from x on. */
  function RoundUp(x: nat, n: nat): (r: nat)
    ensures x <= r < x + Pow2(n) && r % Pow2(n) == 0
  {
    RoundedUp(x, Pow2(n));
    (x + Pow2(n) - 1) / Pow2(n) * Pow2(n)
  }

  lemma RoundedUp(x: nat, p: nat)
    requires p > 0
    ensures var r := (x + p - 1) / p * p; x <= r < x + p && r % p == 0
  {
    var q := (x + p - 1) / p;
    assert x + p - 1 == q * p + (x + p - 1) % p;
    QuotientOf(q * p, p, q, 0);
  }

  lemma OneMultiple(x: int, p: int, r: int, t: int)
    requires p > 0 && x <= r < x + p && x <= t < x + p && r % p == 0 && t % p == 0
    ensures r == t
  {
    var a, b := r / p, t / p;
    assert r == a * p && t == b * p;
    if a < b {
      MulMono(a + 1, b, p);
    } else if b < a {
      MulMono(b + 1, a, p);
    }
  }

  lemma {:induction false} Pow2Divides(n: nat, m: nat)
    requires n <= m
    ensures Pow2(m) % Pow2(n) == 0
  {
    if n < m {
      Pow2Divides(n, m - 1);
      var q := Pow2(m - 1) / Pow2(n);
      assert Pow2(m) == (2 * q) * Pow2(n) + 0;
      QuotientOf(Pow2(m), Pow2(n), 2 * q, 0);
    } else {
      QuotientOf(Pow2(m), Pow2(n), 1, 0);
    }
  }

  lemma ChunkIsPow2()
    ensures Pow2(24) == CHUNK
  {
    assert Pow2(6) == 0x40;
    assert Pow2(12) == 0x1000;
    assert Pow2(18) == 0x4_0000;
  }

  /** Shifting by whole chunks shifts the rounding. */
  lemma RoundUpShifted(x: nat, k: nat, n: nat)
    requires n <= 24
    ensures RoundUp(x + CHUNK * k, n) == RoundUp(x, n) + CHUNK * k
  {
    hide Pow2, RoundUp;
    var p := Pow2(n);
    ChunkIsPow2();
    Pow2Divides(n, 24);
    StillMultiple(RoundUp(x, n), CHUNK, k, p);
    OneMultiple(x + CHUNK * k, p, RoundUp(x + CHUNK * k, n), RoundUp(x, n) + CHUNK * k);
  }

  lemma StillMultiple(a: nat, c: nat, k: nat, p: nat)
    requires p > 0 && a % p == 0 && c % p == 0
    ensures (a + c * k) % p == 0
  {
    var r, q := a / p, c / p;
    assert a == r * p && c == q * p;
    assert a + c * k == (r + q * k) * p + 0;
    QuotientOf(a + c * k, p, r + q * k, 0);
  }

  // ---- one thread's blocks ------------------------------------------------

  /** The chunk in use, the next byte in it, and the blocks given back. */
  datatype Local = Local(head: Address, cur: Address, free: seq<Block>)

  const NEW_LOCAL := Local(NULL, NULL, [])

  /** The first free block from i on that is large enough. */
  function FirstFit(free: seq<Block>, size: nat, i: nat): (p: nat)
    requires i <= |free|
    ensures i <= p <= |free| && (p < |free| ==> free[p].size >= size)
    ensures forall u :: i <= u < p ==> free[u].size < size
    decreases |free| - i
  {
    if i == |free| || free[i].size >= size then i else FirstFit(free, size, i + 1)
  }

  datatype Answer = Answer(local: Local, res: Address, needChunk: bool)

  function Aligned(a: Address, align: nat): Address {
    if align == 0 then a else Address(a.node, RoundUp(a.offset, align))
  }

  /** The block starts at the aligned next byte if the chunk has room, or is
      the first free block that is large enough; else a chunk is needed. */
  function Malloc(l: Local, size: nat, align: nat): Answer {
    var c := Aligned(l.cur, align);
    if l.head != NULL && c.offset + size <= l.head.offset + CHUNK then
      Answer(l.(cur := Address(c.node, c.offset + size)), c, false)
    else
      var i := FirstFit(l.free, size, 0);
      if i < |l.free| then Answer(l.(cur := c, free := l.free[..i] + l.free[i + 1..]), l.free[i].addr, false)
      else Answer(l.(cur := c), c, true)
  }

  /** `size` bytes from offset o on are aligned and lie in the rest of the chunk. */
  ghost predicate RoomAt(l: Local, size: nat, align: nat, o: nat) {
    l.head != NULL && l.cur.offset <= o && o % Pow2(align) == 0 && o + size <= l.head.offset + CHUNK
  }

  ghost predicate NoRoom(l: Local, size: nat, align: nat) {
    forall o: nat :: !RoomAt(l, size, align, o)
  }

  lemma AlignedIs(a: Address, align: nat)
    ensures var c := Aligned(a, align);
            c.node == a.node && a.offset <= c.offset < a.offset + Pow2(align) && c.offset % Pow2(align) == 0
  {
    if align == 0 {
      QuotientOf(a.offset, 1, a.offset, 0);
    }
  }

  /** No aligned offset is skipped. */
  lemma LeastMultiple(x: int, p: int, r: int, o: int)
    requires p > 0 && x <= r < x + p && r % p == 0 && o % p == 0 && x <= o
    ensures r <= o
  {
    var a, b := r / p, o / p;
    assert r == a * p && o == b * p;
    if b < a {
      MulMono(b + 1, a, p);
    }
  }

  /** The block is the first aligned stretch of the chunk's rest if there is one,
      or the first free block that is large enough, and a chunk is asked for
      exactly if there is neither. */
  lemma MallocAnswers(l: Local, size: nat, align: nat)
    ensures var x := Malloc(l, size, align);
            && (x.needChunk <==> NoRoom(l, size, align) && forall b :: b in l.free ==> b.size < size)
            && (!NoRoom(l, size, align) ==>
                  && RoomAt(l, size, align, x.res.offset) && x.res.node == l.cur.node
                  && x.res.offset < l.cur.offset + Pow2(align)
                  && x.local == l.(cur := Address(l.cur.node, x.res.offset + size)))
            && (!x.needChunk && NoRoom(l, size, align) ==> FirstBlock(l.free, x.local.free, size, x.res))
            && (x.needChunk ==> x.local.free == l.free)
            && x.local.head == l.head
  {
    hide Pow2, FirstFit;
    var c, x := Aligned(l.cur, align), Malloc(l, size, align);
    AlignedIs(l.cur, align);
    hide Aligned;
    forall o: nat | RoomAt(l, size, align, o)
      ensures c.offset <= o && RoomAt(l, size, align, c.offset)
    {
      LeastMultiple(l.cur.offset, Pow2(align), c.offset, o);
    }
    if NoRoom(l, size, align) {
      assert !RoomAt(l, size, align, c.offset);
      var i := FirstFit(l.free, size, 0);
      if i < |l.free| {
        assert l.free[i] in l.free && RemovedAt(l.free, x.local.free, size, x.res, i);
      }
    }
  }

  /** Block i, the first of at least `size` bytes, was taken from the list. */
  ghost predicate RemovedAt(free: seq<Block>, rest: seq<Block>, size: nat, a: Address, i: nat) {
    && i < |free| && free[i].addr == a && free[i].size >= size
    && (forall u :: 0 <= u < i ==> free[u].size < size) && rest == free[..i] + free[i + 1..]
  }

  ghost predicate FirstBlock(free: seq<Block>, rest: seq<Block>, size: nat, a: Address) {
    exists i: nat :: RemovedAt(free, rest, size, a, i)
  }

  /** A block taken from the free list keeps the alignment it was carved with,
      whatever the new request asks for. */
  lemma ReusedUnaligned()
    ensures var l := Local(Address(1, CHUNK), Address(1, 2 * CHUNK), [Block(Address(1, CHUNK + 100), 100)]);
            var x := Malloc(l, 50, 6);
            !x.needChunk && x.res == Address(1, CHUNK + 100) && x.res.offset % Pow2(6) != 0
  {
    var l := Local(Address(1, CHUNK), Address(1, 2 * CHUNK), [Block(Address(1, CHUNK + 100), 100)]);
    assert Pow2(6) == 64;
    AlignedIs(l.cur, 6);
    assert FirstFit(l.free, 50, 0) == 0;
  }

  /** A request fits a chunk of a directory that starts at `start`. */
  predicate Fits(start: nat, size: nat, align: nat) {
    Aligned(Address(0, start), align).offset + size <= start + CHUNK
  }

  /** After a new chunk, the retry succeeds exactly if the request fits one;
      otherwise the address it returns does not lie inside the chunk. */
  lemma RetrySucceeds(start: nat, k: nat, node: nat, free: seq<Block>, size: nat, align: nat)
    requires start + CHUNK * k > 0 && align <= 24 && FirstFit(free, size, 0) == |free|
    ensures var chunk := Address(node, start + CHUNK * k);
            var x := Malloc(Local(chunk, chunk, free), size, align);
            && (x.needChunk <==> !Fits(start, size, align))
            && (x.needChunk <==> x.res.offset + size > chunk.offset + CHUNK)
  {
    if align > 0 {
      RoundUpShifted(start, k, align);
    }
  }

  class LocalAllocator {
    var head: Address
    var cur: Address
    var freeList: seq<Block>

    function View(): Local
      reads this
    {
      Local(head, cur, freeList)
    }

    constructor ()
      ensures View() == NEW_LOCAL
    {
      head, cur, freeList := NULL, NULL, [];
    }

    method Alloc(size: nat, align: nat) returns (res: Address, needChunk: bool)
      modifies this
      ensures Answer(View(), res, needChunk) == Malloc(old(View()), size, align)
      ensures !needChunk && freeList == old(freeList) ==>
                && res.offset % Pow2(align) == 0 && old(cur.offset) <= res.offset < old(cur.offset) + Pow2(align)
                && res.offset + size <= head.offset + CHUNK && cur == Address(res.node, res.offset + size)
    {
      hide Pow2, RoundUp;
      AlignedIs(cur, align);
      if align != 0 {
        cur := Address(cur.node, RoundUp(cur.offset, align));
      }
      res := cur;
      if head == NULL || cur.offset + size > head.offset + CHUNK {
        needChunk := true;
      } else {
        needChunk := false;
        cur := Address(cur.node, cur.offset + size);
      }
      if needChunk {
        for i := 0 to |freeList|
          invariant needChunk && res == cur && freeList == old(freeList) && unchanged(`head)
          invariant cur == Aligned(old(cur), align)
          invariant FirstFit(freeList, size, 0) == FirstFit(freeList, size, i)
        {
          if freeList[i].size >= size {
            res := freeList[i].addr;
            freeList := freeList[..i] + freeList[i + 1..];
            needChunk := false;
            break;
          }
        }
      }
    }

    method SetChunk(addr: Address)
      modifies this
      ensures View() == Local(addr, addr, old(freeList))
    {
      head, cur := addr, addr;
    }

    method Free(addr: Address, size: nat)
      modifies this
      ensures View() == old(View()).(free := old(freeList) + [Block(addr, size)])
    {
      freeList := freeList + [Block(addr, size)];
    }
  }

  // ---- chunks -------------------------------------------------------------

  /** Hands out the chunks of one directory in order; the first is never used. */
  class GlobalAllocator {
    const start: Address
    const bitmapLen: nat
    var bitmap: array<bool>
    var bitmapTail: nat

    ghost predicate Valid()
      reads this, bitmap
    {
      && bitmap.Length == bitmapLen && 1 <= bitmapTail <= bitmapLen
      && forall i :: 0 <= i < bitmapLen ==> (bitmap[i] <==> i < bitmapTail)
    }

    constructor (start: Address, size: nat)
      requires size >= CHUNK
      ensures Valid() && fresh(bitmap) && this.start == start
      ensures bitmapLen == size / CHUNK && bitmapTail == 1
    {
      this.start := start;
      bitmapLen := size / CHUNK;
      bitmap := new bool[size / CHUNK](_ => false);
      bitmapTail := 1;
      new;
      bitmap[0] := true;
    }

    /** Fails only when the space has run out: a chunk at the tail is never
        in use already. */
    method AllocChunk() returns (ok: bool, res: Address)
      requires Valid()
      modifies this, bitmap
      ensures Valid() && bitmap == old(bitmap)
      ensures ok <==> old(bitmapTail) < bitmapLen
      ensures ok ==> res == Address(start.node, start.offset + old(bitmapTail) * CHUNK)
      ensures ok ==> bitmapTail == old(bitmapTail) + 1
      ensures !ok ==> bitmapTail == old(bitmapTail)
    {
      res := start;
      if bitmapTail >= bitmapLen {
        return false, res;
      }
      if !bitmap[bitmapTail] {
        bitmap[bitmapTail] := true;
        res := Address(res.node, res.offset + bitmapTail * CHUNK);
        bitmapTail := bitmapTail + 1;
        return true, res;
      } else {
        assert false;
      }
    }
  }
}
