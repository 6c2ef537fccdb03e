/** How a node is laid out in remote memory: its bytes in order, with one
    version byte in front of every line after the first. */
module Layout {
  import opened DivMod

  type Byte = b: nat | b < 256

  /** A version byte holds the node version in its low four bits and the entry
      version in its high four bits. */
  function NodeVersion(b: Byte): nat { b % 16 }

  function WithNodeVersion(b: Byte, v: nat): (r: Byte)
    requires v < 16
    ensures NodeVersion(r) == v && r / 16 == b / 16
  {
    b / 16 * 16 + v
  }

  function WithNextEntryVersion(b: Byte): (r: Byte)
    ensures NodeVersion(r) == NodeVersion(b) && r / 16 == (b / 16 + 1) % 16
  {
    (b / 16 + 1) % 16 * 16 + b % 16
  }

  /** Sizes in bytes of the metadata, of an entry and of a memory line, and the
      number of entries. The metadata and every entry start with their version. */
  datatype Layout = Layout(metaSize: nat, entrySize: nat, span: nat, line: nat) {

    predicate Valid() { metaSize > 0 && entrySize > 0 && span > 0 && line > 1 }

    function EntryAt(i: nat): nat { metaSize + i * entrySize }

    /** Size of a node without line versions. */
    function Size(): nat { EntryAt(span) }

    function Block(): int { line - 1 }

    /** Where the first embedded line version goes. */
    function First(): nat { if line < Size() then line else Size() }

    /** A line version stands in front of decoded byte j. */
    predicate Boundary(j: nat)
      requires Valid()
    {
      j >= First() && (j - First()) % Block() == 0
    }

    /** The encoded offset reached after the first j decoded bytes. */
    function Raw(j: nat): nat
      requires Valid()
    {
      if j <= First() then j else j + Ceiling(j - First(), Block())
    }

    /** The encoded offset of decoded byte j. */
    function Payload(j: nat): int
      requires Valid()
    {
      Raw(j + 1) - 1
    }

    /** The version that governs decoded byte j: that of the metadata or of the
        entry the byte belongs to. */
    function VersionOffset(j: nat): nat
      requires Valid()
    {
      if j < metaSize then 0 else EntryAt((j - metaSize) / entrySize)
    }

    /** The encoding of the decoded bytes s..e. */
    function Encoded(node: seq<Byte>, s: nat, e: nat): seq<Byte>
      requires Valid() && |node| == Size() && s <= e <= |node|
      decreases e - s
    {
      if s == e then [] else
        (VersionOffsetBound(s);
         if Boundary(s) then [node[VersionOffset(s)]] else []) + [node[s]] + Encoded(node, s + 1, e)
    }

    function Image(node: seq<Byte>): seq<Byte>
      requires Valid() && |node| == Size()
    {
      Encoded(node, 0, |node|)
    }

    lemma VersionOffsetBound(j: nat)
      requires Valid()
      ensures VersionOffset(j) <= j
    {
      if j >= metaSize {
        var d := j - metaSize;
        assert d == d / entrySize * entrySize + d % entrySize;
      }
    }

    // ---- lengths and positions --------------------------------------------

    lemma RawStep(j: nat)
      requires Valid()
      ensures Raw(j + 1) == Raw(j) + 1 + if Boundary(j) then 1 else 0
    {
      if j >= First() {
        CeilingStep(j - First(), Block());
      }
    }

    lemma BlockPositive()
      requires Valid()
      ensures Block() >= 1
    {
    }

    lemma RawZero()
      requires Valid()
      ensures Raw(0) == 0
    {
    }

    lemma {:induction false} RawMono(i: nat, j: nat)
      requires Valid() && i <= j
      ensures Raw(i) + (j - i) <= Raw(j)
      decreases j
    {
      if i < j {
        RawMono(i, j - 1);
        RawStep(j - 1);
      }
    }

    lemma {:induction false} EncodedLength(node: seq<Byte>, s: nat, e: nat)
      requires Valid() && |node| == Size() && s <= e <= |node|
      ensures Raw(s) <= Raw(e) && |Encoded(node, s, e)| == Raw(e) - Raw(s)
      decreases e - s
    {
      if s < e {
        RawStep(s);
        EncodedLength(node, s + 1, e);
      }
    }

    lemma {:induction false} EncodedSplit(node: seq<Byte>, s: nat, m: nat, e: nat)
      requires Valid() && |node| == Size() && s <= m <= e <= |node|
      ensures Encoded(node, s, e) == Encoded(node, s, m) + Encoded(node, m, e)
      decreases e - s
    {
      if s < m {
        EncodedSplit(node, s + 1, m, e);
      }
    }

    lemma {:induction false} EncodedSame(node: seq<Byte>, node': seq<Byte>, s: nat, e: nat)
      requires Valid() && |node| == |node'| == Size() && s <= e <= |node|
      requires forall j :: s <= j < e ==> node[j] == node'[j]
      requires forall j :: s <= j < e && Boundary(j) ==>
                 VersionOffset(j) < |node| && node[VersionOffset(j)] == node'[VersionOffset(j)]
      ensures Encoded(node, s, e) == Encoded(node', s, e)
      decreases e - s
    {
      if s < e {
        EncodedSame(node, node', s + 1, e);
      }
    }

    /** Where decoded byte j and, at a boundary, its line version end up. */
    lemma ImageAt(node: seq<Byte>, j: nat)
      requires Valid() && |node| == Size() && j < |node|
      ensures |Image(node)| == Raw(|node|) && Raw(j) <= Payload(j) < Raw(|node|)
      ensures Image(node)[Payload(j)] == node[j]
      ensures Boundary(j) ==> VersionOffset(j) < |node| && Image(node)[Raw(j)] == node[VersionOffset(j)]
    {
      EncodedLength(node, 0, |node|);
      EncodedLength(node, 0, j);
      EncodedLength(node, j + 1, |node|);
      EncodedSplit(node, 0, j, |node|);
      RawStep(j);
      VersionOffsetBound(j);
    }

    // ---- lines --------------------------------------------------------------

    lemma NextBoundary(i: nat, j: nat)
      requires Valid() && Boundary(i) && i < j <= i + Block()
      ensures Boundary(j) <==> j == i + Block()
    {
      var d, b := i - First(), Block();
      assert d == d / b * b;
      if j == i + b {
        assert d + b == (d / b + 1) * b;
        QuotientOf(d + b, b, d / b + 1, 0);
      } else {
        QuotientOf(j - First(), b, d / b, j - i);
      }
    }

    lemma FirstBoundary()
      requires Valid()
      ensures Boundary(First())
    {
    }

    lemma {:induction false} PlainRun(node: seq<Byte>, s: nat, e: nat)
      requires Valid() && |node| == Size() && s <= e <= |node|
      requires forall j :: s <= j < e ==> !Boundary(j)
      ensures Encoded(node, s, e) == node[s..e]
      decreases e - s
    {
      if s < e {
        PlainRun(node, s + 1, e);
        assert node[s..e] == [node[s]] + node[s + 1..e];
      }
    }

    /** A line is its version followed by its bytes. */
    lemma OneLine(node: seq<Byte>, i: nat, n: nat)
      requires Valid() && |node| == Size() && Boundary(i) && 0 < n <= Block() && i + n <= |node|
      ensures VersionOffset(i) < |node| && Encoded(node, i, i + n) == [node[VersionOffset(i)]] + node[i..i + n]
      ensures Raw(i + n) == Raw(i) + 1 + n
    {
      forall j | i + 1 <= j < i + n
        ensures !Boundary(j)
      {
        NextBoundary(i, j);
      }
      PlainRun(node, i + 1, i + n);
      VersionOffsetBound(i);
      assert node[i..i + n] == [node[i]] + node[i + 1..i + n];
      EncodedLength(node, i, i + n);
    }

    /** Within a line, payload bytes follow the version one by one. */
    lemma {:induction false} PayloadInLine(i: nat, k: nat)
      requires Valid() && Boundary(i) && k < Block()
      ensures Payload(i + k) == Raw(i) + 1 + k
      decreases k
    {
      RawStep(i + k);
      if k > 0 {
        PayloadInLine(i, k - 1);
        NextBoundary(i, i + k);
      }
    }

    lemma {:induction false} PayloadInFirst(k: nat)
      requires Valid() && k < First()
      ensures Payload(k) == k
    {
    }

    lemma FirstLine(node: seq<Byte>, e: nat)
      requires Valid() && |node| == Size() && e <= First()
      ensures Encoded(node, 0, e) == node[..e] && First() <= |node| && Raw(e) == e
    {
      PlainRun(node, 0, e);
    }

    // ---- entries ------------------------------------------------------------

    lemma EntryBound(i: nat)
      requires Valid() && i < span
      ensures metaSize <= EntryAt(i) < EntryAt(i) + entrySize == EntryAt(i + 1) <= Size()
    {
      MulMono(i + 1, span, entrySize);
    }

    /** Every byte is governed by the metadata version or an entry version. */
    lemma Governed(j: nat)
      requires Valid() && j < Size()
      ensures VersionOffset(j) == 0 || exists i :: 0 <= i < span && VersionOffset(j) == EntryAt(i)
    {
      if j >= metaSize {
        var d := j - metaSize;
        var i := d / entrySize;
        assert d == i * entrySize + d % entrySize;
        if i >= span {
          MulMono(span, i, entrySize);
          assert false;
        }
      }
    }

    /** Byte p is itself a version. */
    predicate IsVersion(p: nat)
      requires Valid()
    {
      VersionOffset(p) == p
    }

    /** The versions are the first bytes of the metadata and of the entries. */
    lemma VersionFields(i: nat, p: nat)
      requires Valid() && i < span && EntryAt(i) <= p < EntryAt(i + 1)
      ensures VersionOffset(p) == EntryAt(i) && (IsVersion(p) <==> p == EntryAt(i))
    {
      QuotientOf(p - metaSize, entrySize, i, p - EntryAt(i));
    }
  }
}
