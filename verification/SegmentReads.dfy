/** Reading only the entries of a segment: stripping their line versions, and
    what the decoder's answer means. */
module SegmentReads {
  import opened DivMod
  import opened Layout
  import opened CodecBuffers
  import opened CodecSegments

  /** A segment of whole entries that lies in the node, and its encoded bytes. */
  ghost predicate IsSegment(g: Layout, start: nat, num: nat, enc: seq<Byte>) {
    && g.Valid() && num > 0 && start + num <= g.span
    && g.EntryAt(start) + g.entrySize * num == g.EntryAt(start + num) <= g.Size()
    && |enc| == g.Raw(g.EntryAt(start + num)) - g.Raw(g.EntryAt(start))
  }

  /** The entries without the line versions among them. */
  ghost function Decoded(g: Layout, start: nat, num: nat, enc: seq<Byte>): (seg: seq<Byte>)
    requires IsSegment(g, start, num, enc)
    ensures |seg| == g.entrySize * num
    ensures forall i :: 0 <= i < |seg| ==>
              0 <= PayloadOf(g, start, i) < |enc| && seg[i] == enc[PayloadOf(g, start, i)]
  {
    PayloadsInside(g, start, num, enc);
    seq(g.entrySize * num, i requires 0 <= i < g.entrySize * num => enc[PayloadOf(g, start, i)])
  }

  /** Where byte i of the segment is in its encoding. */
  function PayloadOf(g: Layout, start: nat, i: nat): int
    requires g.Valid()
  {
    g.Payload(g.EntryAt(start) + i) - g.Raw(g.EntryAt(start))
  }

  /** Where a line version in front of byte i of the segment is. */
  function LineAt(g: Layout, start: nat, i: nat): int
    requires g.Valid()
  {
    g.Raw(g.EntryAt(start) + i) - g.Raw(g.EntryAt(start))
  }

  lemma PayloadsInside(g: Layout, start: nat, num: nat, enc: seq<Byte>)
    requires IsSegment(g, start, num, enc)
    ensures forall i :: 0 <= i < g.entrySize * num ==> 0 <= PayloadOf(g, start, i) < |enc|
  {
    var s := g.EntryAt(start);
    forall i | 0 <= i < g.entrySize * num
      ensures 0 <= PayloadOf(g, start, i) < |enc|
    {
      g.RawMono(s, s + i + 1);
      g.RawMono(s + i + 1, g.EntryAt(start + num));
    }
  }

  /** The line versions in front of the first e bytes are those of the entries
      that the lines start in. */
  ghost predicate SegmentLinesMatch(g: Layout, start: nat, num: nat, enc: seq<Byte>, e: nat)
    requires IsSegment(g, start, num, enc) && e <= g.entrySize * num
  {
    forall i :: 0 <= i < e ==> SegmentLineMatches(g, start, num, enc, i)
  }

  ghost predicate SegmentLineMatches(g: Layout, start: nat, num: nat, enc: seq<Byte>, i: nat)
    requires IsSegment(g, start, num, enc) && i < g.entrySize * num
  {
    g.Boundary(g.EntryAt(start) + i) ==>
      && 0 <= LineAt(g, start, i) < |enc| && 0 <= EntryStart(g, i) <= i
      && enc[LineAt(g, start, i)] == Decoded(g, start, num, enc)[EntryStart(g, i)]
  }

  /** All entries carry the node version of the first. */
  ghost predicate EntriesAgree(g: Layout, num: nat, seg: seq<Byte>)
    requires g.Valid() && num > 0 && |seg| == g.entrySize * num
  {
    forall i :: 0 <= i < num ==> Relative(g, i) < |seg| && NodeVersion(seg[Relative(g, i)]) == NodeVersion(seg[0])
  }

  ghost predicate SegmentAccepted(g: Layout, start: nat, num: nat, enc: seq<Byte>)
    requires IsSegment(g, start, num, enc)
  {
    SegmentLinesMatch(g, start, num, enc, g.entrySize * num) && EntriesAgree(g, num, Decoded(g, start, num, enc))
  }

  // ---- round trip ---------------------------------------------------------

  lemma WholeSegment(g: Layout, node: seq<Byte>, start: nat, num: nat)
    requires g.Valid() && |node| == g.Size() && num > 0 && start + num <= g.span
    ensures g.EntryAt(start) <= g.EntryAt(start + num) <= |node|
    ensures IsSegment(g, start, num, g.Encoded(node, g.EntryAt(start), g.EntryAt(start + num)))
  {
    MulMono(start, start + num, g.entrySize);
    MulMono(start + num, g.span, g.entrySize);
    g.EncodedLength(node, g.EntryAt(start), g.EntryAt(start + num));
  }

  /** The encoding of a segment is the part of the image it stands in. */
  lemma SegmentAt(g: Layout, node: seq<Byte>, s: nat, e: nat, x: nat)
    requires g.Valid() && |node| == g.Size() && s <= e <= |node| && g.Raw(s) <= x < g.Raw(e)
    ensures |g.Encoded(node, s, e)| == g.Raw(e) - g.Raw(s) && x < |g.Image(node)|
    ensures g.Encoded(node, s, e)[x - g.Raw(s)] == g.Image(node)[x]
  {
    hide Layout.Encoded, Layout.Raw;
    g.RawZero();
    g.EncodedLength(node, 0, s);
    g.EncodedLength(node, s, e);
    g.EncodedLength(node, e, |node|);
    g.EncodedSplit(node, 0, s, |node|);
    g.EncodedSplit(node, s, e, |node|);
  }

  lemma SegmentByte(g: Layout, node: seq<Byte>, start: nat, num: nat, i: nat)
    requires g.Valid() && |node| == g.Size() && num > 0 && start + num <= g.span && i < g.entrySize * num
    requires IsSegment(g, start, num, g.Encoded(node, g.EntryAt(start), g.EntryAt(start + num)))
    ensures var enc := g.Encoded(node, g.EntryAt(start), g.EntryAt(start + num));
            && Decoded(g, start, num, enc)[i] == node[g.EntryAt(start) + i]
            && (g.Boundary(g.EntryAt(start) + i) ==>
                  && 0 <= LineAt(g, start, i) < |enc| && g.VersionOffset(g.EntryAt(start) + i) < |node|
                  && enc[LineAt(g, start, i)] == node[g.VersionOffset(g.EntryAt(start) + i)])
  {
    hide Layout.Raw, Layout.Encoded, Layout.Image, Layout.Boundary, Layout.VersionOffset, Layout.EntryAt;
    var s, e := g.EntryAt(start), g.EntryAt(start + num);
    PayloadsInside(g, start, num, g.Encoded(node, s, e));
    assert 0 <= PayloadOf(g, start, i) < |g.Encoded(node, s, e)|;
    g.ImageAt(node, s + i);
    SegmentAt(g, node, s, e, g.Payload(s + i));
    g.RawMono(s, s + i);
    SegmentAt(g, node, s, e, g.Raw(s + i));
  }

  /** Decoding the encoding of a segment gives back its entries, and it is
      accepted exactly if their node versions agree. */
  lemma SegmentBack(g: Layout, node: seq<Byte>, start: nat, num: nat)
    requires g.Valid() && |node| == g.Size() && num > 0 && start + num <= g.span
    ensures g.EntryAt(start) <= g.EntryAt(start + num) <= |node|
    ensures var enc := g.Encoded(node, g.EntryAt(start), g.EntryAt(start + num));
            var seg := node[g.EntryAt(start)..g.EntryAt(start + num)];
            && IsSegment(g, start, num, enc) && Decoded(g, start, num, enc) == seg
            && (SegmentAccepted(g, start, num, enc) <==> EntriesAgree(g, num, seg))
  {
    hide Layout.Encoded, Layout.Raw, Layout.Boundary, Layout.VersionOffset, EntriesAgree, Decoded, LineAt, EntryStart;
    WholeSegment(g, node, start, num);
    var s, e := g.EntryAt(start), g.EntryAt(start + num);
    var enc := g.Encoded(node, s, e);
    forall i | 0 <= i < g.entrySize * num
      ensures Decoded(g, start, num, enc)[i] == node[s + i]
    {
      SegmentByte(g, node, start, num, i);
    }
    assert Decoded(g, start, num, enc) == node[s..e];
    forall i | 0 <= i < g.entrySize * num
      ensures SegmentLineMatches(g, start, num, enc, i)
    {
      SegmentByte(g, node, start, num, i);
      SegmentVersion(g, start, num, i);
    }
  }

  // ---- the decoder --------------------------------------------------------

  lemma DecodedLine(g: Layout, start: nat, num: nat, enc: seq<Byte>, i: nat, n: nat)
    requires IsSegment(g, start, num, enc) && g.Boundary(g.EntryAt(start) + i)
    requires 0 < n <= g.Block() && i + n <= g.entrySize * num
    ensures 0 <= LineAt(g, start, i) < LineAt(g, start, i) + 1 + n <= |enc|
    ensures LineAt(g, start, i + n) == LineAt(g, start, i) + 1 + n || n < g.Block()
    ensures Decoded(g, start, num, enc)[i..i + n] == enc[LineAt(g, start, i) + 1..LineAt(g, start, i) + 1 + n]
  {
    hide Layout.Raw, Layout.Boundary;
    var s, j := g.EntryAt(start), LineAt(g, start, i);
    g.RawMono(s, s + i);
    g.PayloadInLine(s + i, n - 1);
    PayloadsInside(g, start, num, enc);
    assert 0 <= PayloadOf(g, start, i + n - 1) < |enc|;
    var a, b := Decoded(g, start, num, enc)[i..i + n], enc[j + 1..j + 1 + n];
    forall k | 0 <= k < n
      ensures a[k] == b[k]
    {
      g.PayloadInLine(s + i, k);
    }
    if n == g.Block() {
      g.RawStep(s + i + n - 1);
      g.PayloadInLine(s + i, n - 1);
    }
  }

  lemma DecodedHead(g: Layout, start: nat, num: nat, enc: seq<Byte>, n: nat)
    requires IsSegment(g, start, num, enc) && n <= g.entrySize * num
    requires forall j :: g.EntryAt(start) <= j < g.EntryAt(start) + n ==> !g.Boundary(j)
    ensures n <= |enc| && LineAt(g, start, n) == n && Decoded(g, start, num, enc)[..n] == enc[..n]
    ensures SegmentLinesMatch(g, start, num, enc, n)
  {
    hide Layout.Raw, Layout.Boundary, Layout.EntryAt;
    var s := g.EntryAt(start);
    RawInHead(g, s, n);
    g.RawMono(s + n, g.EntryAt(start + num));
    var seg := Decoded(g, start, num, enc);
    forall k | 0 <= k < n
      ensures seg[k] == enc[k]
    {
      RawInHead(g, s, k + 1);
      assert PayloadOf(g, start, k) == k;
    }
  }

  lemma {:induction false} RawInHead(g: Layout, s: nat, k: nat)
    requires g.Valid() && forall j :: s <= j < s + k ==> !g.Boundary(j)
    ensures g.Raw(s + k) == g.Raw(s) + k
  {
    if k > 0 {
      RawInHead(g, s, k - 1);
      g.RawStep(s + k - 1);
    }
  }

  lemma SegmentLinesStep(g: Layout, start: nat, num: nat, enc: seq<Byte>, i: nat, n: nat)
    requires IsSegment(g, start, num, enc) && g.Boundary(g.EntryAt(start) + i)
    requires 0 < n <= g.Block() && i + n <= g.entrySize * num && SegmentLinesMatch(g, start, num, enc, i)
    ensures 0 <= LineAt(g, start, i) < |enc| && 0 <= EntryStart(g, i) <= i
    ensures SegmentLinesMatch(g, start, num, enc, i + n) <==>
              enc[LineAt(g, start, i)] == Decoded(g, start, num, enc)[EntryStart(g, i)]
  {
    hide Layout.Raw, Layout.Boundary, LineAt, EntryStart, Decoded;
    DecodedLine(g, start, num, enc, i, n);
    SegmentVersion(g, start, num, i);
    forall k | i < k < i + n
      ensures SegmentLineMatches(g, start, num, enc, k)
    {
      g.NextBoundary(g.EntryAt(start) + i, g.EntryAt(start) + k);
    }
    assert SegmentLinesMatch(g, start, num, enc, i + n) ==> SegmentLineMatches(g, start, num, enc, i);
  }

  /** One line: copy its bytes and compare its version with its entry's. */
  method StripSegmentLine(g: Layout, ghost start: nat, num: nat, input: array<Byte>, output: array<Byte>,
                          i: nat, j: nat, n: nat) returns (ok: bool)
    requires IsSegment(g, start, num, input[..]) && output.Length == g.entrySize * num && input != output
    requires g.Boundary(g.EntryAt(start) + j) && 0 < n <= g.Block()
    requires j + n <= output.Length && i == LineAt(g, start, j)
    requires output[..j] == Decoded(g, start, num, input[..])[..j] && SegmentLinesMatch(g, start, num, input[..], j)
    modifies output
    ensures output[..j + n] == Decoded(g, start, num, input[..])[..j + n]
    ensures ok <==> SegmentLinesMatch(g, start, num, input[..], j + n)
  {
    assert g.Valid();
    hide *;
    ghost var seg := Decoded(g, start, num, input[..]);
    SegmentLinesStep(g, start, num, input[..], j, n);
    DecodedLine(g, start, num, input[..], j, n);
    var lineVersion := input[i];
    Copy(output, j, input, i + 1, n);
    assert output[..j + n] == output[..j] + output[j..j + n];
    assert seg[..j + n] == seg[..j] + seg[j..j + n];
    var objVersion := output[EntryStart(g, j)];
    assert objVersion == output[..j + n][EntryStart(g, j)];
    return objVersion == lineVersion;
  }

  method StripSegment(g: Layout, ghost start: nat, num: nat, input: array<Byte>, output: array<Byte>, firstOffset: nat)
    returns (ok: bool)
    requires IsSegment(g, start, num, input[..]) && output.Length == g.entrySize * num && input != output
    requires firstOffset == GetOffsetInfo(g, start, num).firstOffset
    modifies output
    ensures ok <==> SegmentLinesMatch(g, start, num, input[..], output.Length)
    ensures ok ==> output[..] == Decoded(g, start, num, input[..])
  {
    hide *;
    SegmentFacts(g, start, num, input[..]);
    ghost var enc := input[..];
    ghost var seg := Decoded(g, start, num, enc);
    var len := output.Length;
    DecodedHead(g, start, num, enc, firstOffset);
    Copy(output, 0, input, 0, firstOffset);
    assert output[..firstOffset] == output[0..firstOffset] == enc[..firstOffset];
    var i: nat, j: nat := firstOffset, firstOffset;
    while j < len
      invariant j < len ==> g.Boundary(g.EntryAt(start) + j) && i == LineAt(g, start, j)
      invariant var e := if j < len then j else len;
                output[..e] == seg[..e] && SegmentLinesMatch(g, start, num, enc, e)
      decreases len - j
    {
      var n := if g.Block() < len - j then g.Block() else len - j;
      ok := StripSegmentLine(g, start, num, input, output, i, j, n);
      if !ok {
        SegmentMismatchStays(g, start, num, enc, j + n);
        return false;
      }
      DecodedLine(g, start, num, enc, j, n);
      g.NextBoundary(g.EntryAt(start) + j, g.EntryAt(start) + j + g.Block());
      i, j := i + 1 + g.Block(), j + g.Block();
    }
    return true;
  }

  lemma SegmentFacts(g: Layout, start: nat, num: nat, enc: seq<Byte>)
    requires IsSegment(g, start, num, enc)
    ensures var s, first := g.EntryAt(start), GetOffsetInfo(g, start, num).firstOffset;
            && g.Valid() && g.Block() >= 1 && first <= g.entrySize * num
            && (first < g.entrySize * num ==> g.Boundary(s + first))
            && forall j :: s <= j < s + first ==> !g.Boundary(j)
  {
    OffsetInfoCorrect(g, start, num);
  }

  lemma SegmentMismatchStays(g: Layout, start: nat, num: nat, enc: seq<Byte>, e: nat)
    requires IsSegment(g, start, num, enc) && e <= g.entrySize * num && !SegmentLinesMatch(g, start, num, enc, e)
    ensures !SegmentLinesMatch(g, start, num, enc, g.entrySize * num)
  {
  }

  method EntryVersionsAgree(g: Layout, num: nat, seg: array<Byte>) returns (ok: bool, nodeVersion: nat)
    requires g.Valid() && num > 0 && seg.Length == g.entrySize * num
    ensures ok <==> EntriesAgree(g, num, seg[..])
    ensures seg.Length > 0 && nodeVersion == NodeVersion(seg[0])
  {
    MulMono(1, num, g.entrySize);
    nodeVersion := NodeVersion(seg[0]);
    ok := true;
    assert Relative(g, 0) == 0;
    for i := 1 to num
      invariant ok <==> forall k :: 0 <= k < i ==>
                       Relative(g, k) < seg.Length && NodeVersion(seg[Relative(g, k)]) == nodeVersion
    {
      RelativeBound(g, i, num - 1);
      ok := ok && nodeVersion == NodeVersion(seg[Relative(g, i)]);
    }
  }

  /** The segment is accepted exactly if every line version is that of its entry
      and all entries carry one node version; the output is then the entries. */
  method DecodeSegment(g: Layout, ghost start: nat, num: nat, input: array<Byte>, output: array<Byte>, firstOffset: nat)
    returns (ok: bool, nodeVersion: nat)
    requires IsSegment(g, start, num, input[..]) && output.Length == g.entrySize * num && input != output
    requires firstOffset == GetOffsetInfo(g, start, num).firstOffset
    modifies output
    ensures ok <==> SegmentAccepted(g, start, num, input[..])
    ensures ok ==> output[..] == Decoded(g, start, num, input[..])
    ensures ok ==> output.Length > 0 && nodeVersion == NodeVersion(output[0])
  {
    hide SegmentLinesMatch, Decoded, EntriesAgree, GetOffsetInfo;
    nodeVersion := 0;
    ok := StripSegment(g, start, num, input, output, firstOffset);
    if ok {
      ok, nodeVersion := EntryVersionsAgree(g, num, output);
    }
  }
}
