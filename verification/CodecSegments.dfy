/** Writing only the entries l..r of a node: where their encoding goes, and why
    writing it there is as good as writing the whole node. */
module CodecSegments {
  import opened DivMod
  import opened Layout
  import opened CodecBuffers

  datatype OffsetInfo = OffsetInfo(rawOffset: nat, rawLength: int, firstOffset: nat)

  function RawDistance(g: Layout, len: int): int
    requires g.Valid()
  {
    if len <= 0 then len else len + Ceiling(len, g.Block())
  }

  function Min(a: nat, b: nat): nat { if a < b then a else b }

  /** Encoded offset and length of `num` entries from `start` on, and how many
      of their bytes precede the first line version among them. */
  function GetOffsetInfo(g: Layout, start: nat, num: nat): OffsetInfo
    requires g.Valid()
  {
    var s, e := g.EntryAt(start), g.EntryAt(start + num);
    var dist := s - g.First();
    var rawLength := RawDistance(g, e - g.First()) - RawDistance(g, dist);
    if dist < 0 then
      OffsetInfo(s, rawLength, Min(g.First() - s, g.entrySize * num))
    else
      var versions := Ceiling(dist, g.Block());
      CeilingBound(dist, g.Block());
      OffsetInfo(s + versions, rawLength, Min(g.First() + versions * g.Block() - s, g.entrySize * num))
  }

  lemma CeilingBound(d: nat, n: int)
    requires n > 0
    ensures d <= Ceiling(d, n) * n < d + n
  {
    DivFloor(d, n);
    assert (d / n + 1) * n == n * (d / n) + n;
  }

  /** The offsets are those of the layout, and the first line version comes at
      the first boundary. */
  lemma OffsetInfoCorrect(g: Layout, start: nat, num: nat)
    requires g.Valid() && start + num <= g.span
    ensures var s, e, o := g.EntryAt(start), g.EntryAt(start + num), GetOffsetInfo(g, start, num);
            && s <= e <= g.Size() && o.rawOffset == g.Raw(s) && o.rawLength == g.Raw(e) - g.Raw(s)
            && s + o.firstOffset <= e && (s + o.firstOffset < e ==> g.Boundary(s + o.firstOffset))
            && forall j :: s <= j < s + o.firstOffset ==> !g.Boundary(j)
  {
    var s, e, o := g.EntryAt(start), g.EntryAt(start + num), GetOffsetInfo(g, start, num);
    MulMono(start, start + num, g.entrySize);
    MulMono(start + num, g.span, g.entrySize);
    assert e == s + g.entrySize * num;
    var dist := s - g.First();
    if dist >= 0 {
      var c := Ceiling(dist, g.Block());
      CeilingBound(dist, g.Block());
      QuotientOf(c * g.Block(), g.Block(), c, 0);
      forall j | s <= j < s + o.firstOffset
        ensures !g.Boundary(j)
      {
        BetweenMultiples(dist, j - g.First(), g.Block());
      }
    } else {
      g.FirstBoundary();
    }
  }

  lemma BetweenMultiples(d: nat, x: nat, n: int)
    requires n > 0 && d <= x < Ceiling(d, n) * n
    ensures x % n != 0
  {
    if x % n == 0 {
      var q, c := x / n, Ceiling(d, n);
      assert x == q * n;
      CeilingBound(d, n);
      if q >= c {
        MulMono(c, q, n);
      } else {
        MulMono(q, c - 1, n);
      }
      assert false;
    }
  }

  // ---- replacing a segment ------------------------------------------------

  function Overwritten(node: seq<Byte>, s: nat, seg: seq<Byte>): (r: seq<Byte>)
    requires s + |seg| <= |node|
    ensures |r| == |node|
  {
    node[..s] + seg + node[s + |seg|..]
  }

  /** Splicing the encoded segment into the image gives the image of the
      spliced node, and a segment that ends with the last entry ends where the
      image ends. */
  lemma SegmentWrite(g: Layout, node: seq<Byte>, start: nat, num: nat, seg: seq<Byte>)
    requires g.Valid() && |node| == g.Size() && start + num <= g.span && |seg| == g.entrySize * num
    ensures var s, e, o := g.EntryAt(start), g.EntryAt(start + num), GetOffsetInfo(g, start, num);
            && s <= e <= |node| && s + |seg| == e
            && var after := Overwritten(node, s, seg);
               var enc := g.Encoded(after, s, e);
               && 0 <= o.rawLength == |enc| && o.rawOffset + |enc| <= |g.Image(node)|
               && g.Image(after) == Overwritten(g.Image(node), o.rawOffset, enc)
               && (start + num == g.span ==> o.rawOffset + o.rawLength == |g.Image(node)|)
  {
    hide Layout.Encoded, Layout.Raw, Layout.Boundary, Layout.VersionOffset, GetOffsetInfo;
    OffsetInfoCorrect(g, start, num);
    var s, e := g.EntryAt(start), g.EntryAt(start + num);
    MulMono(start, start + num, g.entrySize);
    assert e == s + g.entrySize * num;
    var after := Overwritten(node, s, seg);
    SameBefore(g, node, after, start);
    SameAfter(g, node, after, start + num);
    g.EncodedLength(node, 0, s);
    g.EncodedLength(node, s, e);
    g.EncodedLength(after, s, e);
    g.EncodedLength(node, e, |node|);
    g.EncodedSplit(node, 0, s, |node|);
    g.EncodedSplit(node, s, e, |node|);
    g.EncodedSplit(after, 0, s, |node|);
    g.EncodedSplit(after, s, e, |node|);
    g.RawZero();
  }

  lemma SameBefore(g: Layout, node: seq<Byte>, after: seq<Byte>, start: nat)
    requires g.Valid() && |node| == |after| == g.Size() && start <= g.span && g.EntryAt(start) <= |node|
    requires node[..g.EntryAt(start)] == after[..g.EntryAt(start)]
    ensures g.Encoded(node, 0, g.EntryAt(start)) == g.Encoded(after, 0, g.EntryAt(start))
  {
    var s := g.EntryAt(start);
    assert forall j :: 0 <= j < s ==> node[j] == node[..s][j] && after[j] == after[..s][j];
    forall j | 0 <= j < s && g.Boundary(j)
      ensures g.VersionOffset(j) < |node| && node[g.VersionOffset(j)] == after[g.VersionOffset(j)]
    {
      g.VersionOffsetBound(j);
    }
    g.EncodedSame(node, after, 0, s);
  }

  lemma SameAfter(g: Layout, node: seq<Byte>, after: seq<Byte>, end: nat)
    requires g.Valid() && |node| == |after| == g.Size() && end <= g.span && g.EntryAt(end) <= |node|
    requires node[g.EntryAt(end)..] == after[g.EntryAt(end)..]
    ensures g.Encoded(node, g.EntryAt(end), |node|) == g.Encoded(after, g.EntryAt(end), |node|)
  {
    var e := g.EntryAt(end);
    assert forall j :: e <= j < |node| ==> node[j] == node[e..][j - e] && after[j] == after[e..][j - e];
    forall j | e <= j < |node| && g.Boundary(j)
      ensures g.VersionOffset(j) < |node| && node[g.VersionOffset(j)] == after[g.VersionOffset(j)]
    {
      g.VersionOffsetBound(j);
      DivMono(e - g.metaSize, j - g.metaSize, g.entrySize);
      QuotientOf(e - g.metaSize, g.entrySize, end, 0);
      MulMono(end, (j - g.metaSize) / g.entrySize, g.entrySize);
    }
    g.EncodedSame(node, after, e, |node|);
  }

  // ---- encoding a segment -------------------------------------------------

  /** Where entry i of a segment starts. */
  function Relative(g: Layout, i: nat): nat { i * g.entrySize }

  lemma RelativeBound(g: Layout, i: nat, n: nat)
    requires g.Valid() && i <= n
    ensures Relative(g, i) < g.entrySize * (n + 1)
  {
    MulMono(i, n, g.entrySize);
  }

  lemma RelativeIs(g: Layout, i: nat, p: nat)
    requires g.Valid()
    ensures p == Relative(g, i) <==> p % g.entrySize == 0 && p / g.entrySize == i
  {
    if p == Relative(g, i) {
      QuotientOf(p, g.entrySize, i, 0);
    }
  }

  /** The entry versions of the hopped entries among l..r stepped by one. */
  ghost function BumpHopped(g: Layout, seg: seq<Byte>, hopped: seq<nat>, l: nat, r: nat): (b: seq<Byte>)
    requires g.Valid() && l <= r && |seg| == g.entrySize * (r - l + 1)
    ensures |b| == |seg|
  {
    if hopped == [] then seg else
      var b := BumpHopped(g, seg, hopped[..|hopped| - 1], l, r);
      var h := hopped[|hopped| - 1];
      if l <= h <= r then
        RelativeBound(g, h - l, r - l);
        b[Relative(g, h - l) := WithNextEntryVersion(b[Relative(g, h - l)])]
      else b
  }

  ghost predicate Distinct(hopped: seq<nat>) {
    forall a, b :: 0 <= a < b < |hopped| ==> hopped[a] != hopped[b]
  }

  /** Byte p of the segment, stepped if it is the version of a hopped entry. */
  ghost function Stepped(g: Layout, seg: seq<Byte>, hopped: seq<nat>, l: nat, p: nat): Byte
    requires g.Valid() && p < |seg|
  {
    if p % g.entrySize == 0 && l + p / g.entrySize in hopped then WithNextEntryVersion(seg[p]) else seg[p]
  }

  /** Exactly the hopped entries change, each by one step of its entry version. */
  lemma {:induction false} BumpHoppedAt(g: Layout, seg: seq<Byte>, hopped: seq<nat>, l: nat, r: nat, p: nat)
    requires g.Valid() && l <= r && |seg| == g.entrySize * (r - l + 1) && p < |seg|
    requires Distinct(hopped)
    ensures BumpHopped(g, seg, hopped, l, r)[p] == Stepped(g, seg, hopped, l, p)
    decreases |hopped|
  {
    if hopped != [] {
      hide Relative, WithNextEntryVersion;
      var rest, h := hopped[..|hopped| - 1], hopped[|hopped| - 1];
      BumpHoppedAt(g, seg, rest, l, r, p);
      assert hopped == rest + [h];
      SegmentIndex(g, p, r - l + 1);
      if l <= h <= r {
        RelativeBound(g, h - l, r - l);
        RelativeIs(g, h - l, p);
      }
    }
  }

  lemma SegmentIndex(g: Layout, p: nat, n: nat)
    requires g.Valid() && p < g.entrySize * n
    ensures p / g.entrySize < n
  {
    DivFloor(p, g.entrySize);
    if p / g.entrySize >= n {
      MulMono(n, p / g.entrySize, g.entrySize);
      assert false;
    }
  }

  /** The start of the entry that holds byte i of a segment. */
  function EntryStart(g: Layout, i: nat): int
    requires g.Valid()
  {
    i / g.entrySize * g.entrySize
  }

  /** A line inside the segment is governed by the entry it starts in. */
  lemma SegmentVersion(g: Layout, start: nat, num: nat, i: nat)
    requires g.Valid() && start + num <= g.span && i < g.entrySize * num
    ensures 0 <= EntryStart(g, i) <= i
    ensures g.VersionOffset(g.EntryAt(start) + i) == g.EntryAt(start) + EntryStart(g, i)
  {
    var q, m := i / g.entrySize, i % g.entrySize;
    assert i == q * g.entrySize + m;
    MulMono(0, q, g.entrySize);
    assert start * g.entrySize + q * g.entrySize == (start + q) * g.entrySize;
    MulMono(0, start, g.entrySize);
    QuotientOf(start * g.entrySize + i, g.entrySize, start + q, m);
  }

  method BumpEntries(g: Layout, input: array<Byte>, hopped: seq<nat>, l: nat, r: nat)
    requires g.Valid() && l <= r && input.Length == g.entrySize * (r - l + 1)
    modifies input
    ensures input[..] == BumpHopped(g, old(input[..]), hopped, l, r)
    ensures Distinct(hopped) ==>
              forall p :: 0 <= p < input.Length ==> input[p] == Stepped(g, old(input[..]), hopped, l, p)
  {
    for i := 0 to |hopped|
      invariant input[..] == BumpHopped(g, old(input[..]), hopped[..i], l, r)
    {
      assert hopped[..i + 1][..i] == hopped[..i];
      var h := hopped[i];
      if l <= h <= r {
        RelativeBound(g, h - l, r - l);
        var p := Relative(g, h - l);
        input[p] := WithNextEntryVersion(input[p]);
      }
    }
    assert hopped[..|hopped|] == hopped;
    if Distinct(hopped) {
      forall p | 0 <= p < input.Length
        ensures input[..][p] == Stepped(g, old(input[..]), hopped, l, p)
      {
        BumpHoppedAt(g, old(input[..]), hopped, l, r, p);
      }
    }
  }

  lemma Slice(a: seq<Byte>, s: nat, e: nat, i: nat, j: nat)
    requires s <= e <= |a| && i <= j <= e - s
    ensures a[s + i..s + j] == a[s..e][i..j]
  {
    var b, c := a[s + i..s + j], a[s..e][i..j];
    assert |b| == |c| && forall k :: 0 <= k < |b| ==> b[k] == a[s + i + k] == c[k];
  }

  /** One line of the segment. */
  method SegmentLine(g: Layout, ghost node: seq<Byte>, input: array<Byte>, output: array<Byte>,
                     start: nat, num: nat, i: nat, j: nat, n: nat)
    requires g.Valid() && |node| == g.Size() && start + num <= g.span && input != output
    requires input.Length == g.entrySize * num && g.EntryAt(start) + input.Length == g.EntryAt(start + num) <= |node|
    requires node[g.EntryAt(start)..g.EntryAt(start + num)] == input[..]
    requires g.Boundary(g.EntryAt(start) + i) && 0 < n <= g.Block() && i + n <= input.Length
    requires j == g.Raw(g.EntryAt(start) + i) - g.Raw(g.EntryAt(start))
    requires EncodedSoFar(g, node, g.EntryAt(start), i, output[..])
    requires output.Length >= g.Raw(g.EntryAt(start + num)) - g.Raw(g.EntryAt(start))
    modifies output
    ensures j + 1 + n == g.Raw(g.EntryAt(start) + i + n) - g.Raw(g.EntryAt(start))
    ensures EncodedSoFar(g, node, g.EntryAt(start), i + n, output[..])
  {
    hide *;
    ghost var s, e := g.EntryAt(start), g.EntryAt(start + num);
    g.OneLine(node, s + i, n);
    g.RawMono(s + i + n, e);
    SegmentVersion(g, start, num, i);
    var v := EntryStart(g, i);
    assert input[v] == input[..][v] == node[s + v];
    Slice(node, s, e, i, i + n);
    assert input[i..i + n] == input[..][i..i + n];
    WriteLine(g, node, s, input[v], input, output, i, j, n);
  }

  /** The bytes of the segment in front of its first line version. */
  method CopyHead(g: Layout, ghost node: seq<Byte>, ghost s: nat, input: array<Byte>, output: array<Byte>, n: nat)
    requires g.Valid() && |node| == g.Size() && input != output && n <= input.Length && n <= output.Length
    requires s + input.Length <= |node| && node[s..s + input.Length] == input[..]
    requires forall j :: s <= j < s + n ==> !g.Boundary(j)
    modifies output
    ensures g.Raw(s + n) - g.Raw(s) == n && output[..n] == g.Encoded(node, s, s + n)
  {
    hide *;
    g.PlainRun(node, s, s + n);
    g.EncodedLength(node, s, s + n);
    Copy(output, 0, input, 0, n);
    Slice(node, s, s + input.Length, 0, n);
    assert output[..n] == output[0..n] == input[..][0..n];
  }

  method WriteSegment(g: Layout, ghost node: seq<Byte>, input: array<Byte>, output: array<Byte>,
                      firstOffset: nat, start: nat, num: nat)
    requires g.Valid() && |node| == g.Size() && num > 0 && start + num <= g.span && input != output
    requires input.Length == g.entrySize * num && firstOffset == GetOffsetInfo(g, start, num).firstOffset
    requires g.EntryAt(start) + input.Length == g.EntryAt(start + num) <= |node|
    requires node[g.EntryAt(start)..g.EntryAt(start + num)] == input[..]
    requires output.Length >= GetOffsetInfo(g, start, num).rawLength
    modifies output
    ensures 0 <= GetOffsetInfo(g, start, num).rawLength <= output.Length
    ensures output[..GetOffsetInfo(g, start, num).rawLength] ==
              g.Encoded(node, g.EntryAt(start), g.EntryAt(start + num))
  {
    hide *;
    g.BlockPositive();
    var len := input.Length;
    ghost var s := g.EntryAt(start);
    OffsetInfoCorrect(g, start, num);
    g.RawMono(s, s + firstOffset);
    g.RawMono(s + firstOffset, s + len);
    CopyHead(g, node, s, input, output, firstOffset);
    SoFar(g, node, s, firstOffset, output, firstOffset);
    var i: nat, j: nat := firstOffset, firstOffset;
    while i < len
      invariant firstOffset <= i
      invariant i < len ==> g.Boundary(s + i) && j == g.Raw(s + i) - g.Raw(s)
      invariant EncodedSoFar(g, node, s, if i < len then i else len, output[..])
      decreases len - i
    {
      var n := if g.Block() < len - i then g.Block() else len - i;
      SegmentLine(g, node, input, output, start, num, i, j, n);
      g.NextBoundary(s + i, s + i + g.Block());
      i, j := i + g.Block(), j + 1 + g.Block();
    }
    SoFar(g, node, s, len, output, g.Raw(s + len) - g.Raw(s));
  }

  /** Step the versions of the hopped entries and encode l..r; written at its
      raw offset, the output turns the image of any node into the image of
      that node with the new entries in place. */
  method EncodeSegment(g: Layout, ghost node: seq<Byte>, input: array<Byte>, output: array<Byte>,
                       firstOffset: nat, hopped: seq<nat>, l: nat, r: nat)
    requires g.Valid() && |node| == g.Size() && l <= r < g.span && input != output
    requires input.Length == g.entrySize * (r - l + 1)
    requires firstOffset == GetOffsetInfo(g, l, r - l + 1).firstOffset
    requires output.Length >= GetOffsetInfo(g, l, r - l + 1).rawLength
    modifies input, output
    ensures input[..] == BumpHopped(g, old(input[..]), hopped, l, r)
    ensures Distinct(hopped) ==>
              forall p :: 0 <= p < input.Length ==> input[p] == Stepped(g, old(input[..]), hopped, l, p)
    ensures var o := GetOffsetInfo(g, l, r - l + 1);
            && 0 <= o.rawLength <= output.Length
            && g.EntryAt(l) <= g.EntryAt(l) + input.Length == g.EntryAt(r + 1) <= |node|
            && output[..o.rawLength] ==
               g.Encoded(Overwritten(node, g.EntryAt(l), input[..]), g.EntryAt(l), g.EntryAt(r + 1))
            && o.rawOffset + o.rawLength <= |g.Image(node)|
            && Overwritten(g.Image(node), o.rawOffset, output[..o.rawLength]) ==
               g.Image(Overwritten(node, g.EntryAt(l), input[..]))
            && (r == g.span - 1 ==> o.rawOffset + o.rawLength == |g.Image(node)|)
  {
    hide Layout.Encoded, Layout.Raw, Layout.Boundary, Layout.VersionOffset, GetOffsetInfo,
         Layout.Image, BumpHopped, Stepped;
    BumpEntries(g, input, hopped, l, r);
    SegmentWrite(g, node, l, r - l + 1, input[..]);
    ghost var s := g.EntryAt(l);
    ghost var after := Overwritten(node, s, input[..]);
    assert after[s..s + input.Length] == input[..];
    WriteSegment(g, after, input, output, firstOffset, l, r - l + 1);
  }
}
