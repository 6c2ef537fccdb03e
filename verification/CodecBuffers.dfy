/** The codec as it runs: loops that copy line by line between byte buffers. */
module CodecBuffers {
  import opened Layout
  import opened VersionCodec

  method Copy(dst: array<Byte>, d: nat, src: array<Byte>, s: nat, n: nat)
    requires dst != src && d + n <= dst.Length && s + n <= src.Length
    modifies dst
    ensures dst[..d] == old(dst[..d]) && dst[d + n..] == old(dst[d + n..])
    ensures dst[d..d + n] == src[s..s + n]
  {
    for i := 0 to n
      invariant dst[..d] == old(dst[..d]) && dst[d + i..] == old(dst[d + i..])
      invariant dst[d..d + i] == src[s..s + i]
    {
      assert old(dst[d + i..])[1..] == old(dst[d + i + 1..]);
      dst[d + i] := src[s + i];
      assert dst[d..d + i + 1] == dst[d..d + i] + [dst[d + i]];
    }
  }

  // ---- whole nodes --------------------------------------------------------

  /** All version fields given node version v. */
  ghost function Bumped(g: Layout, node: seq<Byte>, v: nat): (r: seq<Byte>)
    requires g.Valid() && |node| == g.Size() && v < 16
    ensures |r| == |node|
    ensures forall p :: 0 <= p < |r| ==>
              r[p] == if g.IsVersion(p) then WithNodeVersion(node[p], v) else node[p]
  {
    seq(|node|, p requires 0 <= p < |node| => if g.IsVersion(p) then WithNodeVersion(node[p], v) else node[p])
  }

  /** A whole-node write continues the history of the node it replaces. */
  lemma BumpedUniform(g: Layout, node: seq<Byte>, v: nat)
    requires g.Valid() && |node| == g.Size() && v < 16
    ensures Uniform(g, Bumped(g, node, v), v)
  {
    g.EntryBound(0);
    forall i | 0 <= i < g.span
      ensures g.EntryAt(i) < |node| && NodeVersion(Bumped(g, node, v)[g.EntryAt(i)]) == v
    {
      g.EntryBound(i);
      g.VersionFields(i, g.EntryAt(i));
    }
  }

  method BumpVersions(g: Layout, input: array<Byte>)
    requires g.Valid() && input.Length == g.Size()
    modifies input
    ensures g.EntryAt(0) < input.Length
    ensures input[..] == Bumped(g, old(input[..]), (NodeVersion(old(input[g.EntryAt(0)])) + 1) % 16)
  {
    g.EntryBound(0);
    var nodeVersion := (NodeVersion(input[g.EntryAt(0)]) + 1) % 16;
    input[0] := WithNodeVersion(input[0], nodeVersion);
    ghost var was := old(input[..]);
    for i := 0 to g.span
      invariant forall p :: 0 <= p < input.Length ==>
                  input[p] ==
                    if g.IsVersion(p) && p < g.EntryAt(i) then WithNodeVersion(was[p], nodeVersion) else was[p]
    {
      g.EntryBound(i);
      forall p | g.EntryAt(i) <= p < g.EntryAt(i + 1)
        ensures g.IsVersion(p) <==> p == g.EntryAt(i)
      {
        g.VersionFields(i, p);
      }
      input[g.EntryAt(i)] := WithNodeVersion(input[g.EntryAt(i)], nodeVersion);
    }
  }

  /** The output starts with the image of the e bytes from s on. */
  ghost predicate EncodedSoFar(g: Layout, node: seq<Byte>, s: nat, e: nat, output: seq<Byte>)
    requires g.Valid()
  {
    && |node| == g.Size() && s + e <= |node| && 0 <= g.Raw(s + e) - g.Raw(s) <= |output|
    && output[..g.Raw(s + e) - g.Raw(s)] == g.Encoded(node, s, s + e)
  }

  lemma SoFar(g: Layout, node: seq<Byte>, s: nat, e: nat, output: array<Byte>, n: nat)
    requires g.Valid() && |node| == g.Size() && s + e <= |node| && n == g.Raw(s + e) - g.Raw(s) <= output.Length
    ensures EncodedSoFar(g, node, s, e, output[..]) <==> output[..n] == g.Encoded(node, s, s + e)
  {
    hide Layout.Raw, Layout.Encoded;
    assert output[..][..n] == output[..n];
  }

  /** One line: its version, then its bytes. The buffers hold what belongs to
      the node from offset s on. */
  method WriteLine(g: Layout, ghost node: seq<Byte>, ghost s: nat, version: Byte,
                   input: array<Byte>, output: array<Byte>, i: nat, j: nat, n: nat)
    requires g.Valid() && |node| == g.Size() && input != output && i + n <= input.Length
    requires g.Boundary(s + i) && 0 < n <= g.Block() && s + i + n <= |node| && node[s + i..s + i + n] == input[i..i + n]
    requires g.VersionOffset(s + i) < |node| && version == node[g.VersionOffset(s + i)]
    requires j == g.Raw(s + i) - g.Raw(s) && EncodedSoFar(g, node, s, i, output[..])
    requires g.Raw(s + i + n) - g.Raw(s) <= output.Length
    modifies output
    ensures EncodedSoFar(g, node, s, i + n, output[..]) && j + 1 + n == g.Raw(s + i + n) - g.Raw(s)
  {
    hide *;
    g.OneLine(node, s + i, n);
    g.RawMono(s + i, s + i + n);
    SoFar(g, node, s, i, output, j);
    g.EncodedSplit(node, s, s + i, s + i + n);
    output[j] := version;
    assert output[..j] == old(output[..j]);
    ghost var front := output[..j + 1];
    assert front == old(output[..j]) + [version];
    Copy(output, j + 1, input, i, n);
    Append(output, j + 1, n);
    Regroup(old(output[..j]), version, input[i..i + n]);
    SoFar(g, node, s, i + n, output, j + 1 + n);
  }

  lemma Append(a: array<Byte>, j: nat, n: nat)
    requires j + n <= a.Length
    ensures a[..j + n] == a[..j] + a[j..j + n]
  {
  }

  lemma Regroup(a: seq<Byte>, x: Byte, b: seq<Byte>)
    ensures (a + [x]) + b == a + ([x] + b)
  {
  }

  /** The bytes in front of the first line version. */
  method CopyFirst(g: Layout, ghost node: seq<Byte>, input: array<Byte>, output: array<Byte>)
    requires g.Valid() && input.Length == g.Size() && output.Length >= g.Raw(g.Size())
    requires input != output && node == input[..]
    modifies output
    ensures g.First() <= g.Size() && g.Raw(g.First()) == g.First() && EncodedSoFar(g, node, 0, g.First(), output[..])
  {
    hide *;
    g.RawZero();
    g.FirstLine(node, g.First());
    g.RawMono(g.First(), g.Size());
    Copy(output, 0, input, 0, g.First());
    assert output[..g.First()] == output[0..g.First()] == node[..g.First()];
    SoFar(g, node, 0, g.First(), output, g.First());
  }

  method NodeLine(g: Layout, ghost node: seq<Byte>, input: array<Byte>, output: array<Byte>, i: nat, j: nat, n: nat)
    requires g.Valid() && input.Length == g.Size() && output.Length >= g.Raw(g.Size())
    requires input != output && node == input[..]
    requires g.Boundary(i) && 0 < n <= g.Block() && i + n <= g.Size() && j == g.Raw(i)
    requires EncodedSoFar(g, node, 0, i, output[..])
    modifies output
    ensures EncodedSoFar(g, node, 0, i + n, output[..]) && j + 1 + n == g.Raw(i + n)
  {
    hide *;
    g.RawZero();
    g.VersionOffsetBound(i);
    g.RawMono(i + n, g.Size());
    WriteLine(g, node, 0, input[g.VersionOffset(i)], input, output, i, j, n);
  }

  method WriteLines(g: Layout, input: array<Byte>, output: array<Byte>)
    requires g.Valid() && input.Length == g.Size() && output.Length >= g.Raw(g.Size()) && input != output
    modifies output
    ensures output[..g.Raw(g.Size())] == g.Image(input[..])
  {
    ghost var node := input[..];
    assert g.Image(node) == g.Encoded(node, 0, |node|);
    hide *;
    g.BlockPositive();
    g.RawZero();
    var len := input.Length;
    var i: nat, j: nat := g.First(), g.First();
    g.FirstBoundary();
    CopyFirst(g, node, input, output);
    while i < len
      invariant input[..] == node && (i < len ==> g.Boundary(i) && j == g.Raw(i))
      invariant EncodedSoFar(g, node, 0, if i < len then i else len, output[..])
      decreases len - i
    {
      var n := if g.Block() < len - i then g.Block() else len - i;
      NodeLine(g, node, input, output, i, j, n);
      g.NextBoundary(i, i + g.Block());
      i, j := i + g.Block(), j + 1 + g.Block();
    }
    SoFar(g, node, 0, len, output, g.Raw(len));
  }

  /** Only the node versions change; the output is the image of the new node. */
  method EncodeNode(g: Layout, input: array<Byte>, output: array<Byte>)
    requires g.Valid() && input.Length == g.Size() && output.Length >= g.Raw(g.Size()) && input != output
    modifies input, output
    ensures g.EntryAt(0) < input.Length
    ensures input[..] == Bumped(g, old(input[..]), (NodeVersion(old(input[g.EntryAt(0)])) + 1) % 16)
    ensures output[..g.Raw(g.Size())] == g.Image(input[..]) && Accepts(g, output[..g.Raw(g.Size())])
  {
    BumpVersions(g, input);
    WriteLines(g, input, output);
    BumpedUniform(g, old(input[..]), (NodeVersion(old(input[g.EntryAt(0)])) + 1) % 16);
    ImageAccepted(g, input[..]);
  }

  // ---- decoding -----------------------------------------------------------

  /** The line versions up to decoded byte e have been checked. */
  ghost predicate LinesMatch(g: Layout, image: seq<Byte>, e: nat)
    requires g.Valid() && |image| == g.Raw(g.Size()) && e <= g.Size()
  {
    var node := Stripped(g, image);
    forall b :: 0 <= b < e && g.Boundary(b) ==>
      g.Raw(b) < |image| && g.VersionOffset(b) < |node| && image[g.Raw(b)] == node[g.VersionOffset(b)]
  }

  lemma StrippedLine(g: Layout, image: seq<Byte>, i: nat, n: nat)
    requires g.Valid() && |image| == g.Raw(g.Size()) && g.Boundary(i) && n <= g.Block() && i + n <= g.Size()
    requires n > 0
    ensures g.Raw(i) + 1 + n <= |image|
    ensures Stripped(g, image)[i..i + n] == image[g.Raw(i) + 1..g.Raw(i) + 1 + n]
  {
    hide Layout.Raw, Layout.Boundary;
    g.PayloadInLine(i, n - 1);
    Positions(g);
    var a, b := Stripped(g, image)[i..i + n], image[g.Raw(i) + 1..g.Raw(i) + 1 + n];
    forall k | 0 <= k < n
      ensures a[k] == b[k]
    {
      g.PayloadInLine(i, k);
    }
  }

  lemma StrippedFirst(g: Layout, image: seq<Byte>)
    requires g.Valid() && |image| == g.Raw(g.Size())
    ensures g.First() <= |image| && Stripped(g, image)[..g.First()] == image[..g.First()]
  {
    g.RawMono(g.First(), g.Size());
    forall k | 0 <= k < g.First()
      ensures Stripped(g, image)[k] == image[k]
    {
      g.PayloadInFirst(k);
    }
  }

  lemma LinesMatchStep(g: Layout, image: seq<Byte>, i: nat, n: nat)
    requires g.Valid() && |image| == g.Raw(g.Size()) && g.Boundary(i) && 0 < n <= g.Block() && i + n <= g.Size()
    requires LinesMatch(g, image, i)
    ensures g.Raw(i) < |image| && g.VersionOffset(i) < g.Size()
    ensures LinesMatch(g, image, i + n) <==> image[g.Raw(i)] == Stripped(g, image)[g.VersionOffset(i)]
  {
    hide Layout.Raw, Layout.Boundary, Layout.VersionOffset;
    g.VersionOffsetBound(i);
    StrippedLine(g, image, i, n);
    forall b | i < b < i + n
      ensures !g.Boundary(b)
    {
      g.NextBoundary(i, b);
    }
  }

  lemma AcceptsParts(g: Layout, image: seq<Byte>)
    requires g.Valid() && |image| == g.Raw(g.Size())
    ensures g.EntryAt(0) < g.Size()
    ensures Accepts(g, image) <==>
              && LinesMatch(g, image, g.Size())
              && Uniform(g, Stripped(g, image), NodeVersion(Stripped(g, image)[g.EntryAt(0)]))
  {
    g.EntryBound(0);
  }

  /** Strip the line versions, checking each against the object its line
      starts in, then check that all node versions agree. */
  method DecodeNode(g: Layout, input: array<Byte>, output: array<Byte>) returns (ok: bool)
    requires g.Valid() && input.Length == g.Raw(g.Size()) && output.Length == g.Size() && input != output
    modifies output
    ensures ok <==> Accepts(g, input[..])
    ensures ok ==> output[..] == Stripped(g, input[..])
  {
    hide *;
    AcceptsParts(g, input[..]);
    ok := StripLines(g, input, output);
    if ok {
      ok := VersionsAgree(g, output);
    }
  }

  method VersionsAgree(g: Layout, node: array<Byte>) returns (ok: bool)
    requires g.Valid() && node.Length == g.Size()
    ensures g.EntryAt(0) < node.Length && (ok <==> Uniform(g, node[..], NodeVersion(node[..][g.EntryAt(0)])))
  {
    g.EntryBound(0);
    var nodeVersion := NodeVersion(node[g.EntryAt(0)]);
    ok := nodeVersion == NodeVersion(node[0]);
    for i := 0 to g.span
      invariant ok <==> nodeVersion == NodeVersion(node[0])
                        && forall k :: 0 <= k < i ==>
                           g.EntryAt(k) < node.Length && nodeVersion == NodeVersion(node[g.EntryAt(k)])
    {
      g.EntryBound(i);
      ok := ok && nodeVersion == NodeVersion(node[g.EntryAt(i)]);
    }
  }

  /** One line: copy its bytes and compare its version. */
  method StripLine(g: Layout, input: array<Byte>, output: array<Byte>, i: nat, j: nat, n: nat) returns (ok: bool)
    requires g.Valid() && input.Length == g.Raw(g.Size()) && output.Length == g.Size() && input != output
    requires g.Boundary(j) && 0 < n <= g.Block() && j + n <= g.Size() && i == g.Raw(j)
    requires output[..j] == Stripped(g, input[..])[..j] && LinesMatch(g, input[..], j)
    modifies output
    ensures output[..j + n] == Stripped(g, input[..])[..j + n]
    ensures ok <==> LinesMatch(g, input[..], j + n)
  {
    hide *;
    ghost var node := Stripped(g, input[..]);
    LinesMatchStep(g, input[..], j, n);
    StrippedLine(g, input[..], j, n);
    g.VersionOffsetBound(j);
    var lineVersion := input[i];
    Copy(output, j, input, i + 1, n);
    assert output[..j + n] == output[..j] + output[j..j + n];
    assert node[..j + n] == node[..j] + node[j..j + n];
    var objVersion := output[g.VersionOffset(j)];
    assert objVersion == output[..j + n][g.VersionOffset(j)];
    return objVersion == lineVersion;
  }

  method StripLines(g: Layout, input: array<Byte>, output: array<Byte>) returns (ok: bool)
    requires g.Valid() && input.Length == g.Raw(g.Size()) && output.Length == g.Size() && input != output
    modifies output
    ensures ok <==> LinesMatch(g, input[..], g.Size())
    ensures ok ==> output[..] == Stripped(g, input[..])
  {
    hide Layout.Raw, Layout.Boundary, Layout.VersionOffset, LinesMatch, Stripped;
    ghost var image := input[..];
    ghost var node := Stripped(g, image);
    StrippedFirst(g, image);
    NoEarlyBoundary(g, image);
    g.FirstBoundary();
    Copy(output, 0, input, 0, g.First());
    assert output[..g.First()] == output[0..g.First()] == image[..g.First()];
    var i, j := g.First(), g.First();
    while j < g.Size()
      invariant j >= g.First() && g.Boundary(j)
      invariant j < g.Size() ==> i == g.Raw(j)
      invariant var e := if j < g.Size() then j else g.Size();
                output[..e] == node[..e] && LinesMatch(g, image, e)
      decreases g.Size() - j
    {
      var n := if g.Block() < g.Size() - j then g.Block() else g.Size() - j;
      ok := StripLine(g, input, output, i, j, n);
      if !ok {
        MismatchStays(g, image, j + n);
        return false;
      }
      g.OneLine(node, j, n);
      g.NextBoundary(j, j + g.Block());
      i, j := i + 1 + g.Block(), j + g.Block();
    }
    return true;
  }

  lemma NoEarlyBoundary(g: Layout, image: seq<Byte>)
    requires g.Valid() && |image| == g.Raw(g.Size())
    ensures LinesMatch(g, image, g.First()) && g.Raw(g.First()) == g.First() <= g.Size()
  {
  }

  lemma MismatchStays(g: Layout, image: seq<Byte>, e: nat)
    requires g.Valid() && |image| == g.Raw(g.Size()) && e <= g.Size() && !LinesMatch(g, image, e)
    ensures !LinesMatch(g, image, g.Size())
  {
  }
}
