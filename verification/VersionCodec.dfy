/** Encoding and decoding nodes with embedded versions, and what a decoder can
    conclude from lines that were read at different times. */
module VersionCodec {
  import opened DivMod
  import opened Layout

  /** The metadata and all entries carry node version v. */
  ghost predicate Uniform(g: Layout, node: seq<Byte>, v: nat)
    requires g.Valid() && |node| == g.Size()
  {
    && NodeVersion(node[0]) == v
    && forall i :: 0 <= i < g.span ==> g.EntryAt(i) < |node| && NodeVersion(node[g.EntryAt(i)]) == v
  }

  /** The decoded bytes of an image. */
  ghost function Stripped(g: Layout, image: seq<Byte>): (node: seq<Byte>)
    requires g.Valid() && |image| == g.Raw(g.Size())
    ensures |node| == g.Size()
    ensures forall j :: 0 <= j < |node| ==> 0 <= g.Payload(j) < |image| && node[j] == image[g.Payload(j)]
  {
    Positions(g);
    seq(g.Size(), j requires 0 <= j < g.Size() => image[g.Payload(j)])
  }

  lemma Positions(g: Layout)
    requires g.Valid()
    ensures forall j :: 0 <= j < g.Size() ==> 0 <= g.Payload(j) < g.Raw(g.Size())
  {
    forall j | 0 <= j < g.Size()
      ensures 0 <= g.Payload(j) < g.Raw(g.Size())
    {
      g.RawMono(0, j + 1);
      g.RawMono(j + 1, g.Size());
    }
  }

  /** What the decoder checks: every line version is the version of the object
      the line starts in, and all node versions agree. */
  ghost predicate Accepts(g: Layout, image: seq<Byte>)
    requires g.Valid() && |image| == g.Raw(g.Size())
  {
    var node := Stripped(g, image);
    && (forall j :: 0 <= j < g.Size() && g.Boundary(j) ==>
          g.Raw(j) < |image| && g.VersionOffset(j) < |node| && image[g.Raw(j)] == node[g.VersionOffset(j)])
    && g.EntryAt(0) < |node|
    && Uniform(g, node, NodeVersion(node[g.EntryAt(0)]))
  }

  // ---- whole images -------------------------------------------------------

  lemma StrippedImage(g: Layout, node: seq<Byte>)
    requires g.Valid() && |node| == g.Size()
    ensures |g.Image(node)| == g.Raw(g.Size()) && Stripped(g, g.Image(node)) == node
  {
    g.EncodedLength(node, 0, |node|);
    forall j | 0 <= j < |node|
      ensures Stripped(g, g.Image(node))[j] == node[j]
    {
      g.ImageAt(node, j);
    }
  }

  /** An image that was not torn is accepted exactly when its node versions
      agree, which they do after every whole-node write. */
  lemma ImageAccepted(g: Layout, node: seq<Byte>)
    requires g.Valid() && |node| == g.Size()
    ensures |g.Image(node)| == g.Raw(g.Size()) && g.EntryAt(0) < |node|
    ensures Accepts(g, g.Image(node)) <==> Uniform(g, node, NodeVersion(node[g.EntryAt(0)]))
  {
    StrippedImage(g, node);
    g.EntryBound(0);
    forall j | 0 <= j < g.Size() && g.Boundary(j)
      ensures g.Raw(j) < |g.Image(node)| && g.VersionOffset(j) < |node|
      ensures g.Image(node)[g.Raw(j)] == node[g.VersionOffset(j)]
    {
      g.ImageAt(node, j);
    }
  }

  // ---- torn reads ---------------------------------------------------------

  /** Successive contents of a node under whole-node writes: each write gives
      all version fields the next node version. */
  ghost predicate History(g: Layout, h: seq<seq<Byte>>)
    requires g.Valid()
  {
    && |h| > 0
    && (forall t :: 0 <= t < |h| ==> |h[t]| == g.Size())
    && (forall t :: 0 <= t < |h| ==> Uniform(g, h[t], NodeVersion(h[t][0])))
    && (forall t :: 0 < t < |h| ==> NodeVersion(h[t][0]) == (NodeVersion(h[t - 1][0]) + 1) % 16)
  }

  /** Each memory line of the image comes from some content in the history. */
  ghost predicate ReadFrom(g: Layout, h: seq<seq<Byte>>, image: seq<Byte>, pick: seq<nat>)
    requires g.Valid() && History(g, h)
  {
    && |image| == g.Raw(g.Size())
    && |pick| > (|image| - 1) / g.line
    && (forall c :: 0 <= c < |pick| ==> pick[c] < |h|)
    && forall p :: 0 <= p < |image| ==>
         0 <= p / g.line < |pick| && |g.Image(h[pick[p / g.line]])| == |image| &&
         image[p] == g.Image(h[pick[p / g.line]])[p]
  }

  lemma {:induction false} VersionOf(g: Layout, h: seq<seq<Byte>>, t: nat)
    requires g.Valid() && History(g, h) && t < |h|
    ensures NodeVersion(h[t][0]) == (NodeVersion(h[0][0]) + t) % 16
  {
    if t > 0 {
      hide Uniform;
      VersionOf(g, h, t - 1);
      NextVersion(NodeVersion(h[0][0]) + t - 1);
    }
  }

  lemma NextVersion(n: nat)
    ensures (n % 16 + 1) % 16 == (n + 1) % 16
  {
  }

  /** Node versions agree exactly a multiple of 16 writes apart. */
  lemma VersionsRecur(g: Layout, h: seq<seq<Byte>>, t: nat, u: nat)
    requires g.Valid() && History(g, h) && t < |h| && u < |h|
    ensures NodeVersion(h[t][0]) == NodeVersion(h[u][0]) <==> t % 16 == u % 16
  {
    hide Uniform;
    VersionOf(g, h, t);
    VersionOf(g, h, u);
    hide History;
    SameResidue(NodeVersion(h[0][0]), t, u);
  }

  lemma SameResidue(n: nat, t: nat, u: nat)
    ensures (n + t) % 16 == (n + u) % 16 <==> t % 16 == u % 16
  {
  }

  /** Line c starts with the version of decoded byte First + (c - 1) * Block. */
  lemma LineOfBoundary(g: Layout, c: nat)
    requires g.Valid() && c > 0 && g.line * c < g.Raw(g.Size())
    ensures var j := g.First() + (c - 1) * g.Block();
            0 <= j < g.Size() && g.Boundary(j) && g.Raw(j) == g.line * c
  {
    var b, d := g.Block(), (c - 1) * g.Block();
    MulMono(0, c - 1, b);
    MulMono(1, c, g.line);
    QuotientOf(d, b, c - 1, 0);
    var j := g.First() + d;
    assert g.Raw(j) == j + (c - 1);
    assert g.line * c == g.line + (c - 1) * g.line == g.line + d + (c - 1);
    if j >= g.Size() {
      g.RawMono(g.Size(), j);
      assert false;
    }
  }

  lemma FirstByte(g: Layout, h: seq<seq<Byte>>, image: seq<Byte>, pick: seq<nat>)
    requires g.Valid() && History(g, h) && ReadFrom(g, h, image, pick)
    ensures |pick| > 0 && pick[0] < |h| && Stripped(g, image)[0] == h[pick[0]][0]
  {
    var p := g.Payload(0);
    g.EntryBound(0);
    g.RawStep(0);
    assert p == 0 && 0 / g.line == 0;
    g.ImageAt(h[pick[0]], 0);
    assert image[0] == g.Image(h[pick[0 / g.line]])[0];
  }

  /** The node version a line carries is that of the content it came from. */
  lemma LineVersion(g: Layout, h: seq<seq<Byte>>, image: seq<Byte>, pick: seq<nat>, c: nat)
    requires g.Valid() && History(g, h) && ReadFrom(g, h, image, pick) && c > 0 && g.line * c < |image|
    ensures c < |pick| && NodeVersion(image[g.line * c]) == NodeVersion(h[pick[c]][0])
  {
    var p := g.line * c;
    QuotientOf(p, g.line, c, 0);
    assert image[p] == g.Image(h[pick[p / g.line]])[p];
    LineOfBoundary(g, c);
    var j := g.First() + (c - 1) * g.Block();
    g.ImageAt(h[pick[c]], j);
    g.Governed(j);
  }

  /** Lines of the read come from contents a multiple of 16 writes apart. */
  ghost predicate Agree(g: Layout, image: seq<Byte>, pick: seq<nat>) {
    |pick| > 0 && forall c :: 0 < c && g.line * c < |image| ==> c < |pick| && pick[c] % 16 == pick[0] % 16
  }

  lemma AcceptedAgrees(g: Layout, h: seq<seq<Byte>>, image: seq<Byte>, pick: seq<nat>)
    requires g.Valid() && History(g, h) && ReadFrom(g, h, image, pick) && Accepts(g, image)
    ensures Agree(g, image, pick)
  {
    FirstByte(g, h, image, pick);
    forall c | 0 < c && g.line * c < |image|
      ensures c < |pick| && pick[c] % 16 == pick[0] % 16
    {
      LineVersion(g, h, image, pick, c);
      LineOfBoundary(g, c);
      var j := g.First() + (c - 1) * g.Block();
      assert image[g.Raw(j)] == Stripped(g, image)[g.VersionOffset(j)];
      g.Governed(j);
      VersionsRecur(g, h, pick[c], pick[0]);
    }
  }

  /** With at most 16 contents in play, the decoder accepts a read only if all
      of its lines come from one of them, and then returns that one. */
  lemma AcceptedIsUntorn(g: Layout, h: seq<seq<Byte>>, image: seq<Byte>, pick: seq<nat>)
    requires g.Valid() && History(g, h) && |h| <= 16 && ReadFrom(g, h, image, pick)
    requires Accepts(g, image)
    ensures forall c :: 0 < c && g.line * c < |image| ==> c < |pick| && pick[c] == pick[0]
    ensures |pick| > 0 && pick[0] < |h| && image == g.Image(h[pick[0]]) && Stripped(g, image) == h[pick[0]]
  {
    AcceptedAgrees(g, h, image, pick);
    hide Accepts, History, Uniform, Layout.Image, Layout.Raw;
    OneContent(g, h, image, pick);
  }

  lemma OneContent(g: Layout, h: seq<seq<Byte>>, image: seq<Byte>, pick: seq<nat>)
    requires g.Valid() && History(g, h) && ReadFrom(g, h, image, pick)
    requires forall c :: 0 < c && g.line * c < |image| ==> c < |pick| && pick[c] == pick[0]
    ensures |pick| > 0 && pick[0] < |h| && image == g.Image(h[pick[0]]) && Stripped(g, image) == h[pick[0]]
  {
    FirstByte(g, h, image, pick);
    StrippedImage(g, h[pick[0]]);
    forall p | 0 <= p < |image|
      ensures image[p] == g.Image(h[pick[0]])[p]
    {
      hide Layout.Raw, Layout.Encoded, Layout.Image, Uniform;
      DivFloor(p, g.line);
      assert image[p] == g.Image(h[pick[p / g.line]])[p];
    }
  }

  // ---- exactly which reads are accepted -----------------------------------

  /** The two contents carry the same versions throughout. */
  ghost predicate SameVersions(g: Layout, a: seq<Byte>, b: seq<Byte>)
    requires g.Valid() && |a| == |b| == g.Size()
  {
    a[0] == b[0] && forall i :: 0 <= i < g.span ==> g.EntryAt(i) < |a| && a[g.EntryAt(i)] == b[g.EntryAt(i)]
  }

  /** All lines of the read come from contents with the same versions. */
  ghost predicate OneVersion(g: Layout, h: seq<seq<Byte>>, image: seq<Byte>, pick: seq<nat>)
    requires g.Valid() && History(g, h) && ReadFrom(g, h, image, pick)
  {
    |pick| > 0 && forall c :: 0 <= c < |pick| && g.line * c < |image| ==> SameVersions(g, h[pick[c]], h[pick[0]])
  }

  lemma VersionRead(g: Layout, h: seq<seq<Byte>>, image: seq<Byte>, pick: seq<nat>, j: nat)
    requires g.Valid() && History(g, h) && ReadFrom(g, h, image, pick) && j < g.Size() && OneVersion(g, h, image, pick)
    ensures g.VersionOffset(j) < g.Size() && Stripped(g, image)[g.VersionOffset(j)] == h[pick[0]][g.VersionOffset(j)]
    ensures g.Boundary(j) ==> g.Raw(j) < |image| && image[g.Raw(j)] == h[pick[0]][g.VersionOffset(j)]
  {
    g.VersionOffsetBound(j);
    g.Governed(j);
    var o := g.VersionOffset(j);
    g.ImageAt(h[0], o);
    ByteRead(g, h, image, pick, g.Payload(o));
    g.ImageAt(h[pick[g.Payload(o) / g.line]], o);
    if g.Boundary(j) {
      g.ImageAt(h[0], j);
      ByteRead(g, h, image, pick, g.Raw(j));
      g.ImageAt(h[pick[g.Raw(j) / g.line]], j);
    }
  }

  lemma ByteRead(g: Layout, h: seq<seq<Byte>>, image: seq<Byte>, pick: seq<nat>, p: nat)
    requires g.Valid() && History(g, h) && ReadFrom(g, h, image, pick) && p < |image| && OneVersion(g, h, image, pick)
    ensures 0 <= p / g.line < |pick| && pick[p / g.line] < |h| && SameVersions(g, h[pick[p / g.line]], h[pick[0]])
    ensures |g.Image(h[pick[p / g.line]])| == |image| && image[p] == g.Image(h[pick[p / g.line]])[p]
  {
    hide SameVersions, Uniform;
    DivFloor(p, g.line);
  }

  /** Any mixture of contents with the same versions is accepted, torn or not. */
  lemma SameVersionsAccepted(g: Layout, h: seq<seq<Byte>>, image: seq<Byte>, pick: seq<nat>)
    requires g.Valid() && History(g, h) && ReadFrom(g, h, image, pick) && OneVersion(g, h, image, pick)
    ensures Accepts(g, image)
  {
    g.EntryBound(0);
    VersionFieldsRead(g, h, image, pick);
    LinesRead(g, h, image, pick);
    hide Layout.VersionOffset, Layout.Boundary, Layout.Raw, Layout.EntryAt, ReadFrom, OneVersion;
    assert Uniform(g, h[pick[0]], NodeVersion(h[pick[0]][0]));
  }

  lemma LinesRead(g: Layout, h: seq<seq<Byte>>, image: seq<Byte>, pick: seq<nat>)
    requires g.Valid() && History(g, h) && ReadFrom(g, h, image, pick) && OneVersion(g, h, image, pick)
    ensures forall j :: 0 <= j < g.Size() && g.Boundary(j) ==>
              && g.Raw(j) < |image| && g.VersionOffset(j) < g.Size()
              && image[g.Raw(j)] == Stripped(g, image)[g.VersionOffset(j)]
  {
    forall j | 0 <= j < g.Size() && g.Boundary(j)
      ensures g.Raw(j) < |image| && g.VersionOffset(j) < g.Size()
      ensures image[g.Raw(j)] == Stripped(g, image)[g.VersionOffset(j)]
    {
      VersionRead(g, h, image, pick, j);
    }
  }

  /** The version fields read are those of the first line's content. */
  lemma VersionFieldsRead(g: Layout, h: seq<seq<Byte>>, image: seq<Byte>, pick: seq<nat>)
    requires g.Valid() && History(g, h) && ReadFrom(g, h, image, pick) && OneVersion(g, h, image, pick)
    ensures Stripped(g, image)[0] == h[pick[0]][0]
    ensures forall i :: 0 <= i < g.span ==>
              g.EntryAt(i) < g.Size() && Stripped(g, image)[g.EntryAt(i)] == h[pick[0]][g.EntryAt(i)]
  {
    FirstByte(g, h, image, pick);
    forall i | 0 <= i < g.span
      ensures g.EntryAt(i) < g.Size() && Stripped(g, image)[g.EntryAt(i)] == h[pick[0]][g.EntryAt(i)]
    {
      g.EntryBound(i);
      g.VersionFields(i, g.EntryAt(i));
      VersionRead(g, h, image, pick, g.EntryAt(i));
    }
  }

  /** Whole-node writes step the node versions and leave the entry versions,
      the high four bits of each version, as they are. */
  ghost predicate EntriesSteady(g: Layout, h: seq<seq<Byte>>)
    requires g.Valid() && History(g, h)
  {
    forall t :: 0 <= t < |h| ==> SteadySince(g, h, t)
  }

  ghost predicate SteadySince(g: Layout, h: seq<seq<Byte>>, t: nat)
    requires g.Valid() && History(g, h) && t < |h|
  {
    && h[t][0] / 16 == h[0][0] / 16
    && forall i :: 0 <= i < g.span ==> g.EntryAt(i) < g.Size() && h[t][g.EntryAt(i)] / 16 == h[0][g.EntryAt(i)] / 16
  }

  lemma AgreeingVersions(g: Layout, h: seq<seq<Byte>>, t: nat, u: nat)
    requires g.Valid() && History(g, h) && EntriesSteady(g, h) && t < |h| && u < |h| && t % 16 == u % 16
    ensures SameVersions(g, h[t], h[u])
  {
    VersionsRecur(g, h, t, u);
    assert SteadySince(g, h, t) && SteadySince(g, h, u);
    assert Uniform(g, h[t], NodeVersion(h[t][0])) && Uniform(g, h[u], NodeVersion(h[u][0]));
  }

  /** A read of lines written by any number of whole-node writes is accepted
      exactly if the contents it mixes are multiples of 16 writes apart. */
  lemma AcceptedExactly(g: Layout, h: seq<seq<Byte>>, image: seq<Byte>, pick: seq<nat>)
    requires g.Valid() && History(g, h) && EntriesSteady(g, h) && ReadFrom(g, h, image, pick)
    ensures Accepts(g, image) <==> Agree(g, image, pick)
  {
    hide Accepts, EntriesSteady, SameVersions, Layout.Image, Uniform;
    if Accepts(g, image) {
      AcceptedAgrees(g, h, image, pick);
    }
    if Agree(g, image, pick) {
      forall c | 0 <= c < |pick| && g.line * c < |image|
        ensures SameVersions(g, h[pick[c]], h[pick[0]])
      {
        AgreeingVersions(g, h, pick[c], pick[0]);
      }
      SameVersionsAccepted(g, h, image, pick);
    }
  }

  // ---- 17 contents are too many -------------------------------------------

  /** A node of the given version whose other bytes are all t. */
  function Filled(g: Layout, t: Byte): (node: seq<Byte>)
    requires g.Valid()
    ensures |node| == g.Size()
    ensures forall p :: 0 <= p < |node| ==> node[p] == if g.IsVersion(p) then t % 16 else t
  {
    seq(g.Size(), p requires 0 <= p < g.Size() => if g.IsVersion(p) then (t % 16) as Byte else t)
  }

  lemma FilledVersions(g: Layout, t: Byte)
    requires g.Valid()
    ensures NodeVersion(Filled(g, t)[0]) == t % 16 && Filled(g, t)[0] / 16 == 0 && Uniform(g, Filled(g, t), t % 16)
    ensures forall i :: 0 <= i < g.span ==> g.EntryAt(i) < g.Size() && Filled(g, t)[g.EntryAt(i)] / 16 == 0
  {
    VersionFieldsAre(g);
    hide Layout.IsVersion, Layout.EntryAt, Filled;
  }

  lemma VersionFieldsAre(g: Layout)
    requires g.Valid()
    ensures 0 < g.Size() && g.IsVersion(0)
    ensures forall i :: 0 <= i < g.span ==> g.EntryAt(i) < g.Size() && g.IsVersion(g.EntryAt(i))
  {
    g.EntryBound(0);
    forall i | 0 <= i < g.span
      ensures g.EntryAt(i) < g.Size() && g.IsVersion(g.EntryAt(i))
    {
      g.EntryBound(i);
      g.VersionFields(i, g.EntryAt(i));
    }
  }

  lemma FilledHistory(g: Layout, h: seq<seq<Byte>>)
    requires g.Valid() && 0 < |h| <= 256 && forall t :: 0 <= t < |h| ==> h[t] == Filled(g, t)
    ensures History(g, h) && EntriesSteady(g, h)
  {
    forall t | 0 <= t < |h|
      ensures |h[t]| == g.Size() && Uniform(g, h[t], NodeVersion(h[t][0])) && NodeVersion(h[t][0]) == t % 16
    {
      FilledVersions(g, t);
    }
    hide Uniform, Filled, Layout.Valid;
    assert History(g, h);
    forall t | 0 <= t < |h|
      ensures SteadySince(g, h, t)
    {
      FilledVersions(g, t);
      FilledVersions(g, 0);
    }
  }

  /** In every layout with data bytes a and b in and behind the first line, 17
      contents allow a torn read that is accepted: the first line of content 0
      with the other lines of content 16. */
  lemma TornAccepted(g: Layout, a: nat, b: nat) returns (h: seq<seq<Byte>>, image: seq<Byte>, pick: seq<nat>)
    requires g.Valid() && a < g.First() <= b < g.Size() && !g.IsVersion(a) && !g.IsVersion(b)
    ensures |h| == 17 && History(g, h) && EntriesSteady(g, h) && ReadFrom(g, h, image, pick) && Accepts(g, image)
    ensures forall t :: 0 <= t < |h| ==> image != g.Image(h[t])
  {
    h := seq(17, t requires 0 <= t < 17 => Filled(g, t));
    FilledHistory(g, h);
    var n := g.Raw(g.Size());
    StrippedImage(g, h[0]);
    StrippedImage(g, h[16]);
    image := seq(n, p requires 0 <= p < n => if p < g.line then g.Image(h[0])[p] else g.Image(h[16])[p]);
    pick := seq(n + 1, c => if c == 0 then 0 else 16);
    TornRead(g, h, image, pick);
    AcceptedExactly(g, h, image, pick);
    forall t | 0 <= t < |h|
      ensures image != g.Image(h[t])
    {
      TornBytes(g, t, a, b);
      TornBytes(g, 0, a, b);
      TornBytes(g, 16, a, b);
      assert image[g.Payload(a)] == 0 && image[g.Payload(b)] == 16;
    }
  }

  lemma TornRead(g: Layout, h: seq<seq<Byte>>, image: seq<Byte>, pick: seq<nat>)
    requires g.Valid() && History(g, h) && |h| == 17 && 0 < |image| == g.Raw(g.Size()) && |pick| == |image| + 1
    requires forall c :: 0 <= c < |pick| ==> pick[c] == if c == 0 then 0 else 16
    requires |g.Image(h[0])| == |g.Image(h[16])| == |image|
    requires forall p :: 0 <= p < |image| ==> image[p] == if p < g.line then g.Image(h[0])[p] else g.Image(h[16])[p]
    ensures ReadFrom(g, h, image, pick) && Agree(g, image, pick)
  {
    forall p | 0 <= p < |image|
      ensures 0 <= p / g.line < |pick| && |g.Image(h[pick[p / g.line]])| == |image|
      ensures image[p] == g.Image(h[pick[p / g.line]])[p]
    {
      LineIndex(p, g.line);
    }
    LineIndex(|image| - 1, g.line);
    forall c | 0 < c && g.line * c < |image|
      ensures c < |pick|
    {
      MulMono(1, g.line, c);
    }
  }

  lemma LineIndex(p: nat, line: nat)
    requires line > 0
    ensures 0 <= p / line <= p && (p / line == 0 <==> p < line)
  {
    DivFloor(p, line);
    if p / line > p {
      MulMono(1, line, p / line);
    }
  }

  lemma TornBytes(g: Layout, t: Byte, a: nat, b: nat)
    requires g.Valid() && a < g.First() <= b < g.Size() && !g.IsVersion(a) && !g.IsVersion(b)
    ensures |g.Image(Filled(g, t))| == g.Raw(g.Size())
    ensures 0 <= g.Payload(a) < g.line <= g.Payload(b) < g.Raw(g.Size())
    ensures g.Image(Filled(g, t))[g.Payload(a)] == t && g.Image(Filled(g, t))[g.Payload(b)] == t
  {
    g.ImageAt(Filled(g, t), a);
    g.ImageAt(Filled(g, t), b);
    g.RawStep(a);
    g.RawStep(b);
  }
}
