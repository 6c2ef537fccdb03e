/** The index as a byte string: three nested formats, each part behind its
    length, and back. */
module Serialization {
  import opened DivMod
  import opened Keys
  import opened ChainLinks
  import opened LeafStore

  const SIZE_LIMIT: nat := 0x8000_0000

  // ---- fixed-width numbers ------------------------------------------------

  /** The low w bytes of x, least significant first. */
  function Put(x: nat, w: nat): (s: seq<nat>)
    ensures |s| == w
  {
    if w == 0 then [] else [x % 256] + Put(x / 256, w - 1)
  }

  function Get(s: seq<nat>): nat {
    if s == [] then 0 else s[0] + 256 * Get(s[1..])
  }

  lemma {:induction false} GetPut(x: nat, w: nat)
    ensures x < Pow256(w) ==> Get(Put(x, w)) == x
    ensures Get(Put(x, w)) <= x
  {
    if w > 0 {
      GetPut(x / 256, w - 1);
      assert Put(x, w)[1..] == Put(x / 256, w - 1);
    }
  }

  /** A size read back as a signed 32-bit number. */
  function GetSize(s: seq<nat>): int {
    var x := Get(s);
    if x < SIZE_LIMIT then x else x - 2 * SIZE_LIMIT
  }

  /** A size survives exactly below 2^31. */
  lemma SizeSurvives(n: nat)
    ensures GetSize(Put(n, 4)) == n <==> n < SIZE_LIMIT
  {
    GetPut(n, 4);
    assert Pow256(4) == 2 * SIZE_LIMIT;
  }

  // ---- the values ---------------------------------------------------------

  /** Entries as 64-bit words. */
  datatype Table = Table(table: seq<nat>, syn: seq<nat>) {
    ghost predicate Valid() { |syn| == SYNONYM_MAX && Words64(table) && Words64(syn) }
  }

  /** Slope and intercept as the eight bytes of a double. */
  datatype SubModel = SubModel(slope: seq<nat>, intercept: seq<nat>, capacity: nat, ltable: Table) {
    ghost predicate Valid() { |slope| == 8 && |intercept| == 8 && capacity < Pow256(8) && ltable.Valid() }
  }

  datatype Model = Model(key: nat, sub: SubModel) {
    ghost predicate Valid(keyLen: nat) { key < Pow256(keyLen) && sub.Valid() }
  }

  ghost predicate Words64(s: seq<nat>) { forall i :: 0 <= i < |s| ==> s[i] < Pow256(8) }

  // ---- writing ------------------------------------------------------------

  function Words(s: seq<nat>): (b: seq<nat>)
    ensures |b| == 8 * |s|
  {
    if s == [] then [] else Words(s[..|s| - 1]) + Put(s[|s| - 1], 8)
  }

  function TableBytes(t: Table): seq<nat> { Put(|t.table|, 4) + Words(t.table) + Words(t.syn) }

  function SubModelBytes(m: SubModel): seq<nat> {
    m.slope + m.intercept + Put(m.capacity, 8) + Put(|TableBytes(m.ltable)|, 4) + TableBytes(m.ltable)
  }

  function ModelBytes(m: Model, keyLen: nat): seq<nat> {
    Put(m.key, keyLen) + Put(|SubModelBytes(m.sub)|, 4) + SubModelBytes(m.sub)
  }

  function ModelsBytes(ms: seq<Model>, keyLen: nat): seq<nat> {
    if ms == [] then [] else ModelBytes(ms[0], keyLen) + ModelsBytes(ms[1..], keyLen)
  }

  function IndexBytes(ms: seq<Model>, keyLen: nat): seq<nat> {
    Put(|ModelsBytes(ms, keyLen)|, 4) + ModelsBytes(ms, keyLen)
  }

  // ---- reading ------------------------------------------------------------

  /** n words from position `from` on. */
  function WordsAt(s: seq<nat>, from: nat, n: nat): (ws: seq<nat>)
    requires from + 8 * n <= |s|
    ensures |ws| == n && forall i :: 0 <= i < n ==> ws[i] == Get(s[from + 8 * i..from + 8 * i + 8])
  {
    seq(n, i requires 0 <= i < n => Get(s[from + 8 * i..from + 8 * i + 8]))
  }

  function ParseTable(s: seq<nat>): Option<Table> {
    if |s| <= 4 then None
    else
      var n := GetSize(s[..4]);
      if n < 0 || |s| < 4 + 8 * (n + SYNONYM_MAX) then None
      else Some(Table(WordsAt(s, 4, n), WordsAt(s, 4 + 8 * n, SYNONYM_MAX)))
  }

  function ParseSubModel(s: seq<nat>): Option<SubModel> {
    if |s| < 28 || GetSize(s[24..28]) < 0 || |s| != 28 + GetSize(s[24..28]) then None
    else
      match ParseTable(s[28..])
      case None => None
      case Some(t) => Some(SubModel(s[..8], s[8..16], Get(s[16..24]), t))
  }

  /** The model at the front, and how many bytes it takes. */
  function ParseModel(s: seq<nat>, keyLen: nat): (r: Option<(Model, nat)>)
    ensures r.Some? ==> 0 < r.value.1 <= |s|
  {
    if |s| < keyLen + 4 then None
    else
      var n := GetSize(s[keyLen..keyLen + 4]);
      if n < 0 || |s| < keyLen + 4 + n then None
      else
        match ParseSubModel(s[keyLen + 4..keyLen + 4 + n])
        case None => None
        case Some(m) => Some((Model(Get(s[..keyLen]), m), keyLen + 4 + n))
  }

  function ParseModels(s: seq<nat>, keyLen: nat): Option<seq<Model>>
    decreases |s|
  {
    if s == [] then Some([])
    else
      match ParseModel(s, keyLen)
      case None => None
      case Some(m) =>
        match ParseModels(s[m.1..], keyLen)
        case None => None
        case Some(ms) => Some([m.0] + ms)
  }

  /** The length at the front has to be that of the rest. */
  function ParseIndex(s: seq<nat>, keyLen: nat): Option<seq<Model>> {
    if |s| <= 4 || |s| != 4 + GetSize(s[..4]) then None else ParseModels(s[4..], keyLen)
  }

  // ---- round trips --------------------------------------------------------

  lemma {:induction false} WordsBack(s: seq<nat>, i: nat)
    requires i < |s| && Words64(s)
    ensures Get(Words(s)[8 * i..8 * i + 8]) == s[i]
  {
    var n := |s| - 1;
    if i == n {
      GetPut(s[n], 8);
      assert Words(s)[8 * n..8 * n + 8] == Put(s[n], 8);
    } else {
      WordsBack(s[..n], i);
      assert Words(s)[8 * i..8 * i + 8] == Words(s[..n])[8 * i..8 * i + 8];
    }
  }

  lemma WordsAtBack(b: seq<nat>, from: nat, s: seq<nat>)
    requires Words64(s) && from + 8 * |s| <= |b| && b[from..from + 8 * |s|] == Words(s)
    ensures WordsAt(b, from, |s|) == s
  {
    hide Words, Get, WordsAt;
    forall i | 0 <= i < |s|
      ensures WordsAt(b, from, |s|)[i] == s[i]
    {
      WordAtBack(b, from, s, i);
    }
  }

  lemma WordAtBack(b: seq<nat>, from: nat, s: seq<nat>, i: nat)
    requires Words64(s) && from + 8 * |s| <= |b| && b[from..from + 8 * |s|] == Words(s) && i < |s|
    ensures Get(b[from + 8 * i..from + 8 * i + 8]) == s[i]
  {
    hide Words, Get;
    WordsBack(s, i);
    Part(b, from, from + 8 * |s|, 8 * i, 8 * i + 8);
  }

  lemma Part(b: seq<nat>, s: nat, e: nat, i: nat, j: nat)
    requires s <= e <= |b| && i <= j <= e - s
    ensures b[s..e][i..j] == b[s + i..s + j]
  {
    forall k | 0 <= k < j - i
      ensures b[s..e][i..j][k] == b[s + i..s + j][k]
    {
      assert b[s..e][i + k] == b[s + i + k];
    }
  }

  lemma TableBack(t: Table)
    requires t.Valid() && |TableBytes(t)| < SIZE_LIMIT
    ensures ParseTable(TableBytes(t)) == Some(t)
  {
    hide Words, Put, Get, GetSize, WordsAt, Words64;
    var b, n := TableBytes(t), |t.table|;
    Three(Put(n, 4), Words(t.table), Words(t.syn));
    SizeSurvives(n);
    WordsAtBack(b, 4, t.table);
    WordsAtBack(b, 4 + 8 * n, t.syn);
  }

  lemma Three(x: seq<nat>, y: seq<nat>, z: seq<nat>)
    ensures var b := x + y + z;
            b[..|x|] == x && b[|x|..|x| + |y|] == y && b[|x| + |y|..|x| + |y| + |z|] == z
  {
  }

  lemma SubModelBack(m: SubModel)
    requires m.Valid() && |SubModelBytes(m)| < SIZE_LIMIT
    ensures ParseSubModel(SubModelBytes(m)) == Some(m)
  {
    var b, t := SubModelBytes(m), TableBytes(m.ltable);
    assert b[..8] == m.slope && b[8..16] == m.intercept && b[16..24] == Put(m.capacity, 8);
    assert b[24..28] == Put(|t|, 4) && b[28..] == t;
    GetPut(m.capacity, 8);
    SizeSurvives(|t|);
    TableBack(m.ltable);
  }

  lemma ModelBack(m: Model, keyLen: nat, rest: seq<nat>)
    requires m.Valid(keyLen) && |ModelBytes(m, keyLen)| < SIZE_LIMIT
    ensures ParseModel(ModelBytes(m, keyLen) + rest, keyLen) == Some((m, |ModelBytes(m, keyLen)|))
  {
    hide SubModelBytes, ParseSubModel, Put, Get, GetSize, SubModel.Valid;
    var b, x := ModelBytes(m, keyLen) + rest, SubModelBytes(m.sub);
    assert b[..keyLen] == Put(m.key, keyLen) && b[keyLen..keyLen + 4] == Put(|x|, 4);
    assert b[keyLen + 4..keyLen + 4 + |x|] == x;
    GetPut(m.key, keyLen);
    SizeSurvives(|x|);
    SubModelBack(m.sub);
  }

  lemma {:induction false} ModelsBack(ms: seq<Model>, keyLen: nat)
    requires (forall i :: 0 <= i < |ms| ==> ms[i].Valid(keyLen)) && |ModelsBytes(ms, keyLen)| < SIZE_LIMIT
    ensures ParseModels(ModelsBytes(ms, keyLen), keyLen) == Some(ms)
  {
    hide ModelBytes, ParseModel, Model.Valid;
    if ms != [] {
      var b, rest := ModelBytes(ms[0], keyLen), ModelsBytes(ms[1..], keyLen);
      ModelBack(ms[0], keyLen, rest);
      assert (b + rest)[|b|..] == rest;
      ModelsBack(ms[1..], keyLen);
      assert [ms[0]] + ms[1..] == ms;
    }
  }

  /** Reading back a written index restores every key, slope, intercept,
      capacity, leaf table and synonym table exactly if the models take up less
      than 2^31 bytes. */
  lemma IndexBack(ms: seq<Model>, keyLen: nat)
    requires ms != [] && forall i :: 0 <= i < |ms| ==> ms[i].Valid(keyLen)
    ensures ParseIndex(IndexBytes(ms, keyLen), keyLen) == Some(ms) <==> |ModelsBytes(ms, keyLen)| < SIZE_LIMIT
  {
    var b, x := IndexBytes(ms, keyLen), ModelsBytes(ms, keyLen);
    assert b[..4] == Put(|x|, 4) && b[4..] == x;
    SizeSurvives(|x|);
    if |x| < SIZE_LIMIT {
      ModelsBack(ms, keyLen);
      assert |x| > 0;
    }
  }

  // ---- where each byte stands ---------------------------------------------

  function ByteOf(x: nat, i: nat): nat { x / Pow256(i) % 256 }

  /** Numbers are little-endian. */
  lemma {:induction false} PutAt(x: nat, w: nat, i: nat)
    requires i < w
    ensures Put(x, w)[i] == ByteOf(x, i)
  {
    if i > 0 {
      PutAt(x / 256, w - 1, i - 1);
      DivTwice(x, Pow256(i - 1));
    } else {
      assert x / 1 == x;
    }
  }

  lemma DivTwice(x: nat, p: nat)
    requires p > 0
    ensures x / 256 / p == x / (256 * p)
  {
    var q := x / 256 / p;
    assert x == x / 256 * 256 + x % 256 && x / 256 == q * p + x / 256 % p;
    assert x == q * (256 * p) + (x / 256 % p * 256 + x % 256);
    QuotientOf(x, 256 * p, q, x / 256 % p * 256 + x % 256);
  }

  lemma {:induction false} WordsByte(s: seq<nat>, e: nat, j: nat)
    requires e < |s| && j < 8
    ensures Words(s)[8 * e + j] == ByteOf(s[e], j)
  {
    hide Put, ByteOf;
    if e == |s| - 1 {
      PutAt(s[e], 8, j);
    } else {
      WordsByte(s[..|s| - 1], e, j);
    }
  }

  /** A stored table: the number of slots, then the entries of the slots, then
      the synonym entries. */
  lemma TableLayout(t: Table, e: nat, j: nat)
    requires e < |t.table| + |t.syn| && j < 8
    ensures var b := TableBytes(t);
            && |b| == 4 + 8 * (|t.table| + |t.syn|)
            && (j < 4 ==> b[j] == ByteOf(|t.table|, j))
            && b[4 + 8 * e + j] == ByteOf(if e < |t.table| then t.table[e] else t.syn[e - |t.table|], j)
  {
    hide Put, ByteOf, Words;
    if j < 4 {
      PutAt(|t.table|, 4, j);
    }
    if e < |t.table| {
      WordsByte(t.table, e, j);
    } else {
      WordsByte(t.syn, e - |t.table|, j);
    }
  }

  /** A stored model: slope, intercept, capacity, the length of its table, and the
      table. */
  lemma SubModelLayout(m: SubModel, j: nat)
    requires m.Valid() && j < 8
    ensures var b, t := SubModelBytes(m), TableBytes(m.ltable);
            && |b| == 28 + |t| && b[..8] == m.slope && b[8..16] == m.intercept && b[28..] == t
            && b[16 + j] == ByteOf(m.capacity, j) && (j < 4 ==> b[24 + j] == ByteOf(|t|, j))
  {
    hide Put, ByteOf, TableBytes;
    PutAt(m.capacity, 8, j);
    if j < 4 {
      PutAt(|TableBytes(m.ltable)|, 4, j);
    }
  }

  /** A stored index: the length of all models, then each of them behind its key
      and its own length. */
  lemma IndexLayout(ms: seq<Model>, keyLen: nat, j: nat)
    requires ms != [] && j < keyLen
    ensures var b, x := IndexBytes(ms, keyLen), SubModelBytes(ms[0].sub);
            && |b| >= 8 + keyLen + |x| && (j < 4 ==> b[j] == ByteOf(|b| - 4, j)) && b[4 + j] == ByteOf(ms[0].key, j)
            && (j < 4 ==> b[4 + keyLen + j] == ByteOf(|x|, j)) && b[8 + keyLen..8 + keyLen + |x|] == x
            && b[8 + keyLen + |x|..] == ModelsBytes(ms[1..], keyLen)
  {
    hide Put, ByteOf, SubModelBytes;
    PutAt(ms[0].key, keyLen, j);
    if j < 4 {
      PutAt(|ModelsBytes(ms, keyLen)|, 4, j);
      PutAt(|SubModelBytes(ms[0].sub)|, 4, j);
    }
  }

  // ---- as the program does it ---------------------------------------------

  method SerializeTable(t: Table) returns (res: seq<nat>)
    ensures res == TableBytes(t)
  {
    res := Put(|t.table|, 4);
    for i := 0 to |t.table|
      invariant res == Put(|t.table|, 4) + Words(t.table[..i])
    {
      assert t.table[..i + 1][..i] == t.table[..i];
      res := res + Put(t.table[i], 8);
    }
    assert t.table[..|t.table|] == t.table;
    for i := 0 to |t.syn|
      invariant res == Put(|t.table|, 4) + Words(t.table) + Words(t.syn[..i])
    {
      assert t.syn[..i + 1][..i] == t.syn[..i];
      res := res + Put(t.syn[i], 8);
    }
    assert t.syn[..|t.syn|] == t.syn;
  }

  method DeserializeTable(s: seq<nat>) returns (r: Option<Table>)
    ensures r == ParseTable(s)
  {
    if |s| <= 4 {
      return None;
    }
    var n := GetSize(s[..4]);
    if n < 0 || |s| < 4 + 8 * (n + SYNONYM_MAX) {
      return None;
    }
    var table, syn, cur := [], [], 4;
    for i := 0 to n
      invariant cur == 4 + 8 * i && table == WordsAt(s, 4, i)
    {
      table := table + [Get(s[cur..cur + 8])];
      cur := cur + 8;
    }
    for i := 0 to SYNONYM_MAX
      invariant cur == 4 + 8 * n + 8 * i && syn == WordsAt(s, 4 + 8 * n, i)
    {
      syn := syn + [Get(s[cur..cur + 8])];
      cur := cur + 8;
    }
    return Some(Table(table, syn));
  }

  method SerializeIndex(ms: seq<Model>, keyLen: nat) returns (res: seq<nat>)
    ensures res == IndexBytes(ms, keyLen)
  {
    hide SubModelBytes, Put, ModelsBytes;
    var ans := [];
    assert ms[0..] == ms;
    for i := 0 to |ms|
      invariant ans + ModelsBytes(ms[i..], keyLen) == ModelsBytes(ms, keyLen)
    {
      FirstModel(ms, i, keyLen);
      var sub := SubModelBytes(ms[i].sub);
      ans := ans + (Put(ms[i].key, keyLen) + Put(|sub|, 4) + sub);
    }
    NoModels(ms[|ms|..], keyLen);
    res := Put(|ans|, 4) + ans;
  }

  lemma FirstModel(ms: seq<Model>, i: nat, keyLen: nat)
    requires i < |ms|
    ensures ModelsBytes(ms[i..], keyLen) == ModelBytes(ms[i], keyLen) + ModelsBytes(ms[i + 1..], keyLen)
  {
    assert ms[i..][1..] == ms[i + 1..];
  }

  lemma NoModels(ms: seq<Model>, keyLen: nat)
    requires ms == []
    ensures ModelsBytes(ms, keyLen) == []
  {
  }

  /** The reading loop: key, length, model, until the end of the string. */
  method DeserializeIndex(s: seq<nat>, keyLen: nat) returns (r: Option<seq<Model>>)
    ensures r == ParseIndex(s, keyLen)
  {
    if |s| <= 4 || |s| != 4 + GetSize(s[..4]) {
      return None;
    }
    hide ParseModel, GetSize;
    var ms, cur := [], 4;
    ModelsFrom(s[cur..], keyLen);
    while cur < |s|
      invariant 4 <= cur <= |s| && ParseModels(s[4..], keyLen) == Prepended(ms, ParseModels(s[cur..], keyLen))
    {
      ParsedOne(s[cur..], keyLen, ms);
      var m := ParseModel(s[cur..], keyLen);
      if m.None? {
        return None;
      }
      assert s[cur..][m.value.1..] == s[cur + m.value.1..];
      ms := ms + [m.value.0];
      cur := cur + m.value.1;
    }
    assert ms + [] == ms;
    return Some(ms);
  }

  function Prepended(ms: seq<Model>, r: Option<seq<Model>>): Option<seq<Model>> {
    match r
    case None => None
    case Some(rest) => Some(ms + rest)
  }

  lemma ModelsFrom(s: seq<nat>, keyLen: nat)
    ensures ParseModels(s, keyLen) == Prepended([], ParseModels(s, keyLen))
  {
    var r := ParseModels(s, keyLen);
    assert r.Some? ==> [] + r.value == r.value;
  }

  lemma ParsedOne(s: seq<nat>, keyLen: nat, ms: seq<Model>)
    requires s != []
    ensures var m := ParseModel(s, keyLen);
            Prepended(ms, ParseModels(s, keyLen))
            == if m.None? then None else Prepended(ms + [m.value.0], ParseModels(s[m.value.1..], keyLen))
  {
    hide ParseModel;
    var m := ParseModel(s, keyLen);
    if m.Some? && ParseModels(s[m.value.1..], keyLen).Some? {
      var rest := ParseModels(s[m.value.1..], keyLen).value;
      assert ms + ([m.value.0] + rest) == ms + [m.value.0] + rest;
    }
  }
}
