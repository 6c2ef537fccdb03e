/** A table slot's chain of leaves as values: which leaf a key belongs to, the
    half split, and what an insert and an update do to the chain. */
module LeafChain {

  datatype Rec = Rec(key: nat, value: int)

  /** The records of the main leaf, then those of each synonym leaf. */
  type Chain = seq<seq<Rec>>

  ghost predicate KeysIncrease(s: seq<Rec>) {
    forall i, j :: 0 <= i < j < |s| ==> s[i].key < s[j].key
  }

  ghost predicate Before(s: seq<Rec>, t: seq<Rec>) {
    forall i, j :: 0 <= i < |s| && 0 <= j < |t| ==> s[i].key < t[j].key
  }

  ghost predicate HasKey(s: seq<Rec>, k: nat) {
    exists i :: 0 <= i < |s| && s[i].key == k
  }

  /** Leaves of at most n records, in increasing order within and across; only
      the main leaf may be empty. */
  ghost predicate ChainOk(c: Chain, n: nat) {
    && |c| > 0
    && (forall a :: 0 <= a < |c| ==> |c[a]| <= n && KeysIncrease(c[a]))
    && (forall a :: 0 < a < |c| ==> |c[a]| > 0)
    && (forall a, b :: 0 <= a < b < |c| ==> Before(c[a], c[b]))
  }

  ghost predicate Holds(c: Chain, r: Rec) {
    exists a :: 0 <= a < |c| && r in c[a]
  }

  ghost predicate Has(c: Chain, k: nat) {
    exists a :: 0 <= a < |c| && HasKey(c[a], k)
  }

  function Flat(c: Chain): seq<Rec> {
    if c == [] then [] else Flat(c[..|c| - 1]) + c[|c| - 1]
  }

  /** Read in order, the whole chain is strictly sorted. */
  lemma {:induction false} FlatSorted(c: Chain, n: nat)
    requires ChainOk(c, n)
    ensures KeysIncrease(Flat(c))
  {
    hide Before, KeysIncrease;
    var m := |c| - 1;
    if m == 0 {
      assert Flat(c) == Flat([]) + c[0] == c[0];
    } else {
      assert ChainOk(c[..m], n);
      FlatSorted(c[..m], n);
      FlatBefore(c[..m], c[m]);
      Joined(Flat(c[..m]), c[m]);
    }
  }

  lemma {:induction false} FlatBefore(c: Chain, t: seq<Rec>)
    requires forall a :: 0 <= a < |c| ==> Before(c[a], t)
    ensures Before(Flat(c), t)
  {
    if c != [] {
      FlatBefore(c[..|c| - 1], t);
    }
  }

  lemma Joined(s: seq<Rec>, t: seq<Rec>)
    requires KeysIncrease(s) && KeysIncrease(t) && Before(s, t)
    ensures KeysIncrease(s + t)
  {
  }

  function InsertedAt<T>(s: seq<T>, p: nat, x: T): (t: seq<T>)
    requires p <= |s|
    ensures |t| == |s| + 1
    ensures forall a :: 0 <= a < |t| ==> t[a] == if a < p then s[a] else if a == p then x else s[a - 1]
  {
    s[..p] + [x] + s[p..]
  }

  // ---- which leaf ---------------------------------------------------------

  /** From leaf i backwards, the first whose least key is not above k. */
  function Pick(c: Chain, k: nat, i: nat): (p: nat)
    requires i < |c| && forall a :: 0 < a < |c| ==> |c[a]| > 0
    ensures p <= i && (p > 0 ==> c[p][0].key <= k)
    ensures forall a :: p < a <= i ==> c[a][0].key > k
  {
    if i == 0 || c[i][0].key <= k then i else Pick(c, k, i - 1)
  }

  /** The leaf that a key belongs to. */
  function Target(c: Chain, k: nat): (p: nat)
    requires |c| > 0 && forall a :: 0 < a < |c| ==> |c[a]| > 0
    ensures p < |c|
  {
    Pick(c, k, |c| - 1)
  }

  lemma PickStep(c: Chain, k: nat, i: nat)
    requires i < |c| && forall a :: 0 < a < |c| ==> |c[a]| > 0
    ensures Pick(c, k, i) == if i == 0 || c[i][0].key <= k then i else Pick(c, k, i - 1)
    ensures Target(c, k) == Pick(c, k, |c| - 1)
  {
  }

  /** A key is in the chain only in the leaf it belongs to, and all leaves
      before hold smaller keys, all leaves after larger ones. */
  lemma TargetDecides(c: Chain, n: nat, k: nat)
    requires ChainOk(c, n)
    ensures var p := Target(c, k);
            && (Has(c, k) <==> HasKey(c[p], k))
            && (forall a, i :: 0 <= a < p && 0 <= i < |c[a]| ==> c[a][i].key < k)
            && (forall a, i :: p < a < |c| && 0 <= i < |c[a]| ==> c[a][i].key > k)
  {
    var p := Target(c, k);
    forall a, i | 0 <= a < p && 0 <= i < |c[a]|
      ensures c[a][i].key < k
    {
      assert Before(c[a], c[p]);
    }
    forall a, i | p < a < |c| && 0 <= i < |c[a]|
      ensures c[a][i].key > k
    {
      assert KeysIncrease(c[a]);
    }
  }

  lemma TargetUnique(c: Chain, n: nat, k: nat, q: nat)
    requires ChainOk(c, n) && q < |c| && (q > 0 ==> c[q][0].key <= k)
    requires q + 1 < |c| ==> c[q + 1][0].key > k
    ensures Target(c, k) == q
  {
    var p := Target(c, k);
    assert p > q + 1 ==> Before(c[q + 1], c[p]);
  }

  // ---- one leaf -----------------------------------------------------------

  /** How many records from i on have keys below k, up to the first that does not. */
  function Position(s: seq<Rec>, k: nat, i: nat): (p: nat)
    requires i <= |s|
    ensures i <= p <= |s| && (p < |s| ==> s[p].key >= k)
    ensures forall u :: i <= u < p ==> s[u].key < k
    decreases |s| - i
  {
    if i == |s| || s[i].key >= k then i else Position(s, k, i + 1)
  }

  function InsertSorted(s: seq<Rec>, r: Rec): seq<Rec> {
    InsertedAt(s, Position(s, r.key, 0), r)
  }

  lemma InsertSortedOk(s: seq<Rec>, r: Rec)
    requires KeysIncrease(s) && !HasKey(s, r.key)
    ensures KeysIncrease(InsertSorted(s, r)) && |InsertSorted(s, r)| == |s| + 1
    ensures forall x :: x in InsertSorted(s, r) <==> x in s || x == r
  {
    var p, t := Position(s, r.key, 0), InsertSorted(s, r);
    InsertedAtHas(s, p, r);
    forall i, j | 0 <= i < j < |t|
      ensures t[i].key < t[j].key
    {
      var i', j' := if i <= p then i else i - 1, if j <= p then j else j - 1;
      assert i' < j' < |s| ==> s[i'].key < s[j'].key;
      assert i == p ==> s[j'].key >= s[p].key > r.key;
    }
  }

  lemma InsertedAtHas<T>(s: seq<T>, p: nat, x: T)
    requires p <= |s|
    ensures forall y :: y in InsertedAt(s, p, x) <==> y in s || y == x
  {
    assert forall y :: y in s <==> y in s[..p] || y in s[p..];
  }

  /** The first record with key k gets value v. */
  function Rebound(s: seq<Rec>, k: nat, v: int): seq<Rec> {
    var p := Position(s, k, 0);
    if p < |s| && s[p].key == k then s[p := Rec(k, v)] else s
  }

  // ---- the half split -----------------------------------------------------

  /** The upper half of leaf p moves to a new leaf right behind it. */
  function Halved(c: Chain, p: nat, n: nat): (d: Chain)
    requires p < |c| && |c[p]| == n
    ensures |d| == |c| + 1
  {
    c[..p] + [c[p][..n / 2], c[p][n / 2..]] + c[p + 1..]
  }

  lemma HalvedAt(c: Chain, p: nat, n: nat, a: nat)
    requires p < |c| && |c[p]| == n && a <= |c|
    ensures Halved(c, p, n)[a] ==
            if a < p then c[a] else if a == p then c[p][..n / 2] else if a == p + 1 then c[p][n / 2..] else c[a - 1]
  {
  }

  lemma HalvedOk(c: Chain, p: nat, n: nat)
    requires ChainOk(c, n) && p < |c| && |c[p]| == n && n >= 2
    ensures ChainOk(Halved(c, p, n), n)
  {
    var d: Chain := Halved(c, p, n);
    forall a | 0 <= a < |d|
      ensures |d[a]| <= n && KeysIncrease(d[a]) && (a > 0 ==> |d[a]| > 0)
    {
      HalvedAt(c, p, n, a);
      assert KeysIncrease(c[p]) && (a > p ==> KeysIncrease(c[a - 1])) && (a < p ==> KeysIncrease(c[a]));
    }
    forall a, b | 0 <= a < b < |d|
      ensures Before(d[a], d[b])
    {
      HalvedBefore(c, p, n, a, b);
    }
  }

  lemma HalvedBefore(c: Chain, p: nat, n: nat, a: nat, b: nat)
    requires ChainOk(c, n) && p < |c| && |c[p]| == n && a < b <= |c|
    ensures Before(Halved(c, p, n)[a], Halved(c, p, n)[b])
  {
    HalvedAt(c, p, n, a);
    HalvedAt(c, p, n, b);
    hide Halved, Before, KeysIncrease;
    if a == p && b == p + 1 {
      assert KeysIncrease(c[p]);
      SlicesBefore(c[p], n / 2);
    } else {
      var a', b' := if a <= p then a else a - 1, if b <= p then b else b - 1;
      assert Before(c[a'], c[b']);
      HalvesBefore(c[a'], c[b'], n / 2);
    }
  }

  lemma SlicesBefore(s: seq<Rec>, m: nat)
    requires KeysIncrease(s) && m <= |s|
    ensures Before(s[..m], s[m..])
  {
  }

  lemma HalvesBefore(s: seq<Rec>, t: seq<Rec>, m: nat)
    requires Before(s, t)
    ensures m <= |s| ==> Before(s[..m], t) && Before(s[m..], t)
    ensures m <= |t| ==> Before(s, t[..m]) && Before(s, t[m..])
  {
  }

  lemma HalvedHolds(c: Chain, p: nat, n: nat)
    requires p < |c| && |c[p]| == n
    ensures forall r :: Holds(Halved(c, p, n), r) <==> Holds(c, r)
  {
    var d: Chain := Halved(c, p, n);
    assert c[p] == c[p][..n / 2] + c[p][n / 2..];
    forall r | Holds(d, r)
      ensures Holds(c, r)
    {
      var a :| 0 <= a < |d| && r in d[a];
      HalvedAt(c, p, n, a);
      assert r in c[if a <= p then a else a - 1];
    }
    forall r | Holds(c, r)
      ensures Holds(d, r)
    {
      var a :| 0 <= a < |c| && r in c[a];
      var b := if a < p || (a == p && r in c[p][..n / 2]) then a else a + 1;
      HalvedAt(c, p, n, b);
      assert r in d[b];
    }
  }

  /** The records of c, and r. */
  ghost predicate Gains(c: Chain, d: Chain, r: Rec) {
    forall x :: Holds(d, x) <==> Holds(c, x) || x == r
  }

  // ---- insert and update --------------------------------------------------

  /** The chain after an insert of a key it does not have. */
  function Inserted(c: Chain, r: Rec, n: nat): Chain
    requires |c| > 0 && n >= 2 && forall a :: 0 < a < |c| ==> |c[a]| > 0
  {
    var p := Target(c, r.key);
    if |c[p]| < n then c[p := InsertSorted(c[p], r)]
    else if |c[p]| > n then c
    else
      var d: Chain := Halved(c, p, n);
      var q := if d[p + 1][0].key <= r.key then p + 1 else p;
      d[q := InsertSorted(d[q], r)]
  }

  /** Inserting where the key belongs keeps the chain in order and adds r. */
  lemma PlacedOk(c: Chain, r: Rec, n: nat, p: nat)
    requires ChainOk(c, n) && p == Target(c, r.key) && |c[p]| < n && !Has(c, r.key)
    ensures ChainOk(c[p := InsertSorted(c[p], r)], n)
    ensures Gains(c, c[p := InsertSorted(c[p], r)], r)
  {
    var t := InsertSorted(c[p], r);
    TargetDecides(c, n, r.key);
    assert KeysIncrease(c[p]);
    InsertSortedOk(c[p], r);
    forall a | 0 <= a < |c| && a != p
      ensures if a < p then Before(c[a], t) else Before(t, c[a])
    {
      InsertedBefore(c, p, a, r);
    }
    ReplacedOk(c, p, t, n);
    ReplacedHolds(c, p, t, r);
  }

  lemma InsertedBefore(c: Chain, p: nat, a: nat, r: Rec)
    requires p < |c| && a < |c| && a != p
    requires if a < p then Before(c[a], c[p]) && Before(c[a], [r]) else Before(c[p], c[a]) && Before([r], c[a])
    ensures if a < p then Before(c[a], InsertSorted(c[p], r)) else Before(InsertSorted(c[p], r), c[a])
  {
    var s, t := c[p], InsertSorted(c[p], r);
    forall u | 0 <= u < |t|
      ensures t[u] == r || exists w :: 0 <= w < |s| && t[u] == s[w]
    {
    }
    assert [r][0] == r;
  }

  /** Another content in the same place among its neighbours. */
  lemma ReplacedOk(c: Chain, p: nat, t: seq<Rec>, n: nat)
    requires ChainOk(c, n) && p < |c| && |t| <= n && KeysIncrease(t) && (p > 0 ==> |t| > 0)
    requires forall a :: 0 <= a < |c| && a != p ==> if a < p then Before(c[a], t) else Before(t, c[a])
    ensures ChainOk(c[p := t], n)
  {
    hide Before, KeysIncrease;
  }

  lemma ReplacedHolds(c: Chain, p: nat, t: seq<Rec>, r: Rec)
    requires p < |c| && forall x :: x in t <==> x in c[p] || x == r
    ensures Gains(c, c[p := t], r)
  {
    var d := c[p := t];
    forall x | Holds(c, x) || x == r
      ensures Holds(d, x)
    {
      if Holds(c, x) {
        var a :| 0 <= a < |c| && x in c[a];
        assert x in d[a];
      } else {
        assert x in d[p];
      }
    }
    forall x | Holds(d, x)
      ensures Holds(c, x) || x == r
    {
      var a :| 0 <= a < |d| && x in d[a];
      assert a != p ==> x in c[a];
    }
  }

  /** An insert of a fresh key adds exactly its record and keeps the chain in
      order, splitting a full leaf in half. */
  lemma InsertedOk(c: Chain, r: Rec, n: nat)
    requires ChainOk(c, n) && n >= 2 && !Has(c, r.key)
    ensures ChainOk(Inserted(c, r, n), n)
    ensures Gains(c, Inserted(c, r, n), r)
  {
    hide Halved, Holds, Has, InsertSorted, Gains;
    var p := Target(c, r.key);
    if |c[p]| < n {
      PlacedOk(c, r, n, p);
    } else {
      var d: Chain := Halved(c, p, n);
      HalvedOk(c, p, n);
      HalvedHolds(c, p, n);
      SameKeys(c, d, r.key);
      HalvedTarget(c, r, n);
      HalvedAt(c, p, n, Target(d, r.key));
      PlacedOk(d, r, n, Target(d, r.key));
      assert Gains(d, Inserted(c, r, n), r);
      GainsSame(c, d, Inserted(c, r, n), r);
    }
  }

  lemma GainsSame(c: Chain, d: Chain, e: Chain, r: Rec)
    requires (forall x :: Holds(d, x) <==> Holds(c, x)) && Gains(d, e, r)
    ensures Gains(c, e, r)
  {
    hide Holds;
  }

  lemma SameKeys(c: Chain, d: Chain, k: nat)
    requires forall r :: Holds(d, r) <==> Holds(c, r)
    ensures Has(d, k) <==> Has(c, k)
  {
    if Has(c, k) {
      var a :| 0 <= a < |c| && HasKey(c[a], k);
      var i :| 0 <= i < |c[a]| && c[a][i].key == k;
      assert Holds(c, c[a][i]) && Holds(d, c[a][i]);
    }
    if Has(d, k) {
      var a :| 0 <= a < |d| && HasKey(d[a], k);
      var i :| 0 <= i < |d[a]| && d[a][i].key == k;
      assert Holds(d, d[a][i]) && Holds(c, d[a][i]);
    }
  }

  /** After the split the key belongs to one of the halves. */
  lemma HalvedTarget(c: Chain, r: Rec, n: nat)
    requires ChainOk(c, n) && n >= 2 && |c[Target(c, r.key)]| == n
    ensures var p := Target(c, r.key);
            var d: Chain := Halved(c, p, n);
            ChainOk(d, n) && Target(d, r.key) == if d[p + 1][0].key <= r.key then p + 1 else p
  {
    hide Halved, Before, KeysIncrease;
    var p := Target(c, r.key);
    var d: Chain := Halved(c, p, n);
    HalvedOk(c, p, n);
    HalvedAt(c, p, n, p);
    HalvedAt(c, p, n, p + 1);
    if p + 2 < |d| {
      HalvedAt(c, p, n, p + 2);
    }
    var q := if d[p + 1][0].key <= r.key then p + 1 else p;
    TargetUnique(d, n, r.key, q);
  }

  /** An update of the leaf a key belongs to changes that key's value and
      nothing else. */
  lemma ReboundOk(c: Chain, n: nat, k: nat, v: int)
    requires ChainOk(c, n)
    ensures var p := Target(c, k);
            var d := c[p := Rebound(c[p], k, v)];
            && ChainOk(d, n)
            && forall x :: Holds(d, x) <==> if x.key == k then Has(c, k) && x.value == v else Holds(c, x)
  {
    var p := Target(c, k);
    var t := Rebound(c[p], k, v);
    TargetDecides(c, n, k);
    assert KeysIncrease(c[p]);
    ReboundKeys(c[p], k, v);
    forall a | 0 <= a < |c| && a != p
      ensures if a < p then Before(c[a], t) else Before(t, c[a])
    {
      assert if a < p then Before(c[a], c[p]) else Before(c[p], c[a]);
    }
    ReplacedOk(c, p, t, n);
    ReboundHolds(c, c[p := t], p, k, v);
  }

  lemma ReboundKeys(s: seq<Rec>, k: nat, v: int)
    requires KeysIncrease(s)
    ensures var t := Rebound(s, k, v);
            |t| == |s| && KeysIncrease(t) && forall i :: 0 <= i < |s| ==> t[i].key == s[i].key
  {
  }

  lemma ReboundHolds(c: Chain, d: Chain, p: nat, k: nat, v: int)
    requires p < |c| && d == c[p := Rebound(c[p], k, v)] && KeysIncrease(c[p])
    requires Has(c, k) <==> HasKey(c[p], k)
    requires forall a, i :: 0 <= a < |c| && a != p && 0 <= i < |c[a]| ==> c[a][i].key != k
    ensures forall x :: Holds(d, x) <==> if x.key == k then Has(c, k) && x.value == v else Holds(c, x)
  {
    var s, t := c[p], d[p];
    var q := Position(s, k, 0);
    assert HasKey(s, k) <==> q < |s| && s[q].key == k;
    forall x
      ensures Holds(d, x) <==> if x.key == k then Has(c, k) && x.value == v else Holds(c, x)
    {
      if Holds(d, x) {
        var a :| 0 <= a < |d| && x in d[a];
        if a == p {
          var i :| 0 <= i < |t| && t[i] == x;
          assert x.key != k ==> x in c[p];
        } else {
          var i :| 0 <= i < |d[a]| && d[a][i] == x;
          assert x in c[a];
        }
      }
      if x.key == k && HasKey(s, k) && x.value == v {
        assert t[q] == x && x in d[p];
      }
      if x.key != k && Holds(c, x) {
        var a :| 0 <= a < |c| && x in c[a];
        if a == p {
          var i :| 0 <= i < |s| && s[i] == x;
          assert t[i] == x;
        }
        assert x in d[a];
      }
    }
  }

  /** How an insert reaches its result: directly, or through the split. */
  lemma InsertedIs(c: Chain, r: Rec, n: nat)
    requires ChainOk(c, n) && n >= 2 && !Has(c, r.key)
    ensures var p := Target(c, r.key);
            && |c[p]| <= n && !HasKey(c[p], r.key)
            && (|c[p]| < n ==> Inserted(c, r, n) == c[p := InsertSorted(c[p], r)])
            && (|c[p]| == n ==>
                  (var d := Halved(c, p, n);
                   |d[p + 1]| > 0 &&
                   var q := if d[p + 1][0].key <= r.key then p + 1 else p;
                   |d[q]| < n && !HasKey(d[q], r.key) && Inserted(c, r, n) == d[q := InsertSorted(d[q], r)]))
  {
    var p := Target(c, r.key);
    if |c[p]| == n {
      var d: Chain := Halved(c, p, n);
      HalvedAt(c, p, n, p);
      HalvedAt(c, p, n, p + 1);
      HalvedHolds(c, p, n);
      SameKeys(c, d, r.key);
    }
  }
}
