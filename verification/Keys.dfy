/** Keys as big-endian byte arrays: their order, their numbers, and adding or
    subtracting a byte with carry and borrow. */
module Keys {
  import opened DivMod

  const NUMBER_BYTES: nat := 16

  ghost predicate IsKey(a: seq<nat>) {
    forall i :: 0 <= i < |a| ==> a[i] < 256
  }

  function Pow256(n: nat): (p: nat)
    ensures p > 0
  {
    if n == 0 then 1 else 256 * Pow256(n - 1)
  }

  /** The number that the bytes spell, most significant first. */
  function Value(a: seq<nat>): nat {
    if a == [] then 0 else Value(a[..|a| - 1]) * 256 + a[|a| - 1]
  }

  /** The first difference decides, as when arrays are compared. */
  predicate Less(a: seq<nat>, b: seq<nat>)
    requires |a| == |b|
  {
    a != [] && (a[0] < b[0] || (a[0] == b[0] && Less(a[1..], b[1..])))
  }

  // ---- numbers ------------------------------------------------------------

  lemma {:induction false} ValueBound(a: seq<nat>)
    requires IsKey(a)
    ensures Value(a) < Pow256(|a|)
  {
    if a != [] {
      ValueBound(a[..|a| - 1]);
    }
  }

  /** Leading bytes weigh the power of the length that follows. */
  lemma {:induction false} ValueSplit(a: seq<nat>, j: nat)
    requires j <= |a|
    ensures Value(a) == Value(a[..j]) * Pow256(|a| - j) + Value(a[j..])
  {
    var n := |a|;
    if j == n {
      assert a[..j] == a && a[j..] == [];
    } else {
      ValueSplit(a[..n - 1], j);
      assert a[..n - 1][..j] == a[..j] && a[..n - 1][j..] == a[j..][..n - j - 1];
      Carry(Value(a[..j]), Pow256(n - 1 - j));
    }
  }

  lemma Carry(x: nat, p: nat)
    ensures x * p * 256 == x * (256 * p)
  {
  }

  lemma ValueHead(a: seq<nat>)
    requires a != []
    ensures Value(a) == a[0] * Pow256(|a| - 1) + Value(a[1..])
  {
    hide Value, Pow256;
    ValueSplit(a, 1);
    assert a[..1] == [a[0]];
    ValueOne(a[0]);
  }

  lemma ValueOne(x: nat)
    ensures Value([x]) == x
  {
    assert [x][..0] == [];
  }

  lemma HeadDecides(x: int, y: int, p: int, u: int, v: int)
    requires p > 0 && 0 <= u < p && 0 <= v < p
    ensures x * p + u < y * p + v <==> x < y || (x == y && u < v)
    ensures x * p + u == y * p + v <==> x == y && u == v
  {
    if x < y {
      MulMono(x + 1, y, p);
    } else if y < x {
      MulMono(y + 1, x, p);
    }
  }

  /** For keys of one length, the byte order is the order of the numbers. */
  lemma {:induction false} OrderIsNumeric(a: seq<nat>, b: seq<nat>)
    requires |a| == |b| && IsKey(a) && IsKey(b)
    ensures Less(a, b) <==> Value(a) < Value(b)
    ensures a == b <==> Value(a) == Value(b)
  {
    if a != [] {
      hide Value, Pow256;
      OrderIsNumeric(a[1..], b[1..]);
      ValueHead(a);
      ValueHead(b);
      ValueBound(a[1..]);
      ValueBound(b[1..]);
      HeadDecides(a[0], b[0], Pow256(|a| - 1), Value(a[1..]), Value(b[1..]));
      assert a == [a[0]] + a[1..] && b == [b[0]] + b[1..];
    }
  }

  // ---- the number used by the index ---------------------------------------

  /** Takes at most the first 16 bytes; nothing overflows 128 bits. */
  method KeyToInt128(key: seq<nat>) returns (res: nat)
    requires IsKey(key)
    ensures res == Value(if |key| <= NUMBER_BYTES then key else key[..NUMBER_BYTES]) < Pow256(NUMBER_BYTES)
  {
    res := 0;
    var len := if |key| < NUMBER_BYTES then |key| else NUMBER_BYTES;
    for i := 0 to len
      invariant res == Value(key[..i])
    {
      assert key[..i + 1][..i] == key[..i];
      res := res * 256 + key[i];
    }
    assert key[..|key|] == key;
    ValueBound(key[..len]);
    PowMono(len, NUMBER_BYTES);
  }

  lemma {:induction false} PowMono(m: nat, n: nat)
    requires m <= n
    ensures Pow256(m) <= Pow256(n)
  {
    if m < n {
      PowMono(m, n - 1);
    }
  }

  ghost function Number(key: seq<nat>): nat {
    Value(if |key| <= NUMBER_BYTES then key else key[..NUMBER_BYTES])
  }

  /** The index's numbers order all keys of a length as the bytes do exactly
      when that length is at most 16 bytes. */
  lemma NumberOrder(n: nat)
    ensures (forall a, b :: |a| == |b| == n && IsKey(a) && IsKey(b) ==>
               (Less(a, b) <==> Number(a) < Number(b))) <==> n <= NUMBER_BYTES
  {
    if n <= NUMBER_BYTES {
      forall a, b | |a| == |b| == n && IsKey(a) && IsKey(b)
        ensures Less(a, b) <==> Number(a) < Number(b)
      {
        OrderIsNumeric(a, b);
      }
    } else {
      var a: seq<nat> := seq(n, _ => 0);
      var b: seq<nat> := a[n - 1 := 1];
      assert a[..NUMBER_BYTES] == b[..NUMBER_BYTES];
      assert a[..n - 1] == b[..n - 1];
      assert Value(a) < Value(b);
      OrderIsNumeric(a, b);
      assert IsKey(a) && IsKey(b) && Less(a, b) && !(Number(a) < Number(b));
    }
  }

  // ---- carry and borrow ---------------------------------------------------

  /** From byte j on, r and a carry of c make up a plus b. */
  ghost predicate Done(a: seq<nat>, r: seq<nat>, j: nat, c: int, b: int) {
    |r| == |a| && j <= |a| && Value(r[j..]) + c * Pow256(|a| - j) == Value(a[j..]) + b
  }

  lemma NothingDone(a: seq<nat>, b: int)
    ensures Done(a, a, |a|, b, b)
  {
  }

  /** One byte further: what is done below position j, and the carry. */
  lemma CarryStep(a: seq<nat>, r: seq<nat>, j: nat, x: nat, c: int, c': int, b: int)
    requires j < |a| == |r| && Done(a, r, j + 1, c, b) && a[j] + c == x + 256 * c'
    ensures Done(a, r[j := x], j, c', b)
  {
    var p := Pow256(|a| - j - 1);
    var r' := r[j := x];
    ValueHead(a[j..]);
    ValueHead(r'[j..]);
    assert a[j..][1..] == a[j + 1..] && r'[j..][1..] == r[j + 1..];
    assert Pow256(|a| - j) == 256 * p;
    Weigh(a[j], c, x, c', p);
  }

  lemma Weigh(y: int, c: int, x: int, c': int, p: int)
    requires y + c == x + 256 * c'
    ensures y * p + c * p == x * p + c' * (256 * p)
  {
    assert (y + c) * p == (x + 256 * c') * p;
  }

  lemma NextByte(a: seq<nat>, r: seq<nat>, j: nat)
    requires j < |a| == |r| && IsKey(r) && r[..j + 1] == a[..j + 1]
    ensures r[j] == a[j] < 256 && r[..j] == a[..j]
  {
    assert r[j] == r[..j + 1][j] && a[j] == a[..j + 1][j];
    assert r[..j] == r[..j + 1][..j] && a[..j] == a[..j + 1][..j];
  }

  lemma ByteSet(a: seq<nat>, r: seq<nat>, j: nat, y: nat)
    requires j < |a| == |r| && IsKey(r) && r[..j] == a[..j] && y < 256
    ensures IsKey(r[j := y]) && r[j := y][..j] == a[..j]
  {
  }

  /** Adding a byte is addition modulo 256 to the key length. */
  method Plus(a: seq<nat>, b: nat) returns (res: seq<nat>)
    requires IsKey(a) && b < 256
    ensures |res| == |a| && IsKey(res) && Value(res) == (Value(a) + b) % Pow256(|a|)
  {
    res := a;
    var n: nat, c: nat := |a|, b;
    hide Value, Pow256, Done;
    NothingDone(a, b);
    for i := 0 to n
      invariant |res| == n && IsKey(res) && c < 256 && res[..n - i] == a[..n - i]
      invariant Done(a, res, n - i, c, b)
    {
      var j := n - 1 - i;
      assert res[j] == res[..n - i][j];
      if res[j] + c < 256 {
        CarryStep(a, res, j, res[j] + c, c, 0, b);
        Finished(a, res[j := res[j] + c], j, 0, b);
        res := res[j := res[j] + c];
        return;
      }
      var tmp := res[j] + c;
      CarryStep(a, res, j, tmp % 256, c, tmp / 256, b);
      res := res[j := tmp % 256];
      c := tmp / 256;
    }
    Finished(a, res, 0, c, b);
  }

  /** The bytes before j untouched and the carry past the front dropped. */
  lemma Finished(a: seq<nat>, r: seq<nat>, j: nat, c: int, b: int)
    requires j <= |a| == |r| && Done(a, r, j, c, b) && IsKey(r) && r[..j] == a[..j] && (j > 0 ==> c == 0)
    ensures Value(r) == (Value(a) + b) % Pow256(|a|)
  {
    hide Value, Pow256;
    ValueBound(r);
    if j > 0 {
      ValueSplit(a, j);
      ValueSplit(r, j);
    } else {
      assert r[0..] == r && a[0..] == a;
    }
    QuotientOf(Value(a) + b, Pow256(|a|), c, Value(r));
  }

  /** A byte less than what is to be taken from it borrows once. */
  method Borrow(x: nat, c: nat) returns (y: nat, borrow: nat)
    requires x < c < 256
    ensures y < 256 && borrow == 1 && x - c == y - 256 * borrow
  {
    var tmp := x;
    borrow := 0;
    while tmp < c
      invariant tmp == x + 256 * borrow && borrow <= 1
    {
      tmp := tmp + 256;
      borrow := borrow + 1;
    }
    y := x + borrow * 256 - c;
  }

  /** Subtracting a byte is subtraction modulo 256 to the key length. */
  method Minus(a: seq<nat>, b: nat) returns (res: seq<nat>)
    requires IsKey(a) && b < 256
    ensures |res| == |a| && IsKey(res) && Value(res) == (Value(a) - b) % Pow256(|a|)
  {
    res := a;
    var n: nat, c: nat := |a|, b;
    hide *;
    NothingDone(a, 0 - b);
    for i := 0 to n
      invariant |res| == n && IsKey(res) && c < 256 && res[..n - i] == a[..n - i]
      invariant Done(a, res, n - i, 0 - c, 0 - b)
    {
      var j := n - 1 - i;
      NextByte(a, res, j);
      if res[j] >= c {
        ByteSet(a, res, j, res[j] - c);
        CarryStep(a, res, j, res[j] - c, 0 - c, 0, 0 - b);
        Finished(a, res[j := res[j] - c], j, 0, 0 - b);
        res := res[j := res[j] - c];
        return;
      }
      var y, borrow := Borrow(res[j], c);
      ByteSet(a, res, j, y);
      CarryStep(a, res, j, y, 0 - c, -1, 0 - b);
      res := res[j := y];
      c := borrow;
    }
    Finished(a, res, 0, 0 - c, 0 - b);
  }

  /** The next byte takes the one, or becomes 0 and passes it on. */
  lemma AddOneStep(k: seq<nat>, r: seq<nat>, j: nat)
    requires j < |k| == |r| && IsKey(r) && r[..j + 1] == k[..j + 1] && Done(k, r, j + 1, 1, 1)
    ensures r[j] < 256 && var r' := r[j := (r[j] + 1) % 256];
            && IsKey(r') && r'[..j] == k[..j]
            && if r[j] + 1 < 256 then Value(r') == (Value(k) + 1) % Pow256(|k|) else Done(k, r', j, 1, 1)
  {
    hide Value, Pow256, Done, IsKey;
    NextByte(k, r, j);
    var x, c := (r[j] + 1) % 256, (r[j] + 1) / 256;
    ByteSet(k, r, j, x);
    CarryStep(k, r, j, x, 1, c, 1);
    if c == 0 {
      Finished(k, r[j := x], j, 0, 1);
    }
  }

  method AddOne(a: array<nat>)
    requires IsKey(a[..])
    modifies a
    ensures IsKey(a[..]) && Value(a[..]) == (Value(old(a[..])) + 1) % Pow256(a.Length)
  {
    ghost var k := a[..];
    var n := a.Length;
    hide *;
    NothingDone(k, 1);
    for i := 0 to n
      invariant IsKey(a[..]) && a[..][..n - i] == k[..n - i] && Done(k, a[..], n - i, 1, 1)
    {
      var j := n - 1 - i;
      ghost var r := a[..];
      AddOneStep(k, r, j);
      if a[j] + 1 < 256 {
        a[j] := a[j] + 1;
        assert a[..] == r[j := (r[j] + 1) % 256];
        return;
      }
      a[j] := 0;
      assert a[..] == r[j := (r[j] + 1) % 256];
    }
    Finished(k, a[..], 0, 1, 1);
  }

  /** Subtracting what was added, or adding what was subtracted, gives the key
      back. */
  lemma Undone(a: seq<nat>, r: seq<nat>, s: seq<nat>, b: int)
    requires |a| == |r| == |s| && IsKey(a) && IsKey(r) && IsKey(s)
    requires Value(r) == (Value(a) + b) % Pow256(|a|) && Value(s) == (Value(r) - b) % Pow256(|a|)
    ensures s == a
  {
    hide Value, Pow256, IsKey;
    ValueBound(a);
    Wraps(Value(a), b, Pow256(|a|), Value(r), Value(s));
    OrderIsNumeric(s, a);
  }

  lemma Wraps(x: int, b: int, p: int, y: int, z: int)
    requires 0 <= x < p && y == (x + b) % p && z == (y - b) % p
    ensures z == x
  {
    var q := (x + b) / p;
    assert x + b == q * p + y;
    assert y - b == (-q) * p + x;
    QuotientOf(y - b, p, -q, x);
  }
}
