/** One trained segment: its line, the window of positions it predicts for a
    key, and the window of leaves that follows from it. */
module SubModel {
  import opened Lines
  import opened BranchlessSearch

  /** Conversion of a real to a signed integer, toward zero. */
  function Truncate(r: real): int {
    if r >= 0.0 then r.Floor else -(-r).Floor
  }

  /** Conversion of a position to an unsigned index; negative positions are
      clamped to 0. */
  function ToIndex(r: real): nat {
    if r <= 0.0 then 0 else r.Floor
  }

  datatype ApproxPos = ApproxPos(pos: nat, lo: nat, hi: nat)

  /** `epsilon` below the predicted position, `epsilon` and 2 above it, kept
      inside the segment. */
  function Window(pos: real, epsilon: nat, size: nat): ApproxPos
    requires size > 0
  {
    var e := epsilon as real;
    var lo := if pos <= e then 0.0 else pos - e;
    var hi := if pos + e + 2.0 >= size as real then (size - 1) as real else pos + e + 2.0;
    ApproxPos(ToIndex(pos), ToIndex(if lo > hi then hi else lo), ToIndex(hi))
  }

  /** The leaves that hold the ends of a window. */
  function Leaves(p: ApproxPos, span: nat): (nat, nat)
    requires span > 0
  {
    (p.lo / span, p.hi / span)
  }

  datatype Model = Model(line: Line, capacity: nat) {

    function Position(k: nat): real {
      Truncate(line.slope * k as real) as real + line.intercept
    }

    function Predict(k: nat, epsilon: nat): ApproxPos
      requires capacity > 0
    {
      Window(Position(k), epsilon, capacity)
    }

    function PredictRange(k: nat, epsilon: nat, span: nat): (nat, nat)
      requires capacity > 0 && span > 0
    {
      Leaves(Predict(k, epsilon), span)
    }

    /** Leaves set aside for the segment: one more than its keys fill. */
    function TableSize(span: nat): nat
      requires span > 0
    {
      1 + capacity / span + if capacity % span != 0 then 1 else 0
    }

    /** The line is within `Epsilon - 1` of every key's local rank, and rises. */
    ghost predicate Fits(keys: seq<int>, epsilon: nat) {
      && |keys| == capacity > 0 && Increasing(keys) && line.slope >= 0.0 && epsilon > 0
      && forall j :: 0 <= j < |keys| ==>
           (j - (epsilon - 1)) as real <= line.At(keys[j]) <= (j + (epsilon - 1)) as real
    }
  }

  lemma Rising(l: Line, x: int, y: int)
    requires l.slope >= 0.0 && x <= y
    ensures l.At(x) <= l.At(y)
  {
    AtDiff(l, y, x);
    MulSign(l.slope, (y - x) as real);
  }

  /** The leaves set aside hold all keys of the segment with one whole leaf to
      spare, and with two leaves fewer they would not hold them. */
  lemma TableSizeFits(m: Model, span: nat)
    requires m.capacity > 0 && span > 0
    ensures (m.TableSize(span) - 2) * span < m.capacity <= (m.TableSize(span) - 1) * span
  {
    var q, r := m.capacity / span, m.capacity % span;
    assert m.capacity == q * span + r;
    assert (q + 1) * span == q * span + span && (q - 1) * span == q * span - span;
  }

  /** Truncation costs less than one position, and leaves whole steps from the
      intercept. */
  lemma TruncatedPosition(m: Model, k: nat)
    requires m.line.slope >= 0.0
    ensures m.line.At(k) - 1.0 < m.Position(k) <= m.line.At(k)
    ensures (m.Position(k) - m.line.intercept).Floor as real == m.Position(k) - m.line.intercept
  {
    MulSign(m.line.slope, k as real);
  }

  /** The window is `epsilon` positions to the left and `epsilon + 2` to the
      right of the predicted one, cut off only at the ends of the segment. */
  lemma WindowExact(pos: real, epsilon: nat, size: nat)
    requires size > 0
    ensures var p := Window(pos, epsilon, size);
            && p.lo <= p.hi < size && p.hi - p.lo <= 2 * epsilon + 2
            && (pos >= 0.0 ==> p.pos as real <= pos < p.pos as real + 1.0)
            && (pos <= epsilon as real ==> p.lo == 0)
            && (pos + (epsilon + 2) as real >= size as real ==> p.hi == size - 1)
            && (epsilon as real < pos && pos + (epsilon + 2) as real < size as real ==>
                  p.lo == p.pos - epsilon && p.hi == p.pos + epsilon + 2)
  {
  }

  lemma WindowNearArithmetic(pos: real, epsilon: nat, size: nat, rank: nat, slack: nat)
    requires size > 0 && rank <= size && epsilon > 0 && slack <= 1
    requires rank > 0 ==> pos > (rank - slack - epsilon) as real
    requires rank < size ==> pos <= (rank + epsilon - 1) as real
    requires slack == 0 ==> rank < size
    ensures var p := Window(pos, epsilon, size);
            rank - slack - 2 * epsilon <= p.lo && p.hi <= rank + 2 * epsilon + 1
  {
  }

  /** The prediction follows the line: the window stays near the rank of every
      key, and a position nearer on the left for stored keys. */
  lemma WindowNearRank(m: Model, keys: seq<int>, epsilon: nat, k: nat, rank: nat)
    requires m.Fits(keys, epsilon) && IsRank(keys, k, rank)
    ensures var p := m.Predict(k, epsilon);
            && rank - 1 - 2 * epsilon <= p.lo && p.hi <= rank + 2 * epsilon + 1
            && (rank < m.capacity && keys[rank] == k ==> rank - 2 * epsilon <= p.lo)
            && p.hi - p.lo <= 2 * epsilon + 2
  {
    hide Model.Position, Line.At, Window;
    TruncatedPosition(m, k);
    if rank > 0 {
      Rising(m.line, keys[rank - 1], k);
    }
    if rank < m.capacity {
      Rising(m.line, k, keys[rank]);
    }
    WindowExact(m.Position(k), epsilon, m.capacity);
    WindowNearArithmetic(m.Position(k), epsilon, m.capacity, rank, 1);
    if rank < m.capacity && keys[rank] == k {
      WindowNearArithmetic(m.Position(k), epsilon, m.capacity, rank, 0);
    }
  }

  lemma WindowArithmetic(pos: real, epsilon: nat, size: nat, rank: nat)
    requires size > 0 && rank <= size
    requires rank > 0 ==> pos > (rank - 1 - epsilon) as real
    requires rank < size ==> pos <= (rank + epsilon - 1) as real
    ensures var p := Window(pos, epsilon, size);
            if rank < size then p.lo <= rank <= p.hi < size else p.lo <= p.hi == size - 1
  {
  }

  /** The window contains the rank of every key, present or not, and past the
      last key it ends at the last position. */
  lemma WindowHoldsRank(m: Model, keys: seq<int>, epsilon: nat, k: nat, rank: nat)
    requires m.Fits(keys, epsilon) && IsRank(keys, k, rank)
    ensures var p := m.Predict(k, epsilon);
            if rank < m.capacity then p.lo <= rank <= p.hi < m.capacity
            else p.lo <= p.hi == m.capacity - 1
  {
    hide Model.Position, Line.At, Window;
    TruncatedPosition(m, k);
    if rank > 0 {
      Rising(m.line, keys[rank - 1], k);
    }
    if rank < m.capacity {
      Rising(m.line, k, keys[rank]);
    }
    WindowArithmetic(m.Position(k), epsilon, m.capacity, rank);
  }
}
