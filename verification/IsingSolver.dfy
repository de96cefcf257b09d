/**
 The incremental Ising solver of src/bin/bio_quantum_record.rs: a sparse
 problem in CSR form, the cached state the solver flips in place, and the
 energy that the caches stand for. Floats are reals.
 */
module IsingSolver {

  datatype Problem = Problem(
    n: nat,
    refSpin: seq<int>,
    h: seq<real>,
    rowPtr: seq<nat>,
    colIdx: seq<nat>,
    w: seq<real>,
    alpha: real)
  {
    /** The shape `build_problem` produces: n sites, n rows, columns in range. */
    ghost predicate Valid() {
      && 0 < n
      && |refSpin| == n && |h| == n && |rowPtr| == n + 1 && |colIdx| == |w|
      && (forall i :: 0 <= i < n ==> refSpin[i] == 1 || refSpin[i] == -1)
      && (forall i, j :: 0 <= i <= j <= n ==> rowPtr[i] <= rowPtr[j] <= |w|)
      && (forall k :: 0 <= k < |colIdx| ==> colIdx[k] < n)
    }

    /** The weight row `i` holds for column `j`. */
    ghost function Weight(i: nat, j: nat): real
      requires Valid() && i < n
    {
      RowWeight(this, rowPtr[i], rowPtr[i + 1], j)
    }

    /** Row `i` and column `i` of the matrix agree. */
    ghost predicate SymmetricAt(i: nat)
      requires Valid() && i < n
    {
      forall j :: 0 <= j < n ==> Weight(i, j) == Weight(j, i)
    }

    /** What the annealer relies on: a symmetric matrix with an empty diagonal. */
    ghost predicate Symmetric()
      requires Valid()
    {
      forall i :: 0 <= i < n ==> SymmetricAt(i) && Weight(i, i) == 0.0
    }
  }

  ghost predicate Spins(p: Problem, s: seq<int>) {
    |s| == p.n && forall i :: 0 <= i < |s| ==> s[i] == 1 || s[i] == -1
  }

  /** `spin * x` for a spin of +1 or -1, kept free of products for the proofs. */
  function Signed(spin: int, x: real): real {
    if spin > 0 then x else -x
  }

  lemma SignedIsProduct(spin: int, x: real)
    requires spin == 1 || spin == -1
    ensures Signed(spin, x) == (spin as real) * x == x * (spin as real)
  {
  }

  function Flipped(s: seq<int>, i: nat): seq<int>
    requires i < |s|
  {
    s[i := -s[i]]
  }

  // ---- What the caches stand for --------------------------------------------

  /** What one flip leaves out of the running energy: `2 alpha / n`. */
  ghost function Excess(p: Problem): real
    requires p.n != 0
  {
    2.0 * p.alpha / (p.n as real)
  }

  /** Total weight of column `j` among the CSR entries lo..hi. */
  ghost function RowWeight(p: Problem, lo: nat, hi: nat, j: nat): real
    requires p.Valid() && lo <= hi <= |p.w|
    decreases hi
  {
    if lo == hi then 0.0
    else RowWeight(p, lo, hi - 1, j) + (if p.colIdx[hi - 1] == j then p.w[hi - 1] else 0.0)
  }

  ghost function RowSum(p: Problem, s: seq<int>, lo: nat, hi: nat): real
    requires p.Valid() && Spins(p, s) && lo <= hi <= |p.w|
    decreases hi
  {
    if lo == hi then 0.0
    else RowSum(p, s, lo, hi - 1) + Signed(s[p.colIdx[hi - 1]], p.w[hi - 1])
  }

  /** Full recomputation of the sparse field at site `i`. */
  ghost function SparseField(p: Problem, s: seq<int>, i: nat): real
    requires p.Valid() && Spins(p, s) && i < p.n
  {
    p.h[i] + RowSum(p, s, p.rowPtr[i], p.rowPtr[i + 1])
  }

  ghost function Overlap(p: Problem, s: seq<int>, k: nat): int
    requires p.Valid() && Spins(p, s) && k <= p.n
  {
    if k == 0 then 0 else Overlap(p, s, k - 1) + s[k - 1] * p.refSpin[k - 1]
  }

  ghost predicate FieldsAccurate(p: Problem, s: seq<int>, fields: seq<real>)
    requires p.Valid() && Spins(p, s)
  {
    |fields| == p.n && forall i :: 0 <= i < p.n ==> fields[i] == SparseField(p, s, i)
  }

  /** The mean-field strength `alpha * m / n`. */
  function LowRank(p: Problem, m: int): real
    requires p.n != 0
  {
    p.alpha * (m as real) / (p.n as real)
  }

  /** The low-rank part of `local_field`, as the source multiplies it out. */
  function LowRankAt(p: Problem, m: int, i: nat): real
    requires p.n != 0 && i < |p.refSpin|
  {
    p.alpha * (m as real) * (p.refSpin[i] as real) / (p.n as real)
  }

  lemma LowRankAtSigned(p: Problem, m: int, i: nat)
    requires p.n != 0 && i < |p.refSpin| && (p.refSpin[i] == 1 || p.refSpin[i] == -1)
    ensures LowRankAt(p, m, i) == Signed(p.refSpin[i], LowRank(p, m))
  {
    var x, n := p.alpha * (m as real), p.n as real;
    if p.refSpin[i] == -1 {
      assert x * -1.0 == -x;
      assert -x / n == -(x / n);
    }
  }

  /** The low-rank term plus the sparse term, from scratch. */
  ghost function LocalField(p: Problem, s: seq<int>, i: nat): real
    requires p.Valid() && Spins(p, s) && i < p.n
  {
    LowRankAt(p, Overlap(p, s, p.n), i) + SparseField(p, s, i)
  }

  /** `s_i` times the field at `i`: half of the solver's `d_e`. */
  ghost function Margin(p: Problem, s: seq<int>, i: nat): real
    requires p.Valid() && Spins(p, s) && i < p.n
  {
    Signed(s[i], LocalField(p, s, i))
  }

  // ---- Energy ---------------------------------------------------------------

  ghost function BiasEnergy(p: Problem, s: seq<int>, k: nat): real
    requires p.Valid() && Spins(p, s) && k <= p.n
  {
    if k == 0 then 0.0 else BiasEnergy(p, s, k - 1) + Signed(s[k - 1], p.h[k - 1])
  }

  /** Row `i` above the diagonal, over the entries lo..hi. */
  ghost function UpperRow(p: Problem, s: seq<int>, i: nat, lo: nat, hi: nat): real
    requires p.Valid() && Spins(p, s) && i < p.n && lo <= hi <= |p.w|
    decreases hi
  {
    if lo == hi then 0.0
    else
      var j := p.colIdx[hi - 1];
      UpperRow(p, s, i, lo, hi - 1) + (if j > i then Signed(s[j], p.w[hi - 1]) else 0.0)
  }

  /** Every coupled pair once: row i against its columns j > i. */
  ghost function PairEnergy(p: Problem, s: seq<int>, k: nat): real
    requires p.Valid() && Spins(p, s) && k <= p.n
  {
    if k == 0 then 0.0
    else PairEnergy(p, s, k - 1) + Signed(s[k - 1], UpperRow(p, s, k - 1, p.rowPtr[k - 1], p.rowPtr[k]))
  }

  ghost function EnergyOf(p: Problem, s: seq<int>): real
    requires p.Valid() && Spins(p, s)
  {
    QuadraticEnergy(p, Overlap(p, s, p.n)) - BiasEnergy(p, s, p.n) - PairEnergy(p, s, p.n)
  }

  // ---- How one flip moves each sum ------------------------------------------

  lemma {:induction false} RowSumFlip(p: Problem, s: seq<int>, lo: nat, hi: nat, i: nat)
    requires p.Valid() && Spins(p, s) && lo <= hi <= |p.w| && i < p.n
    ensures RowSum(p, Flipped(s, i), lo, hi)
         == RowSum(p, s, lo, hi) - 2.0 * Signed(s[i], RowWeight(p, lo, hi, i))
    decreases hi
  {
    if lo < hi {
      RowSumFlip(p, s, lo, hi - 1, i);
    }
  }

  lemma {:induction false} OverlapFlip(p: Problem, s: seq<int>, k: nat, i: nat)
    requires p.Valid() && Spins(p, s) && k <= p.n && i < p.n
    ensures Overlap(p, Flipped(s, i), k)
         == Overlap(p, s, k) - (if i < k then 2 * s[i] * p.refSpin[i] else 0)
  {
    if k > 0 {
      OverlapFlip(p, s, k - 1, i);
      var a, b := s[i], p.refSpin[i];
      assert (-a) * b == -(a * b) && 2 * a * b == 2 * (a * b);
    }
  }

  lemma {:induction false} BiasFlip(p: Problem, s: seq<int>, k: nat, i: nat)
    requires p.Valid() && Spins(p, s) && k <= p.n && i < p.n
    ensures BiasEnergy(p, Flipped(s, i), k)
         == BiasEnergy(p, s, k) - (if i < k then 2.0 * Signed(s[i], p.h[i]) else 0.0)
  {
    if k > 0 {
      BiasFlip(p, s, k - 1, i);
    }
  }

  lemma {:induction false} UpperRowFlip(p: Problem, s: seq<int>, r: nat, lo: nat, hi: nat, i: nat)
    requires p.Valid() && Spins(p, s) && r < p.n && i < p.n && lo <= hi <= |p.w|
    ensures UpperRow(p, Flipped(s, i), r, lo, hi)
         == UpperRow(p, s, r, lo, hi) - (if r < i then 2.0 * Signed(s[i], RowWeight(p, lo, hi, i)) else 0.0)
    decreases hi
  {
    if lo < hi {
      UpperRowFlip(p, s, r, lo, hi - 1, i);
    }
  }

  /** Column `i` above the diagonal, against the spins of its rows. */
  ghost function ColumnSum(p: Problem, s: seq<int>, i: nat, k: nat): real
    requires p.Valid() && Spins(p, s) && i < p.n && k <= p.n
  {
    if k == 0 then 0.0 else ColumnSum(p, s, i, k - 1) + Signed(s[k - 1], p.Weight(k - 1, i))
  }

  lemma {:induction false} PairEnergyFlip(p: Problem, s: seq<int>, k: nat, i: nat)
    requires p.Valid() && Spins(p, s) && k <= p.n && i < p.n
    ensures PairEnergy(p, Flipped(s, i), k)
         == PairEnergy(p, s, k)
            - 2.0 * Signed(s[i], ColumnSum(p, s, i, if k <= i then k else i))
            - (if i < k then 2.0 * Signed(s[i], UpperRow(p, s, i, p.rowPtr[i], p.rowPtr[i + 1])) else 0.0)
  {
    if k > 0 {
      var r := k - 1;
      PairEnergyFlip(p, s, r, i);
      UpperRowFlip(p, s, r, p.rowPtr[r], p.rowPtr[k], i);
    }
  }

  /** Row entries lo..hi against the spins of columns 0..m. */
  ghost function DenseRow(p: Problem, s: seq<int>, lo: nat, hi: nat, m: nat): real
    requires p.Valid() && Spins(p, s) && lo <= hi <= |p.w| && m <= p.n
  {
    if m == 0 then 0.0
    else DenseRow(p, s, lo, hi, m - 1) + Signed(s[m - 1], RowWeight(p, lo, hi, m - 1))
  }

  lemma {:induction false} DenseRowEntry(p: Problem, s: seq<int>, lo: nat, hi: nat, m: nat)
    requires p.Valid() && Spins(p, s) && lo < hi <= |p.w| && m <= p.n
    ensures DenseRow(p, s, lo, hi, m)
         == DenseRow(p, s, lo, hi - 1, m)
            + (if p.colIdx[hi - 1] < m then Signed(s[p.colIdx[hi - 1]], p.w[hi - 1]) else 0.0)
    decreases m
  {
    if m > 0 {
      DenseRowEntry(p, s, lo, hi, m - 1);
    }
  }

  lemma {:induction false} DenseRowEmpty(p: Problem, s: seq<int>, lo: nat, m: nat)
    requires p.Valid() && Spins(p, s) && lo <= |p.w| && m <= p.n
    ensures DenseRow(p, s, lo, lo, m) == 0.0
    decreases m
  {
    if m > 0 {
      DenseRowEmpty(p, s, lo, m - 1);
    }
  }

  /** A row splits into its part above, below and on the diagonal. */
  lemma {:induction false} RowSplit(p: Problem, s: seq<int>, i: nat, lo: nat, hi: nat)
    requires p.Valid() && Spins(p, s) && i < p.n && lo <= hi <= |p.w|
    ensures RowSum(p, s, lo, hi)
         == UpperRow(p, s, i, lo, hi) + DenseRow(p, s, lo, hi, i) + Signed(s[i], RowWeight(p, lo, hi, i))
    decreases hi
  {
    if lo == hi {
      DenseRowEmpty(p, s, lo, i);
    } else {
      RowSplit(p, s, i, lo, hi - 1);
      DenseRowEntry(p, s, lo, hi, i);
    }
  }

  lemma {:induction false} ColumnIsRow(p: Problem, s: seq<int>, i: nat, k: nat)
    requires p.Valid() && Spins(p, s) && i < p.n && k <= p.n && p.SymmetricAt(i)
    ensures ColumnSum(p, s, i, k) == DenseRow(p, s, p.rowPtr[i], p.rowPtr[i + 1], k)
    decreases k
  {
    if k > 0 {
      ColumnIsRow(p, s, i, k - 1);
      assert p.Weight(i, k - 1) == p.Weight(k - 1, i);
    }
  }

  /** With symmetric weights the couplings of site `i` above and below the diagonal add up to its row. */
  lemma CouplingsAreRow(p: Problem, s: seq<int>, i: nat)
    requires p.Valid() && Spins(p, s) && i < p.n && p.SymmetricAt(i)
    ensures UpperRow(p, s, i, p.rowPtr[i], p.rowPtr[i + 1]) + ColumnSum(p, s, i, i) + Signed(s[i], p.Weight(i, i))
         == RowSum(p, s, p.rowPtr[i], p.rowPtr[i + 1])
  {
    ColumnIsRow(p, s, i, i);
    RowSplit(p, s, i, p.rowPtr[i], p.rowPtr[i + 1]);
  }

  function QuadraticEnergy(p: Problem, m: int): real
    requires p.n != 0
  {
    -0.5 * p.alpha * ((m as real) * (m as real)) / (p.n as real)
  }

  lemma LowRankFlip(p: Problem, m: int, m': int, sign: int)
    requires p.n != 0 && (sign == 1 || sign == -1) && m' == m - 2 * sign
    ensures QuadraticEnergy(p, m')
         == QuadraticEnergy(p, m) + 2.0 * Signed(sign, LowRank(p, m)) - Excess(p)
  {
    var n, x, y := p.n as real, m as real, m' as real;
    var c := -0.5 * p.alpha / n;
    assert QuadraticEnergy(p, m') == c * (y * y);
    assert QuadraticEnergy(p, m) == c * (x * x);
    assert LowRank(p, m) == -2.0 * (c * x);
    if sign == 1 {
      assert y * y == x * x - 4.0 * x + 4.0;
    } else {
      assert y * y == x * x + 4.0 * x + 4.0;
    }
  }

  /**
   A flip moves the true energy by the solver's `d_e` minus `2 alpha / n`: the
   low-rank field already contains the flipped spin's own contribution.
   */
  lemma FlipEnergy(p: Problem, s: seq<int>, i: nat)
    requires p.Valid() && Spins(p, s) && i < p.n
    requires p.SymmetricAt(i) && p.Weight(i, i) == 0.0
    ensures Spins(p, Flipped(s, i))
    ensures EnergyOf(p, Flipped(s, i))
         == EnergyOf(p, s) + 2.0 * Margin(p, s, i) - Excess(p)
  {
    OverlapFlip(p, s, p.n, i);
    BiasFlip(p, s, p.n, i);
    PairEnergyFlip(p, s, p.n, i);
    CouplingsAreRow(p, s, i);
    LowRankAtSigned(p, Overlap(p, s, p.n), i);
    LowRankFlip(p, Overlap(p, s, p.n), Overlap(p, Flipped(s, i), p.n), s[i] * p.refSpin[i]);
  }

  /** Every field moved by row `i`, as flipping a spin that was `before` moves it. */
  ghost predicate Pushed(p: Problem, i: nat, before: int, fields: seq<real>, updated: seq<real>)
    requires p.Valid() && i < p.n
  {
    && |fields| == |updated| == p.n
    && forall j :: 0 <= j < p.n ==> updated[j] == fields[j] - 2.0 * Signed(before, p.Weight(i, j))
  }

  /**
   The flip's update of the cached fields is right exactly when row `i` equals
   column `i`; the annealer's weights need this and nothing else.
   */
  lemma FieldUpdateIff(p: Problem, s: seq<int>, i: nat, fields: seq<real>, updated: seq<real>)
    requires p.Valid() && Spins(p, s) && i < p.n
    requires FieldsAccurate(p, s, fields)
    requires Pushed(p, i, s[i], fields, updated)
    ensures FieldsAccurate(p, Flipped(s, i), updated) <==> p.SymmetricAt(i)
  {
    forall j | 0 <= j < p.n
      ensures updated[j] == SparseField(p, Flipped(s, i), j) <==> p.Weight(i, j) == p.Weight(j, i)
    {
      RowSumFlip(p, s, p.rowPtr[j], p.rowPtr[j + 1], i);
    }
    if p.SymmetricAt(i) {
      assert forall j :: 0 <= j < p.n ==> p.Weight(i, j) == p.Weight(j, i);
    }
    if FieldsAccurate(p, Flipped(s, i), updated) {
      forall j | 0 <= j < p.n
        ensures p.Weight(i, j) == p.Weight(j, i)
      {
        assert updated[j] == SparseField(p, Flipped(s, i), j);
      }
    }
  }
}
