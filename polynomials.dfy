/**
 * What `compute_polynomials` produces: one polynomial per column of
 * `all_cols`, then one `c_shift` polynomial per column `c` of
 * `to_be_shifted`, each with as many coefficients as the circuit subgroup.
 * The columns hold the trace transposed and padded with zeros;
 * `Polynomial::shifted()` is taken as the law `s[i] = p[i+1]`, zero at the
 * last index.
 */
module Polynomials {
  import opened Fields
  import opened Rows
  import opened Naming
  import opened ShiftBuilder

  type Polynomial = seq<Fr>

  /** Column `name` of the trace, padded with zeros to `size` coefficients. */
  function Column(rows: seq<Row>, name: string, size: nat): (p: Polynomial)
    ensures |p| == size
  {
    seq(size, i requires 0 <= i < size => if i < |rows| then Cell(rows[i], name) else 0)
  }

  /** `p.shifted()`: coefficient i is coefficient i+1 of `p`, and the last one is zero. */
  function Shifted(p: Polynomial): (s: Polynomial)
    ensures |s| == |p|
  {
    seq(|p|, i requires 0 <= i < |p| => if i + 1 < |p| then p[i + 1] else 0)
  }

  /** The position of `name` in `names`. */
  function IndexOf(names: seq<string>, name: string): (q: nat)
    requires name in names
    ensures q < |names| && names[q] == name
  {
    if names[0] == name then 0 else 1 + IndexOf(names[1..], name)
  }

  /** The polynomial set: the columns, then the shifted copies. */
  function AllPolys(rows: seq<Row>, allCols: seq<string>, toBeShifted: seq<string>, size: nat)
    : (polys: seq<Polynomial>)
    ensures |polys| == |allCols| + |toBeShifted|
  {
    seq(|allCols|, q requires 0 <= q < |allCols| => Column(rows, allCols[q], size))
      + seq(|toBeShifted|, t requires 0 <= t < |toBeShifted| => Shifted(Column(rows, toBeShifted[t], size)))
  }

  /** Polynomial q of the set is column q, or the shifted copy of shifted column q - |allCols|. */
  lemma AllPolysAt(rows: seq<Row>, allCols: seq<string>, toBeShifted: seq<string>, size: nat, q: nat)
    requires q < |allCols| + |toBeShifted|
    ensures q < |allCols| ==> AllPolys(rows, allCols, toBeShifted, size)[q] == Column(rows, allCols[q], size)
    ensures q >= |allCols| ==>
      AllPolys(rows, allCols, toBeShifted, size)[q] == Shifted(Column(rows, toBeShifted[q - |allCols|], size))
  {
  }

  /** The rows of a polynomial set of `size` coefficients each: row i holds coefficient i of every polynomial. */
  function RowsOf(polys: seq<Polynomial>, size: nat): (rows: seq<seq<Fr>>)
    requires forall q :: 0 <= q < |polys| ==> |polys[q]| == size
    ensures |rows| == size
    ensures forall i :: 0 <= i < size ==> |rows[i]| == |polys|
  {
    seq(size, i requires 0 <= i < size => seq(|polys|, q requires 0 <= q < |polys| => polys[q][i]))
  }

  /**
   * Transposition and padding: every polynomial has `size` coefficients;
   * coefficient i of column c is `rows[i].c` for every row and zero past
   * the rows.
   */
  lemma TranspositionLaw(rows: seq<Row>, allCols: seq<string>, toBeShifted: seq<string>, size: nat,
                         q: nat, i: nat)
    requires q < |allCols| && i < size
    ensures |AllPolys(rows, allCols, toBeShifted, size)[q]| == size
    ensures i < |rows| ==> AllPolys(rows, allCols, toBeShifted, size)[q][i] == Cell(rows[i], allCols[q])
    ensures i >= |rows| ==> AllPolys(rows, allCols, toBeShifted, size)[q][i] == 0
  {
  }

  /**
   * The shift polynomial of a shifted column c: coefficient i is
   * coefficient i+1 of the polynomial of c, and the last coefficient is zero.
   */
  lemma ShiftPolynomialLaw(rows: seq<Row>, allCols: seq<string>, toBeShifted: seq<string>, size: nat,
                           t: nat, i: nat)
    requires t < |toBeShifted| && toBeShifted[t] in allCols && i < size
    ensures var polys := AllPolys(rows, allCols, toBeShifted, size);
      var c := IndexOf(allCols, toBeShifted[t]);
      |polys[|allCols| + t]| == size
      && polys[|allCols| + t][i] == (if i + 1 < size then polys[c][i + 1] else 0)
  {
    var polys := AllPolys(rows, allCols, toBeShifted, size);
    assert polys[|allCols| + t] == Shifted(Column(rows, toBeShifted[t], size));
    assert polys[IndexOf(allCols, toBeShifted[t])] == Column(rows, toBeShifted[t], size);
  }

  /**
   * The shift polynomials agree with the shift members the read loop
   * builds. When `rows` is the output of the shift loop over `base` (with
   * no more rows than the subgroup holds), coefficient i of the shift
   * polynomial of c is `rows[i].c_shift` for every row and zero past the
   * rows, provided `c` is not itself a shift member and the last row of
   * `base` holds no `c_shift` of its own.
   */
  lemma ShiftAgreement(base: seq<Row>, allCols: seq<string>, toBeShifted: seq<string>, size: nat, t: nat, i: nat)
    requires t < |toBeShifted| && i < size && |base| <= size
    requires toBeShifted[t] !in ShiftKeys(toBeShifted)
    requires |base| > 0 ==> Cell(base[|base| - 1], ShiftKey(toBeShifted[t])) == 0
    ensures var rows := Shifts(base, toBeShifted);
      var polys := AllPolys(rows, allCols, toBeShifted, size);
      polys[|allCols| + t][i] == (if i < |rows| then Cell(rows[i], ShiftKey(toBeShifted[t])) else 0)
  {
    var rows := Shifts(base, toBeShifted);
    var c := toBeShifted[t];
    AllPolysAt(rows, allCols, toBeShifted, size, |allCols| + t);
    ShiftedColumnAt(rows, c, size, i);
    if i < |rows| {
      ShiftedTraceStep(base, toBeShifted, i, c);
    }
  }

  /** Coefficient i of the shifted column c is c of row i+1, or zero past the rows. */
  lemma ShiftedColumnAt(rows: seq<Row>, c: string, size: nat, i: nat)
    requires i < size && |rows| <= size
    ensures Shifted(Column(rows, c, size))[i] == (if i + 1 < |rows| then Cell(rows[i + 1], c) else 0)
  {
  }
}
