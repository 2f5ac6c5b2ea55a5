/**
 * The generated `TraceBuilder` class: it holds the trace rows, reads them
 * from the two files (`build_circuit`), turns them into polynomials padded
 * to the circuit subgroup size (`compute_polynomials`) and checks the
 * generated relation on every row of those polynomials (`check_circuit`).
 */
module CircuitTrace {
  import opened Options
  import opened Fields
  import opened Streams
  import opened FieldReader
  import opened Rows
  import opened Naming
  import opened ShiftBuilder
  import opened TraceReader
  import opened TraceLaws
  import opened Subgroup
  import opened Polynomials
  import opened RelationCheck

  class TraceBuilder {
    /** The column lists the generator was given. */
    const fixedNames: seq<string>
    const witnessNames: seq<string>
    const allCols: seq<string>
    const toBeShifted: seq<string>
    /** `std::vector<Row> rows`. */
    var rows: seq<Row>

    /**
     * What the generated code needs of its column lists: a witness column
     * for the read loop to advance, at least one polynomial (`polys[0]`),
     * distinct member names, and a polynomial for every shifted column.
     */
    predicate Valid()
      reads this
    {
      witnessNames != [] && allCols != [] && Distinct(allCols)
      && forall s :: s in toBeShifted ==> s in allCols
    }

    constructor (fixedNames: seq<string>, witnessNames: seq<string>, allCols: seq<string>, toBeShifted: seq<string>)
      requires witnessNames != [] && allCols != [] && Distinct(allCols)
      requires forall s :: s in toBeShifted ==> s in allCols
      ensures Valid() && rows == []
      ensures this.fixedNames == fixedNames && this.witnessNames == witnessNames
      ensures this.allCols == allCols && this.toBeShifted == toBeShifted
    {
      this.fixedNames := fixedNames;
      this.witnessNames := witnessNames;
      this.allCols := allCols;
      this.toBeShifted := toBeShifted;
      rows := [];
    }

    /** `build_circuit()`: the rows of the two files. */
    method BuildCircuit(committed: Option<seq<byte>>, constants: Option<seq<byte>>, decode: Decoder,
                        stale: FieldBytes)
      requires Valid()
      modifies this
      ensures Valid()
      ensures rows == ReadBothFiles(committed, constants, fixedNames, witnessNames, toBeShifted, decode, stale)
    {
      rows := ReadBothFileIntoCols(committed, constants, fixedNames, witnessNames, toBeShifted, decode, stale);
    }

    /** `get_num_gates()`. */
    function GetNumGates(): nat
      reads this
    {
      |rows|
    }

    /** `get_circuit_subgroup_size()`: a power of two that holds every row, less than twice their number. */
    function GetCircuitSubgroupSize(): (size: nat)
      requires |rows| >= 1
      reads this
      ensures IsPowerOfTwo(size) && GetNumGates() <= size < 2 * GetNumGates()
    {
      SubgroupSizeBounds(GetNumGates());
      SubgroupSize(GetNumGates())
    }

    /**
     * `compute_polynomials()`: zeroed polynomials of the subgroup size, one
     * per column and one per shifted column; the rows copied in row by
     * row, one assignment per column; each shift polynomial set from its
     * column's `shifted()`.
     */
    method ComputePolynomials() returns (polys: array2<Fr>)
      requires Valid() && |rows| >= 1
      ensures fresh(polys)
      ensures polys.Length0 == |allCols| + |toBeShifted| && polys.Length1 == GetCircuitSubgroupSize()
      ensures forall q, i :: 0 <= q < polys.Length0 && 0 <= i < polys.Length1 ==>
        polys[q, i] == AllPolys(rows, allCols, toBeShifted, polys.Length1)[q][i]
    {
      var numRows := GetCircuitSubgroupSize();
      polys := new Fr[|allCols| + |toBeShifted|, numRows];
      ZeroPolynomials(polys);
      CopyRows(polys, rows, allCols);
      ShiftColumns(polys, rows, allCols, toBeShifted);
      forall q, i | 0 <= q < polys.Length0 && 0 <= i < polys.Length1
        ensures polys[q, i] == AllPolys(rows, allCols, toBeShifted, numRows)[q][i]
      {
        AllPolysAt(rows, allCols, toBeShifted, numRows, q);
      }
    }

    /**
     * `check_circuit()`: read the rows, compute the polynomials and check
     * the relation on each of their rows.
     */
    method CheckCircuit(committed: Option<seq<byte>>, constants: Option<seq<byte>>, decode: Decoder,
                        stale: FieldBytes, rel: Relation) returns (outcome: Outcome)
      requires Valid() && committed.Some? && constants.Some? && 32 * |witnessNames| <= |committed.value|
      modifies this
      ensures rows == ReadBothFiles(committed, constants, fixedNames, witnessNames, toBeShifted, decode, stale)
      ensures |rows| >= 1
      ensures outcome == CheckRows(rel, RowsOf(AllPolys(rows, allCols, toBeShifted, SubgroupSize(|rows|)),
                                               SubgroupSize(|rows|)), 0)
      ensures outcome == Success <==>
        var polyRows := RowsOf(AllPolys(rows, allCols, toBeShifted, SubgroupSize(|rows|)), SubgroupSize(|rows|));
        forall i, j :: 0 <= i < |polyRows| && 0 <= j < rel.numSubrelations ==> rel.contribution(polyRows[i], j) == 0
    {
      BuildCircuit(committed, constants, decode, stale);
      ReadBothFilesLength(committed.value, constants.value, fixedNames, witnessNames, toBeShifted, decode, stale);
      var polys := ComputePolynomials();
      ghost var size := SubgroupSize(|rows|);
      ghost var spec := AllPolys(rows, allCols, toBeShifted, size);
      ArrayRows(polys, spec, size);
      outcome := EvaluateRelation(polys, rel);
      CheckRowsSucceedsIff(rel, RowsOf(spec, size), 0);
    }
  }

  /**
   * On the trace the two files produce, the shift polynomial of a shifted
   * column c holds, at every row, the row's own member `c_shift`, and zero in
   * the padding: the shifts computed on rows and on polynomials agree, because
   * the last row's `c_shift` is never written and stays zero.
   */
  lemma TraceShiftPolynomial(c: seq<byte>, k: seq<byte>, fixedNames: seq<string>, witnessNames: seq<string>,
                             shifted: seq<string>, value: Reading, allCols: seq<string>, size: nat, t: nat, i: nat)
    requires ReadsAnyStream(value) && witnessNames != []
    requires t < |shifted| && i < size && |Trace(c, k, fixedNames, witnessNames, shifted, value)| <= size
    requires shifted[t] !in ShiftKeys(shifted) && ShiftKey(shifted[t]) !in AllNames(fixedNames, witnessNames)
    ensures var rows := Trace(c, k, fixedNames, witnessNames, shifted, value);
      AllPolys(rows, allCols, shifted, size)[|allCols| + t][i]
      == (if i < |rows| then Cell(rows[i], ShiftKey(shifted[t])) else 0)
  {
    var pushed := ReadRows(Opened(c), Opened(k), fixedNames, witnessNames, value);
    var base := pushed[..|pushed| - 1];
    if |base| > 0 {
      ReadRowsOtherCell(Opened(c), Opened(k), fixedNames, witnessNames, value, |base| - 1, ShiftKey(shifted[t]));
      assert base[|base| - 1] == pushed[|base| - 1];
    }
    ShiftAgreement(base, allCols, shifted, size, t, i);
  }

  /** `polys.get_row(i)` on an array that holds a polynomial set reads row i of the set. */
  lemma ArrayRows(polys: array2<Fr>, spec: seq<Polynomial>, size: nat)
    requires polys.Length0 == |spec| && polys.Length1 == size
    requires forall q :: 0 <= q < |spec| ==> |spec[q]| == size
    requires forall q, i :: 0 <= q < polys.Length0 && 0 <= i < polys.Length1 ==> polys[q, i] == spec[q][i]
    ensures PolyRows(polys) == RowsOf(spec, size)
  {
    forall i | 0 <= i < size
      ensures PolyRows(polys)[i] == RowsOf(spec, size)[i]
    {
      assert forall q :: 0 <= q < polys.Length0 ==> PolyRow(polys, i)[q] == spec[q][i];
    }
  }

  /** Every coefficient of every polynomial starts at zero. */
  method ZeroPolynomials(polys: array2<Fr>)
    modifies polys
    ensures forall q, i :: 0 <= q < polys.Length0 && 0 <= i < polys.Length1 ==> polys[q, i] == 0
  {
    var q := 0;
    while q < polys.Length0
      invariant 0 <= q <= polys.Length0
      invariant forall q', i :: 0 <= q' < q && 0 <= i < polys.Length1 ==> polys[q', i] == 0
    {
      var i := 0;
      while i < polys.Length1
        invariant 0 <= i <= polys.Length1
        invariant forall q', i' :: 0 <= q' < q && 0 <= i' < polys.Length1 ==> polys[q', i'] == 0
        invariant forall i' :: 0 <= i' < i ==> polys[q, i'] == 0
      {
        polys[q, i] := 0;
        i := i + 1;
      }
      q := q + 1;
    }
  }

  /**
   * The copy loop of `compute_polynomials`: for every row i and every
   * column c, coefficient i of the polynomial of c takes member c of row i;
   * the padding of the zeroed column polynomials is left as it was.
   */
  method CopyRows(polys: array2<Fr>, rows: seq<Row>, allCols: seq<string>)
    requires |allCols| <= polys.Length0 && |rows| <= polys.Length1
    requires forall q, i :: 0 <= q < |allCols| && 0 <= i < polys.Length1 ==> polys[q, i] == 0
    modifies polys
    ensures forall q, i :: 0 <= q < |allCols| && 0 <= i < polys.Length1 ==>
      polys[q, i] == Column(rows, allCols[q], polys.Length1)[i]
    ensures forall q, i :: |allCols| <= q < polys.Length0 && 0 <= i < polys.Length1 ==>
      polys[q, i] == old(polys[q, i])
  {
    var i := 0;
    while i < |rows|
      invariant 0 <= i <= |rows|
      invariant forall q, i' :: 0 <= q < |allCols| && 0 <= i' < polys.Length1 ==>
        polys[q, i'] == (if i' < i then Cell(rows[i'], allCols[q]) else 0)
      invariant forall q, i' :: |allCols| <= q < polys.Length0 && 0 <= i' < polys.Length1 ==>
        polys[q, i'] == old(polys[q, i'])
    {
      var q := 0;
      while q < |allCols|
        invariant 0 <= q <= |allCols|
        invariant forall q', i' :: 0 <= q' < |allCols| && 0 <= i' < polys.Length1 ==>
          polys[q', i'] == (if i' < i || (i' == i && q' < q) then Cell(rows[i'], allCols[q']) else 0)
        invariant forall q', i' :: |allCols| <= q' < polys.Length0 && 0 <= i' < polys.Length1 ==>
          polys[q', i'] == old(polys[q', i'])
      {
        polys[q, i] := Cell(rows[i], allCols[q]);
        q := q + 1;
      }
      i := i + 1;
    }
  }

  /**
   * The shift assignments of `compute_polynomials`: the polynomial
   * `c_shift` becomes the shifted copy of the polynomial of c, for every
   * shifted column c; the column polynomials are left unchanged.
   */
  method ShiftColumns(polys: array2<Fr>, rows: seq<Row>, allCols: seq<string>, toBeShifted: seq<string>)
    requires polys.Length0 == |allCols| + |toBeShifted|
    requires forall s :: s in toBeShifted ==> s in allCols
    requires forall q, i :: 0 <= q < |allCols| && 0 <= i < polys.Length1 ==>
      polys[q, i] == Column(rows, allCols[q], polys.Length1)[i]
    modifies polys
    ensures forall q, i :: 0 <= q < |allCols| && 0 <= i < polys.Length1 ==>
      polys[q, i] == Column(rows, allCols[q], polys.Length1)[i]
    ensures forall t, i :: 0 <= t < |toBeShifted| && 0 <= i < polys.Length1 ==>
      polys[|allCols| + t, i] == Shifted(Column(rows, toBeShifted[t], polys.Length1))[i]
  {
    var size := polys.Length1;
    var t := 0;
    while t < |toBeShifted|
      invariant 0 <= t <= |toBeShifted|
      invariant forall q, i :: 0 <= q < |allCols| && 0 <= i < size ==>
        polys[q, i] == Column(rows, allCols[q], size)[i]
      invariant forall t', i :: 0 <= t' < t && 0 <= i < size ==>
        polys[|allCols| + t', i] == Shifted(Column(rows, toBeShifted[t'], size))[i]
    {
      var c := IndexOf(allCols, toBeShifted[t]);
      var i := 0;
      while i < size
        invariant 0 <= i <= size
        invariant forall q, i' :: 0 <= q < |allCols| && 0 <= i' < size ==>
          polys[q, i'] == Column(rows, allCols[q], size)[i']
        invariant forall t', i' :: 0 <= t' < t && 0 <= i' < size ==>
          polys[|allCols| + t', i'] == Shifted(Column(rows, toBeShifted[t'], size))[i']
        invariant forall i' :: 0 <= i' < i ==>
          polys[|allCols| + t, i'] == Shifted(Column(rows, toBeShifted[t], size))[i']
      {
        polys[|allCols| + t, i] := if i + 1 < size then polys[c, i + 1] else 0;
        i := i + 1;
      }
      t := t + 1;
    }
  }
}
