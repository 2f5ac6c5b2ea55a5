/**
 * The `evaluate_relation` lambda of `check_circuit`: an accumulator with one
 * entry per subrelation, zeroed once; for every row index of the
 * polynomials, `Relation::accumulate` adds that row's contributions, and
 * the first non-zero entry stops the check (`throw false`) with the row and
 * the subrelation index.
 */
module RelationCheck {
  import opened Options
  import opened Fields

  /**
   * The generated relation, reduced to what `accumulate` does with it: a
   * number of subrelations and, for each, the contribution of one row of
   * polynomial values (foreign code, a parameter here).
   */
  datatype Relation = Relation(numSubrelations: nat, contribution: (seq<Fr>, nat) -> Fr)

  /** `true`, or `throw false` after the failing row and subrelation were reported. */
  datatype Outcome = Success | Failure(row: nat, subrelation: nat)

  /** The first subrelation at or after j that the row violates. */
  function FirstFailing(rel: Relation, values: seq<Fr>, j: nat): (r: Option<nat>)
    ensures r.Some? ==> j <= r.value < rel.numSubrelations
    decreases rel.numSubrelations - j
  {
    if j >= rel.numSubrelations then None
    else if rel.contribution(values, j) != 0 then Some(j)
    else FirstFailing(rel, values, j + 1)
  }

  /** The outcome of checking rows i, i+1, ... in order, stopping at the first violation. */
  function CheckRows(rel: Relation, rows: seq<seq<Fr>>, i: nat): (r: Outcome)
    ensures r.Failure? ==> i <= r.row < |rows| && r.subrelation < rel.numSubrelations
    decreases |rows| - i
  {
    if i >= |rows| then Success
    else match FirstFailing(rel, rows[i], 0)
      case Some(j) => Failure(i, j)
      case None => CheckRows(rel, rows, i + 1)
  }

  /**
   * FirstFailing finds nothing exactly when every subrelation from j on is
   * satisfied; what it finds is violated, and all before it from j on are
   * satisfied.
   */
  lemma {:induction false} FirstFailingLaw(rel: Relation, values: seq<Fr>, j: nat)
    ensures FirstFailing(rel, values, j).None? <==>
      forall k :: j <= k < rel.numSubrelations ==> rel.contribution(values, k) == 0
    ensures FirstFailing(rel, values, j).Some? ==>
      var f := FirstFailing(rel, values, j).value;
      j <= f < rel.numSubrelations && rel.contribution(values, f) != 0
      && forall k :: j <= k < f ==> rel.contribution(values, k) == 0
    decreases rel.numSubrelations - j
  {
    if j < rel.numSubrelations && rel.contribution(values, j) == 0 {
      FirstFailingLaw(rel, values, j + 1);
    }
  }

  /** The check succeeds exactly when every row from i on satisfies every subrelation. */
  lemma {:induction false} CheckRowsSucceedsIff(rel: Relation, rows: seq<seq<Fr>>, i: nat)
    ensures CheckRows(rel, rows, i) == Success <==>
      forall r, k :: i <= r < |rows| && 0 <= k < rel.numSubrelations ==> rel.contribution(rows[r], k) == 0
    decreases |rows| - i
  {
    if i < |rows| {
      FirstFailingLaw(rel, rows[i], 0);
      CheckRowsSucceedsIff(rel, rows, i + 1);
    }
  }

  /**
   * A failure names the first violating row from i on and, in it, the first
   * violated subrelation.
   */
  lemma {:induction false} CheckRowsFailureIsFirst(rel: Relation, rows: seq<seq<Fr>>, i: nat)
    ensures CheckRows(rel, rows, i).Failure? ==>
      var r, j := CheckRows(rel, rows, i).row, CheckRows(rel, rows, i).subrelation;
      i <= r < |rows| && j < rel.numSubrelations && rel.contribution(rows[r], j) != 0
      && (forall k :: 0 <= k < j ==> rel.contribution(rows[r], k) == 0)
      && (forall r', k :: i <= r' < r && 0 <= k < rel.numSubrelations ==> rel.contribution(rows[r'], k) == 0)
    decreases |rows| - i
  {
    if i < |rows| {
      FirstFailingLaw(rel, rows[i], 0);
      if FirstFailing(rel, rows[i], 0).None? {
        CheckRowsFailureIsFirst(rel, rows, i + 1);
      }
    }
  }

  /** `polys.get_row(i)`: the value of every polynomial at index i. */
  function PolyRow(polys: array2<Fr>, i: nat): (row: seq<Fr>)
    requires i < polys.Length1
    reads polys
    ensures |row| == polys.Length0
  {
    seq(polys.Length0, q requires 0 <= q < polys.Length0 reads polys => polys[q, i])
  }

  /** Every row of the polynomials. */
  function PolyRows(polys: array2<Fr>): (rows: seq<seq<Fr>>)
    reads polys
    ensures |rows| == polys.Length1
  {
    seq(polys.Length1, i requires 0 <= i < polys.Length1 reads polys => PolyRow(polys, i))
  }

  /** `Relation::accumulate` with scaling factor 1: add each subrelation's contribution to its entry. */
  method Accumulate(rel: Relation, result: array<Fr>, row: seq<Fr>)
    requires result.Length == rel.numSubrelations
    modifies result
    ensures forall j :: 0 <= j < result.Length ==> result[j] == Add(old(result[j]), rel.contribution(row, j))
  {
    var j := 0;
    while j < result.Length
      invariant 0 <= j <= result.Length
      invariant forall k :: 0 <= k < j ==> result[k] == Add(old(result[k]), rel.contribution(row, k))
      invariant forall k :: j <= k < result.Length ==> result[k] == old(result[k])
    {
      result[j] := Add(result[j], rel.contribution(row, j));
      j := j + 1;
    }
  }

  /** `evaluate_relation`, over as many rows as the first polynomial has coefficients. */
  method EvaluateRelation(polys: array2<Fr>, rel: Relation) returns (outcome: Outcome)
    requires polys.Length0 >= 1
    ensures outcome == CheckRows(rel, PolyRows(polys), 0)
  {
    ghost var rows := PolyRows(polys);
    var result := new Fr[rel.numSubrelations];
    var k := 0;
    while k < result.Length
      invariant 0 <= k <= result.Length
      invariant forall j :: 0 <= j < k ==> result[j] == 0
    {
      result[k] := 0;
      k := k + 1;
    }
    var numRows := polys.Length1;
    var i := 0;
    while i < numRows
      invariant 0 <= i <= numRows
      invariant forall j :: 0 <= j < result.Length ==> result[j] == 0
      invariant CheckRows(rel, rows, i) == CheckRows(rel, rows, 0)
    {
      var row := PolyRow(polys, i);
      assert row == rows[i];
      Accumulate(rel, result, row);
      var j := 0;
      while j < result.Length
        invariant 0 <= j <= result.Length
        invariant forall k :: 0 <= k < result.Length ==> result[k] == rel.contribution(row, k)
        invariant FirstFailing(rel, row, j) == FirstFailing(rel, row, 0)
      {
        if result[j] != 0 {
          return Failure(i, j);
        }
        j := j + 1;
      }
      FirstFailingLaw(rel, row, 0);
      i := i + 1;
    }
    return Success;
  }
}
