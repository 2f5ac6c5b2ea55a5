/**
 * The emitted `build_shifts` loop: every row except the last gets, for each
 * shifted column `c`, the member `c_shift` set to the next row's `c`.
 */
module ShiftBuilder {
  import opened Fields
  import opened Rows
  import opened Naming

  /**
   * The body of one iteration: for each shifted column `c`, in order, the
   * member `c_shift` of the row takes the next row's `c`.
   */
  function ShiftRow(row: Row, next: Row, shifted: seq<string>): Row
    decreases |shifted|
  {
    if shifted == [] then row
    else ShiftRow(row[ShiftKey(shifted[0]) := Cell(next, shifted[0])], next, shifted[1..])
  }

  /** Members that are not shift members of the list are untouched. */
  lemma {:induction false} ShiftRowKeeps(row: Row, next: Row, shifted: seq<string>, key: string)
    requires key !in ShiftKeys(shifted)
    ensures Cell(ShiftRow(row, next, shifted), key) == Cell(row, key)
    decreases |shifted|
  {
    if shifted != [] {
      assert ShiftKeys(shifted) == [ShiftKey(shifted[0])] + ShiftKeys(shifted[1..]);
      ShiftRowKeeps(row[ShiftKey(shifted[0]) := Cell(next, shifted[0])], next, shifted[1..], key);
    }
  }

  /** The shift member of each listed column holds the next row's value. */
  lemma {:induction false} ShiftRowSets(row: Row, next: Row, shifted: seq<string>, s: string)
    requires s in shifted
    ensures Cell(ShiftRow(row, next, shifted), ShiftKey(s)) == Cell(next, s)
    decreases |shifted|
  {
    var row' := row[ShiftKey(shifted[0]) := Cell(next, shifted[0])];
    if s in shifted[1..] {
      ShiftRowSets(row', next, shifted[1..], s);
    } else {
      assert s == shifted[0];
      if ShiftKey(s) in ShiftKeys(shifted[1..]) {
        var t :| 0 <= t < |shifted[1..]| && ShiftKeys(shifted[1..])[t] == ShiftKey(s);
        ShiftKeyInjective(shifted[1..][t], s);
        assert false;
      }
      ShiftRowKeeps(row', next, shifted[1..], ShiftKey(s));
    }
  }

  /** The trace after the shift loop. */
  function Shifts(rows: seq<Row>, shifted: seq<string>): (r: seq<Row>)
    ensures |r| == |rows|
  {
    seq(|rows|, i requires 0 <= i < |rows| =>
      if i + 1 < |rows| then ShiftRow(rows[i], rows[i + 1], shifted) else rows[i])
  }

  /**
   * The shift law: the shift member of row i holds row i+1's value for
   * every row but the last; the last row is unchanged (no wrap to row 0);
   * no member other than a shift member changes.
   */
  lemma ShiftLaw(rows: seq<Row>, shifted: seq<string>)
    ensures forall i, s :: 0 <= i < |rows| - 1 && s in shifted ==>
      Cell(Shifts(rows, shifted)[i], ShiftKey(s)) == Cell(rows[i + 1], s)
    ensures forall i, key :: 0 <= i < |rows| && key !in ShiftKeys(shifted) ==>
      Cell(Shifts(rows, shifted)[i], key) == Cell(rows[i], key)
    ensures |rows| > 0 ==> Shifts(rows, shifted)[|rows| - 1] == rows[|rows| - 1]
  {
    forall i, s | 0 <= i < |rows| - 1 && s in shifted
      ensures Cell(Shifts(rows, shifted)[i], ShiftKey(s)) == Cell(rows[i + 1], s)
    {
      ShiftRowSets(rows[i], rows[i + 1], shifted, s);
    }
    forall i, key | 0 <= i < |rows| - 1 && key !in ShiftKeys(shifted)
      ensures Cell(Shifts(rows, shifted)[i], key) == Cell(rows[i], key)
    {
      ShiftRowKeeps(rows[i], rows[i + 1], shifted, key);
    }
  }

  /**
   * In the shifted trace itself: the shift member of c in row i holds c of
   * row i+1, for a shifted column c that is not itself a shift member.
   */
  lemma ShiftNextRow(rows: seq<Row>, shifted: seq<string>, i: nat, c: string)
    requires i + 1 < |rows| && c in shifted && c !in ShiftKeys(shifted)
    ensures Cell(Shifts(rows, shifted)[i], ShiftKey(c)) == Cell(Shifts(rows, shifted)[i + 1], c)
  {
    ShiftRowSets(rows[i], rows[i + 1], shifted, c);
    if i + 2 < |rows| {
      ShiftRowKeeps(rows[i + 1], rows[i + 2], shifted, c);
    }
  }

  /**
   * Read along the shifted trace: the shift member of c in row i is c of
   * row i+1, and zero in the last row when the last row held no shift
   * member of c before the loop.
   */
  lemma ShiftedTraceStep(rows: seq<Row>, shifted: seq<string>, i: nat, c: string)
    requires i < |rows| && c in shifted && c !in ShiftKeys(shifted)
    requires Cell(rows[|rows| - 1], ShiftKey(c)) == 0
    ensures Cell(Shifts(rows, shifted)[i], ShiftKey(c))
         == (if i + 1 < |rows| then Cell(Shifts(rows, shifted)[i + 1], c) else 0)
  {
    if i + 1 < |rows| {
      ShiftNextRow(rows, shifted, i, c);
    }
  }

  /**
   * The emitted loop: for i from 1 below the number of rows, row i-1 takes
   * each shift member from row i mod the number of rows (which is i).
   */
  method ConstructShifts(rows: seq<Row>, shifted: seq<string>) returns (out: seq<Row>)
    ensures out == Shifts(rows, shifted)
  {
    out := rows;
    var i := 1;
    while i < |out|
      invariant |out| == |rows|
      invariant if |rows| == 0 then i == 1 else 1 <= i <= |rows|
      invariant forall k :: 0 <= k < i - 1 ==> out[k] == Shifts(rows, shifted)[k]
      invariant forall k :: i - 1 <= k < |rows| ==> out[k] == rows[k]
    {
      var row: Row := out[i - 1];
      var j := 0;
      while j < |shifted|
        invariant 0 <= j <= |shifted|
        invariant ShiftRow(row, rows[i], shifted[j..]) == ShiftRow(rows[i - 1], rows[i], shifted)
      {
        assert i % |out| == i;
        assert shifted[j..][1..] == shifted[j + 1..];
        row := row[ShiftKey(shifted[j]) := Cell(out[i % |out|], shifted[j])];
        j := j + 1;
      }
      out := out[i - 1 := row];
      i := i + 1;
    }
  }
}
