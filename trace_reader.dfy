/**
 * The emitted `read_both_file_into_cols`: open the committed (witness) file
 * and the constants file, and while the committed stream is still good
 * build one row from one constants read per fixed column and one committed
 * read per witness column, in schema order; then drop the last pushed row
 * (the loop only notices the end of the committed stream one iteration
 * late) and build the shift members.
 *
 * The row-level functions take the value of one read as a `Reading` of the
 * stream state; the trace the source builds uses `FieldReading`, the value
 * `read_field` returns.
 */
module TraceReader {
  import opened Options
  import opened Fields
  import opened Streams
  import opened FieldReader
  import opened Rows
  import opened Naming
  import opened ShiftBuilder

  /** The stream after `k` consecutive 32-byte reads. */
  function AfterReads(s: StreamState, k: nat): (t: StreamState)
    requires WellFormed(s)
    ensures WellFormed(t) && t.data == s.data
    ensures Remaining(t) <= Remaining(s)
    ensures k > 0 && s.good ==> Remaining(t) < Remaining(s)
    decreases k
  {
    if k == 0 then s else AfterReads(AfterRead(s), k - 1)
  }

  /**
   * The row after the generated assignments of `read_field(file)` to the
   * member of each column name, in order, the member named by the mangled name.
   */
  function ReadFields(row: Row, names: seq<string>, s: StreamState, value: Reading): Row
    requires WellFormed(s) && ReadsAnyStream(value)
    decreases |names|
  {
    if names == [] then row
    else ReadFields(row[Mangle(names[0]) := value(s)], names[1..], AfterRead(s), value)
  }

  /**
   * The row one iteration of the read loop builds when the committed stream
   * is in state `cm` and the constants stream in state `ct`: `Row{}`, then
   * the fixed members from `ct`, then the witness members from `cm`.
   */
  function RowFrom(cm: StreamState, ct: StreamState, fixedNames: seq<string>, witnessNames: seq<string>,
                   value: Reading): Row
    requires WellFormed(cm) && WellFormed(ct) && ReadsAnyStream(value)
  {
    ReadFields(ReadFields(EmptyRow, fixedNames, ct, value), witnessNames, cm, value)
  }

  /**
   * The rows `while (commited_file)` pushes, the extra last one included,
   * when the committed stream starts in state `cm` and the constants stream
   * in state `ct`: one row per iteration, each made of |fixedNames| reads
   * of the constants stream and |witnessNames| reads of the committed one.
   */
  function ReadRows(cm: StreamState, ct: StreamState, fixedNames: seq<string>, witnessNames: seq<string>,
                    value: Reading): (rows: seq<Row>)
    requires WellFormed(cm) && WellFormed(ct) && ReadsAnyStream(value) && witnessNames != []
    ensures cm.good ==> |rows| >= 1
    decreases Remaining(cm)
  {
    if !cm.good then []
    else
      var first := RowFrom(cm, ct, fixedNames, witnessNames, value);
      [first] + ReadRows(AfterReads(cm, |witnessNames|), AfterReads(ct, |fixedNames|), fixedNames, witnessNames,
                         value)
  }

  /** The trace built from two opened files: the pushed rows minus the last, with shift members. */
  function Trace(committed: seq<byte>, constants: seq<byte>, fixedNames: seq<string>, witnessNames: seq<string>,
                 shifted: seq<string>, value: Reading): seq<Row>
    requires ReadsAnyStream(value) && witnessNames != []
  {
    var pushed := ReadRows(Opened(committed), Opened(constants), fixedNames, witnessNames, value);
    Shifts(pushed[..|pushed| - 1], shifted)
  }

  /**
   * The trace `read_both_file_into_cols` returns, given the contents of the
   * two files (`None` for a file that does not open).
   */
  function ReadBothFiles(committed: Option<seq<byte>>, constants: Option<seq<byte>>,
                         fixedNames: seq<string>, witnessNames: seq<string>, shifted: seq<string>,
                         decode: Decoder, stale: FieldBytes): seq<Row>
    requires witnessNames != []
  {
    if committed.None? || constants.None? then []
    else Trace(committed.value, constants.value, fixedNames, witnessNames, shifted, FieldReading(decode, stale))
  }

  /** The generated assignments of `read_field(file)` to the members of `names`, run on an open stream. */
  method ReadInto(row: Row, names: seq<string>, file: InputStream, decode: Decoder, stale: FieldBytes)
    returns (current: Row)
    requires file.Valid()
    modifies file
    ensures file.Valid()
    ensures current == ReadFields(row, names, old(file.State()), FieldReading(decode, stale))
    ensures file.State() == AfterReads(old(file.State()), |names|)
  {
    current := row;
    ghost var value := FieldReading(decode, stale);
    ghost var start := file.State();
    var j := 0;
    while j < |names|
      invariant 0 <= j <= |names|
      invariant file.Valid()
      invariant ReadFields(current, names[j..], file.State(), value) == ReadFields(row, names, start, value)
      invariant AfterReads(file.State(), |names| - j) == AfterReads(start, |names|)
    {
      assert names[j..][1..] == names[j + 1..];
      var v := ReadField(file, decode, stale);
      current := current[Mangle(names[j]) := v];
      j := j + 1;
    }
  }

  /**
   * The read loop: while the committed stream is good, build a zeroed row,
   * read its fixed then its witness members, and push it.
   */
  method PushRows(commitedFile: InputStream, constantFile: InputStream, fixedNames: seq<string>,
                  witnessNames: seq<string>, decode: Decoder, stale: FieldBytes) returns (rows: seq<Row>)
    requires commitedFile != constantFile && commitedFile.Valid() && constantFile.Valid() && witnessNames != []
    modifies commitedFile, constantFile
    ensures rows == ReadRows(old(commitedFile.State()), old(constantFile.State()), fixedNames, witnessNames,
                             FieldReading(decode, stale))
    ensures commitedFile.Valid() && !commitedFile.good
  {
    rows := [];
    ghost var value := FieldReading(decode, stale);
    ghost var all := ReadRows(commitedFile.State(), constantFile.State(), fixedNames, witnessNames, value);
    while commitedFile.good
      invariant commitedFile.Valid() && constantFile.Valid()
      invariant rows + ReadRows(commitedFile.State(), constantFile.State(), fixedNames, witnessNames, value) == all
      decreases Remaining(commitedFile.State())
    {
      ghost var cm0, ct0 := commitedFile.State(), constantFile.State();
      var currentRow := ReadInto(EmptyRow, fixedNames, constantFile, decode, stale);
      assert commitedFile.State() == cm0;
      ghost var ct1 := constantFile.State();
      currentRow := ReadInto(currentRow, witnessNames, commitedFile, decode, stale);
      assert constantFile.State() == ct1;
      assert currentRow == RowFrom(cm0, ct0, fixedNames, witnessNames, value);
      ReadRowsStep(rows, cm0, ct0, fixedNames, witnessNames, value, all);
      rows := rows + [currentRow];
    }
  }

  /**
   * `read_both_file_into_cols(commited_filename, constants_filename)`: an
   * empty trace when either file does not open; otherwise the pushed rows
   * without the last one (`rows.pop_back()`), with shift members.
   */
  method ReadBothFileIntoCols(committed: Option<seq<byte>>, constants: Option<seq<byte>>,
                              fixedNames: seq<string>, witnessNames: seq<string>, shifted: seq<string>,
                              decode: Decoder, stale: FieldBytes) returns (rows: seq<Row>)
    requires witnessNames != []
    ensures committed.None? || constants.None? ==> rows == []
    ensures rows == ReadBothFiles(committed, constants, fixedNames, witnessNames, shifted, decode, stale)
  {
    if committed.None? {
      return [];
    }
    var commitedFile := new InputStream.Open(committed.value);
    if constants.None? {
      return [];
    }
    var constantFile := new InputStream.Open(constants.value);
    rows := PushRows(commitedFile, constantFile, fixedNames, witnessNames, decode, stale);
    rows := rows[..|rows| - 1];
    rows := ConstructShifts(rows, shifted);
  }

  /** One iteration of the read loop pushes the row built from the streams' states, then goes on from the states it leaves. */
  lemma ReadRowsStep(rows: seq<Row>, cm: StreamState, ct: StreamState, fixedNames: seq<string>,
                     witnessNames: seq<string>, value: Reading, all: seq<Row>)
    requires WellFormed(cm) && WellFormed(ct) && ReadsAnyStream(value) && witnessNames != [] && cm.good
    requires rows + ReadRows(cm, ct, fixedNames, witnessNames, value) == all
    ensures rows + [RowFrom(cm, ct, fixedNames, witnessNames, value)]
          + ReadRows(AfterReads(cm, |witnessNames|), AfterReads(ct, |fixedNames|), fixedNames, witnessNames, value)
         == all
  {
  }

  /** `r * w`, counted up one `w` at a time. */
  function Times(r: nat, w: nat): nat
  {
    if r == 0 then 0 else Times(r - 1, w) + w
  }

  lemma {:induction false} TimesIsProduct(r: nat, w: nat)
    ensures Times(r, w) == r * w
  {
    if r > 0 {
      TimesIsProduct(r - 1, w);
      assert (r - 1) * w + w == r * w;
    }
  }

  lemma {:induction false} TimesMonotone(a: nat, b: nat, w: nat)
    requires a <= b
    ensures Times(a, w) <= Times(b, w)
    decreases b
  {
    if a < b {
      TimesMonotone(a, b - 1, w);
    }
  }

  /**
   * The stream stays good after k reads exactly when every read was full,
   * and then it has advanced by 32 bytes per read.
   */
  lemma {:induction false} AfterReadsStream(s: StreamState, k: nat)
    requires WellFormed(s)
    ensures AfterReads(s, k).good <==> s.good && s.pos + 32 * k <= |s.data|
    ensures AfterReads(s, k).good ==> AfterReads(s, k).pos == s.pos + 32 * k
    decreases k
  {
    if k > 0 {
      AfterReadLaw(s);
      AfterReadsStream(AfterRead(s), k - 1);
    }
  }

  /** The k-th read of a stream that still holds it decodes the 32 bytes at offset 32*k. */
  lemma ReadValueAt(s: StreamState, k: nat, value: Reading, decode: Decoder)
    requires WellFormed(s) && s.good && s.pos + 32 * k + 32 <= |s.data|
    requires ReadsAnyStream(value) && DecodesFullReads(value, decode)
    ensures value(AfterReads(s, k)) == ElementAt(s.data, s.pos + 32 * k, decode)
  {
    AfterReadsStream(s, k);
  }

  /** a reads followed by k reads are a + k reads. */
  lemma {:induction false} AfterReadsAdd(s: StreamState, a: nat, k: nat)
    requires WellFormed(s)
    ensures AfterReads(AfterReads(s, a), k) == AfterReads(s, a + k)
    decreases a
  {
    if a > 0 {
      AfterReadsAdd(AfterRead(s), a - 1, k);
    }
  }

  /** Starting w reads later and making r - 1 more rounds of w reads is r rounds of w reads. */
  lemma RoundsLater(s: StreamState, w: nat, r: nat)
    requires WellFormed(s) && r > 0
    ensures AfterReads(AfterReads(s, w), Times(r - 1, w)) == AfterReads(s, Times(r, w))
  {
    AfterReadsAdd(s, w, Times(r - 1, w));
  }

  /**
   * Row r is built after r * |witnessNames| reads of the committed stream
   * and r * |fixedNames| reads of the constants stream.
   */
  lemma {:induction false} ReadRowsAt(cm: StreamState, ct: StreamState, fixedNames: seq<string>,
                                      witnessNames: seq<string>, value: Reading, r: nat)
    requires WellFormed(cm) && WellFormed(ct) && ReadsAnyStream(value) && witnessNames != []
    requires r < |ReadRows(cm, ct, fixedNames, witnessNames, value)|
    ensures ReadRows(cm, ct, fixedNames, witnessNames, value)[r]
         == RowFrom(AfterReads(cm, Times(r, |witnessNames|)), AfterReads(ct, Times(r, |fixedNames|)),
                    fixedNames, witnessNames, value)
    decreases r
  {
    if r > 0 {
      var cm', ct' := AfterReads(cm, |witnessNames|), AfterReads(ct, |fixedNames|);
      assert ReadRows(cm, ct, fixedNames, witnessNames, value)[r]
          == ReadRows(cm', ct', fixedNames, witnessNames, value)[r - 1];
      ReadRowsAt(cm', ct', fixedNames, witnessNames, value, r - 1);
      RoundsLater(cm, |witnessNames|, r);
      RoundsLater(ct, |fixedNames|, r);
    }
  }

  /**
   * The loop runs n times, where the n-th row would start past the end of
   * the committed data, but less than a row past it: one iteration more
   * than there are whole rows.
   */
  lemma {:induction false} ReadRowsCount(cm: StreamState, ct: StreamState, fixedNames: seq<string>,
                                         witnessNames: seq<string>, value: Reading)
    requires WellFormed(cm) && WellFormed(ct) && ReadsAnyStream(value) && witnessNames != [] && cm.good
    ensures var n := |ReadRows(cm, ct, fixedNames, witnessNames, value)|;
      |cm.data| < cm.pos + 32 * Times(n, |witnessNames|) <= |cm.data| + 32 * |witnessNames|
    decreases Remaining(cm)
  {
    var cm', ct' := AfterReads(cm, |witnessNames|), AfterReads(ct, |fixedNames|);
    AfterReadsStream(cm, |witnessNames|);
    var m := |ReadRows(cm', ct', fixedNames, witnessNames, value)|;
    assert |ReadRows(cm, ct, fixedNames, witnessNames, value)| == m + 1;
    if cm'.good {
      ReadRowsCount(cm', ct', fixedNames, witnessNames, value);
    }
  }

  /** Members of names that are not written keep their value, whatever the stream does. */
  lemma {:induction false} ReadFieldsKeeps(row: Row, names: seq<string>, s: StreamState, value: Reading,
                                           key: string)
    requires WellFormed(s) && ReadsAnyStream(value)
    requires forall i :: 0 <= i < |names| ==> Mangle(names[i]) != key
    ensures Cell(ReadFields(row, names, s, value), key) == Cell(row, key)
    decreases |names|
  {
    if names != [] {
      ReadFieldsKeeps(row[Mangle(names[0]) := value(s)], names[1..], AfterRead(s), value, key);
    }
  }

  /** With distinct member names, member names[j] holds the value of the j-th read. */
  lemma {:induction false} ReadFieldsAt(row: Row, names: seq<string>, s: StreamState, value: Reading, j: nat)
    requires WellFormed(s) && ReadsAnyStream(value) && Distinct(Mangled(names)) && j < |names|
    ensures Cell(ReadFields(row, names, s, value), Mangle(names[j])) == value(AfterReads(s, j))
    decreases |names|
  {
    var row' := row[Mangle(names[0]) := value(s)];
    assert Mangled(names[1..]) == Mangled(names)[1..];
    if j == 0 {
      forall i | 0 <= i < |names[1..]|
        ensures Mangle(names[1..][i]) != Mangle(names[0])
      {
        assert Mangled(names)[i + 1] != Mangled(names)[0];
      }
      ReadFieldsKeeps(row', names[1..], AfterRead(s), value, Mangle(names[0]));
    } else {
      ReadFieldsAt(row', names[1..], AfterRead(s), value, j - 1);
    }
  }

  /** Witness member j of row r holds the value of committed read r*|witness| + j. */
  lemma ReadRowsWitnessCell(cm: StreamState, ct: StreamState, fixedNames: seq<string>, witnessNames: seq<string>,
                            value: Reading, r: nat, j: nat)
    requires WellFormed(cm) && WellFormed(ct) && ReadsAnyStream(value) && witnessNames != []
    requires Distinct(Mangled(witnessNames)) && j < |witnessNames|
    requires r < |ReadRows(cm, ct, fixedNames, witnessNames, value)|
    ensures Cell(ReadRows(cm, ct, fixedNames, witnessNames, value)[r], Mangle(witnessNames[j]))
         == value(AfterReads(cm, Times(r, |witnessNames|) + j))
  {
    var cmr, ctr := AfterReads(cm, Times(r, |witnessNames|)), AfterReads(ct, Times(r, |fixedNames|));
    ReadRowsAt(cm, ct, fixedNames, witnessNames, value, r);
    RowFromWitnessCell(cmr, ctr, fixedNames, witnessNames, value, j);
    AfterReadsAdd(cm, Times(r, |witnessNames|), j);
  }

  /** Witness member j of a row holds the j-th committed read of its iteration. */
  lemma RowFromWitnessCell(cm: StreamState, ct: StreamState, fixedNames: seq<string>, witnessNames: seq<string>,
                           value: Reading, j: nat)
    requires WellFormed(cm) && WellFormed(ct) && ReadsAnyStream(value)
    requires Distinct(Mangled(witnessNames)) && j < |witnessNames|
    ensures Cell(RowFrom(cm, ct, fixedNames, witnessNames, value), Mangle(witnessNames[j]))
         == value(AfterReads(cm, j))
  {
    ReadFieldsAt(ReadFields(EmptyRow, fixedNames, ct, value), witnessNames, cm, value, j);
  }

  /** Fixed member j of row r holds the value of constants read r*|fixed| + j. */
  lemma ReadRowsFixedCell(cm: StreamState, ct: StreamState, fixedNames: seq<string>, witnessNames: seq<string>,
                          value: Reading, r: nat, j: nat)
    requires WellFormed(cm) && WellFormed(ct) && ReadsAnyStream(value) && witnessNames != []
    requires Distinct(Mangled(fixedNames)) && j < |fixedNames| && Mangle(fixedNames[j]) !in Mangled(witnessNames)
    requires r < |ReadRows(cm, ct, fixedNames, witnessNames, value)|
    ensures Cell(ReadRows(cm, ct, fixedNames, witnessNames, value)[r], Mangle(fixedNames[j]))
         == value(AfterReads(ct, Times(r, |fixedNames|) + j))
  {
    var cmr, ctr := AfterReads(cm, Times(r, |witnessNames|)), AfterReads(ct, Times(r, |fixedNames|));
    ReadRowsAt(cm, ct, fixedNames, witnessNames, value, r);
    RowFromFixedCell(cmr, ctr, fixedNames, witnessNames, value, j);
    AfterReadsAdd(ct, Times(r, |fixedNames|), j);
  }

  /** Fixed member j of a row holds the j-th constants read of its iteration; the witness reads do not overwrite it. */
  lemma RowFromFixedCell(cm: StreamState, ct: StreamState, fixedNames: seq<string>, witnessNames: seq<string>,
                         value: Reading, j: nat)
    requires WellFormed(cm) && WellFormed(ct) && ReadsAnyStream(value)
    requires Distinct(Mangled(fixedNames)) && j < |fixedNames| && Mangle(fixedNames[j]) !in Mangled(witnessNames)
    ensures Cell(RowFrom(cm, ct, fixedNames, witnessNames, value), Mangle(fixedNames[j]))
         == value(AfterReads(ct, j))
  {
    var key := Mangle(fixedNames[j]);
    var fixedRow := ReadFields(EmptyRow, fixedNames, ct, value);
    assert RowFrom(cm, ct, fixedNames, witnessNames, value) == ReadFields(fixedRow, witnessNames, cm, value);
    ReadFieldsAt(EmptyRow, fixedNames, ct, value, j);
    NotMangled(witnessNames, key);
    ReadFieldsKeeps(fixedRow, witnessNames, cm, value, key);
  }

  lemma NotMangled(names: seq<string>, key: string)
    requires key !in Mangled(names)
    ensures forall i :: 0 <= i < |names| ==> Mangle(names[i]) != key
  {
    forall i | 0 <= i < |names|
      ensures Mangle(names[i]) != key
    {
      assert Mangled(names)[i] == Mangle(names[i]);
    }
  }

  /** Rows hold zero for every member that is neither a fixed nor a witness member. */
  lemma ReadRowsOtherCell(cm: StreamState, ct: StreamState, fixedNames: seq<string>, witnessNames: seq<string>,
                          value: Reading, r: nat, key: string)
    requires WellFormed(cm) && WellFormed(ct) && ReadsAnyStream(value) && witnessNames != []
    requires key !in AllNames(fixedNames, witnessNames)
    requires r < |ReadRows(cm, ct, fixedNames, witnessNames, value)|
    ensures Cell(ReadRows(cm, ct, fixedNames, witnessNames, value)[r], key) == 0
  {
    var cmr, ctr := AfterReads(cm, Times(r, |witnessNames|)), AfterReads(ct, Times(r, |fixedNames|));
    ReadRowsAt(cm, ct, fixedNames, witnessNames, value, r);
    forall i | 0 <= i < |fixedNames| ensures Mangle(fixedNames[i]) != key {
      assert AllNames(fixedNames, witnessNames)[i] == Mangle(fixedNames[i]);
    }
    forall i | 0 <= i < |witnessNames| ensures Mangle(witnessNames[i]) != key {
      assert AllNames(fixedNames, witnessNames)[|fixedNames| + i] == Mangle(witnessNames[i]);
    }
    ReadFieldsKeeps(EmptyRow, fixedNames, ctr, value, key);
    ReadFieldsKeeps(ReadFields(EmptyRow, fixedNames, ctr, value), witnessNames, cmr, value, key);
  }

  lemma DistinctPrefix(fixedNames: seq<string>, witnessNames: seq<string>)
    requires Distinct(AllNames(fixedNames, witnessNames))
    ensures Distinct(Mangled(fixedNames))
  {
    forall i, j | 0 <= i < j < |fixedNames|
      ensures Mangled(fixedNames)[i] != Mangled(fixedNames)[j]
    {
      assert AllNames(fixedNames, witnessNames)[i] != AllNames(fixedNames, witnessNames)[j];
    }
  }

  lemma DistinctSuffix(fixedNames: seq<string>, witnessNames: seq<string>)
    requires Distinct(AllNames(fixedNames, witnessNames))
    ensures Distinct(Mangled(witnessNames))
  {
    var all := AllNames(fixedNames, witnessNames);
    forall i, j | 0 <= i < j < |witnessNames|
      ensures Mangled(witnessNames)[i] != Mangled(witnessNames)[j]
    {
      assert all[|fixedNames| + i] != all[|fixedNames| + j];
    }
  }

  lemma DistinctAcross(fixedNames: seq<string>, witnessNames: seq<string>, j: nat)
    requires Distinct(AllNames(fixedNames, witnessNames)) && j < |fixedNames|
    ensures Mangle(fixedNames[j]) !in Mangled(witnessNames)
  {
    var all := AllNames(fixedNames, witnessNames);
    forall i | 0 <= i < |witnessNames|
      ensures Mangled(witnessNames)[i] != Mangle(fixedNames[j])
    {
      assert all[|fixedNames| + i] != all[j];
    }
  }
}
