/**
 * What `read_both_file_into_cols` returns, stated against the bytes of the
 * two files: how many rows, which 32-byte element each member holds, and
 * what the shift members hold.
 */
module TraceLaws {
  import opened Options
  import opened Fields
  import opened Streams
  import opened FieldReader
  import opened Rows
  import opened Naming
  import opened ShiftBuilder
  import opened TraceReader

  /** b*x <= b*y when x <= y. */
  lemma {:induction false} MulMonotone(b: nat, x: nat, y: nat)
    requires x <= y
    ensures b * x <= b * y
    decreases y
  {
    if x < y {
      MulMonotone(b, x, y - 1);
      assert b * y == b * (y - 1) + b;
    }
  }

  lemma MulSucc(b: nat, x: nat)
    ensures b * (x + 1) == b * x + b
  {
  }

  /** The quotient of a by b is q when a lies in [b*q, b*q + b). */
  lemma QuotientFromBounds(a: nat, b: nat, q: nat)
    requires b > 0 && b * q <= a < b * q + b
    ensures a / b == q
  {
    var d := a / b;
    assert a == b * d + a % b;
    if d < q {
      MulSucc(b, d);
      MulMonotone(b, d + 1, q);
    } else if d > q {
      MulSucc(b, q);
      MulMonotone(b, q + 1, d);
    }
  }

  /** The trace read from streams in states `cm` and `ct`: the pushed rows but the last, with shift members. */
  function Popped(cm: StreamState, ct: StreamState, fixedNames: seq<string>, witnessNames: seq<string>,
                  shifted: seq<string>, value: Reading): seq<Row>
    requires WellFormed(cm) && WellFormed(ct) && ReadsAnyStream(value) && witnessNames != [] && cm.good
  {
    var pushed := ReadRows(cm, ct, fixedNames, witnessNames, value);
    Shifts(pushed[..|pushed| - 1], shifted)
  }

  /** The trace of two opened files is the popped trace of their streams. */
  lemma TraceIsPopped(c: seq<byte>, k: seq<byte>, fixedNames: seq<string>, witnessNames: seq<string>,
                      shifted: seq<string>, value: Reading)
    requires ReadsAnyStream(value) && witnessNames != []
    ensures Trace(c, k, fixedNames, witnessNames, shifted, value)
         == Popped(Opened(c), Opened(k), fixedNames, witnessNames, shifted, value)
  {
  }

  /** Row r + 1 of the popped trace ends inside the committed data read so far. */
  lemma PoppedRowInData(cm: StreamState, ct: StreamState, fixedNames: seq<string>, witnessNames: seq<string>,
                        shifted: seq<string>, value: Reading, r: nat, j: nat)
    requires WellFormed(cm) && WellFormed(ct) && ReadsAnyStream(value) && witnessNames != [] && cm.good
    requires r < |Popped(cm, ct, fixedNames, witnessNames, shifted, value)| && j < |witnessNames|
    ensures cm.pos + 32 * (Times(r, |witnessNames|) + j) + 32 <= |cm.data|
  {
    var w := |witnessNames|;
    var n := |ReadRows(cm, ct, fixedNames, witnessNames, value)|;
    ReadRowsCount(cm, ct, fixedNames, witnessNames, value);
    TimesMonotone(r + 1, n - 1, w);
    assert Times(n, w) == Times(n - 1, w) + w;
  }

  /** Popping the last row leaves one row per whole group of |witness| committed elements. */
  lemma PoppedLength(cm: StreamState, ct: StreamState, fixedNames: seq<string>, witnessNames: seq<string>,
                     shifted: seq<string>, value: Reading)
    requires WellFormed(cm) && WellFormed(ct) && ReadsAnyStream(value) && witnessNames != [] && cm.good
    ensures var n := |Popped(cm, ct, fixedNames, witnessNames, shifted, value)|;
      32 * Times(n, |witnessNames|) <= |cm.data| - cm.pos < 32 * Times(n, |witnessNames|) + 32 * |witnessNames|
  {
    ReadRowsCount(cm, ct, fixedNames, witnessNames, value);
  }

  /** Witness member j of popped row r holds committed read r*|witness| + j. */
  lemma PoppedWitnessValue(cm: StreamState, ct: StreamState, fixedNames: seq<string>, witnessNames: seq<string>,
                           shifted: seq<string>, value: Reading, r: nat, j: nat)
    requires WellFormed(cm) && WellFormed(ct) && ReadsAnyStream(value) && witnessNames != [] && cm.good
    requires Distinct(Mangled(witnessNames)) && j < |witnessNames| && Mangle(witnessNames[j]) !in ShiftKeys(shifted)
    requires r < |Popped(cm, ct, fixedNames, witnessNames, shifted, value)|
    ensures Cell(Popped(cm, ct, fixedNames, witnessNames, shifted, value)[r], Mangle(witnessNames[j]))
         == value(AfterReads(cm, Times(r, |witnessNames|) + j))
  {
    var pushed := ReadRows(cm, ct, fixedNames, witnessNames, value);
    ShiftLaw(pushed[..|pushed| - 1], shifted);
    ReadRowsWitnessCell(cm, ct, fixedNames, witnessNames, value, r, j);
  }

  /** Fixed member j of popped row r holds constants read r*|fixed| + j. */
  lemma PoppedFixedValue(cm: StreamState, ct: StreamState, fixedNames: seq<string>, witnessNames: seq<string>,
                         shifted: seq<string>, value: Reading, r: nat, j: nat)
    requires WellFormed(cm) && WellFormed(ct) && ReadsAnyStream(value) && witnessNames != [] && cm.good
    requires Distinct(Mangled(fixedNames)) && j < |fixedNames| && Mangle(fixedNames[j]) !in Mangled(witnessNames)
    requires Mangle(fixedNames[j]) !in ShiftKeys(shifted)
    requires r < |Popped(cm, ct, fixedNames, witnessNames, shifted, value)|
    ensures Cell(Popped(cm, ct, fixedNames, witnessNames, shifted, value)[r], Mangle(fixedNames[j]))
         == value(AfterReads(ct, Times(r, |fixedNames|) + j))
  {
    var pushed := ReadRows(cm, ct, fixedNames, witnessNames, value);
    ShiftLaw(pushed[..|pushed| - 1], shifted);
    ReadRowsFixedCell(cm, ct, fixedNames, witnessNames, value, r, j);
  }

  /** Members that are neither columns nor shift members are zero in every popped row. */
  lemma PoppedOtherCell(cm: StreamState, ct: StreamState, fixedNames: seq<string>, witnessNames: seq<string>,
                        shifted: seq<string>, value: Reading, r: nat, key: string)
    requires WellFormed(cm) && WellFormed(ct) && ReadsAnyStream(value) && witnessNames != [] && cm.good
    requires key !in AllNames(fixedNames, witnessNames) && key !in ShiftKeys(shifted)
    requires r < |Popped(cm, ct, fixedNames, witnessNames, shifted, value)|
    ensures Cell(Popped(cm, ct, fixedNames, witnessNames, shifted, value)[r], key) == 0
  {
    var pushed := ReadRows(cm, ct, fixedNames, witnessNames, value);
    ShiftLaw(pushed[..|pushed| - 1], shifted);
    ReadRowsOtherCell(cm, ct, fixedNames, witnessNames, value, r, key);
  }

  /** The shift members of the last popped row are never written, so they stay zero. */
  lemma PoppedLastShift(cm: StreamState, ct: StreamState, fixedNames: seq<string>, witnessNames: seq<string>,
                        shifted: seq<string>, value: Reading, s: string)
    requires WellFormed(cm) && WellFormed(ct) && ReadsAnyStream(value) && witnessNames != [] && cm.good
    requires ShiftKey(s) !in AllNames(fixedNames, witnessNames)
    requires |Popped(cm, ct, fixedNames, witnessNames, shifted, value)| > 0
    ensures var t := Popped(cm, ct, fixedNames, witnessNames, shifted, value); Cell(t[|t| - 1], ShiftKey(s)) == 0
  {
    var pushed := ReadRows(cm, ct, fixedNames, witnessNames, value);
    ShiftLaw(pushed[..|pushed| - 1], shifted);
    ReadRowsOtherCell(cm, ct, fixedNames, witnessNames, value, |pushed| - 2, ShiftKey(s));
  }

  /**
   * A trace of |c| bytes of witness data has ⌊|c| / (32·|witness|)⌋ rows:
   * one per whole row of witness elements (the extra pushed row is popped).
   */
  lemma TraceLength(c: seq<byte>, k: seq<byte>, fixedNames: seq<string>, witnessNames: seq<string>,
                    shifted: seq<string>, value: Reading)
    requires ReadsAnyStream(value) && witnessNames != []
    ensures |Trace(c, k, fixedNames, witnessNames, shifted, value)| == |c| / (32 * |witnessNames|)
  {
    var w := |witnessNames|;
    TraceIsPopped(c, k, fixedNames, witnessNames, shifted, value);
    var n := |Popped(Opened(c), Opened(k), fixedNames, witnessNames, shifted, value)|;
    PoppedLength(Opened(c), Opened(k), fixedNames, witnessNames, shifted, value);
    ScaledTimes(n, w);
    QuotientFromBounds(|c|, 32 * w, n);
  }

  /** 32 bytes per read, Times(n, w) reads: (32·w)·n bytes. */
  lemma ScaledTimes(n: nat, w: nat)
    ensures 32 * Times(n, w) == (32 * w) * n
  {
    TimesIsProduct(n, w);
    assert 32 * (n * w) == (32 * w) * n;
  }

  /**
   * Witness member j of row r of the trace is element Times(r, |witness|) + j
   * (that is r·|witness| + j, by TimesIsProduct) of the committed file,
   * always a whole element, byte-reversed and decoded.
   */
  lemma TraceWitnessCell(c: seq<byte>, k: seq<byte>, fixedNames: seq<string>, witnessNames: seq<string>,
                         shifted: seq<string>, value: Reading, decode: Decoder, r: nat, j: nat)
    requires ReadsAnyStream(value) && DecodesFullReads(value, decode) && witnessNames != []
    requires Distinct(Mangled(witnessNames)) && j < |witnessNames|
    requires Mangle(witnessNames[j]) !in ShiftKeys(shifted)
    requires r < |Trace(c, k, fixedNames, witnessNames, shifted, value)|
    ensures 32 * (Times(r, |witnessNames|) + j) + 32 <= |c|
    ensures Cell(Trace(c, k, fixedNames, witnessNames, shifted, value)[r], Mangle(witnessNames[j]))
         == ElementAt(c, 32 * (Times(r, |witnessNames|) + j), decode)
  {
    TraceWitnessValue(c, k, fixedNames, witnessNames, shifted, value, r, j);
    OpenedElement(c, Times(r, |witnessNames|) + j, value, decode);
  }

  /** Witness member j of trace row r holds committed read Times(r, |witness|) + j, always a whole element. */
  lemma TraceWitnessValue(c: seq<byte>, k: seq<byte>, fixedNames: seq<string>, witnessNames: seq<string>,
                          shifted: seq<string>, value: Reading, r: nat, j: nat)
    requires ReadsAnyStream(value) && witnessNames != []
    requires Distinct(Mangled(witnessNames)) && j < |witnessNames|
    requires Mangle(witnessNames[j]) !in ShiftKeys(shifted)
    requires r < |Trace(c, k, fixedNames, witnessNames, shifted, value)|
    ensures 32 * (Times(r, |witnessNames|) + j) + 32 <= |c|
    ensures Cell(Trace(c, k, fixedNames, witnessNames, shifted, value)[r], Mangle(witnessNames[j]))
         == value(AfterReads(Opened(c), Times(r, |witnessNames|) + j))
  {
    TraceIsPopped(c, k, fixedNames, witnessNames, shifted, value);
    PoppedRowInData(Opened(c), Opened(k), fixedNames, witnessNames, shifted, value, r, j);
    PoppedWitnessValue(Opened(c), Opened(k), fixedNames, witnessNames, shifted, value, r, j);
  }

  /** Read e of a freshly opened file that holds it decodes element e of the file. */
  lemma OpenedElement(c: seq<byte>, e: nat, value: Reading, decode: Decoder)
    requires ReadsAnyStream(value) && DecodesFullReads(value, decode) && 32 * e + 32 <= |c|
    ensures value(AfterReads(Opened(c), e)) == ElementAt(c, 32 * e, decode)
  {
    var s := Opened(c);
    ReadValueAt(s, e, value, decode);
    assert s.data == c && s.pos + 32 * e == 32 * e;
  }

  /**
   * Fixed member j of row r of the trace holds constants read
   * Times(r, |fixed|) + j, which is element Times(r, |fixed|) + j of the
   * constants file whenever that file holds it (the source does not check
   * the length of the constants file).
   */
  lemma TraceFixedCell(c: seq<byte>, k: seq<byte>, fixedNames: seq<string>, witnessNames: seq<string>,
                       shifted: seq<string>, value: Reading, decode: Decoder, r: nat, j: nat)
    requires ReadsAnyStream(value) && DecodesFullReads(value, decode) && witnessNames != []
    requires Distinct(Mangled(fixedNames)) && j < |fixedNames| && Mangle(fixedNames[j]) !in Mangled(witnessNames)
    requires Mangle(fixedNames[j]) !in ShiftKeys(shifted)
    requires r < |Trace(c, k, fixedNames, witnessNames, shifted, value)|
    ensures Cell(Trace(c, k, fixedNames, witnessNames, shifted, value)[r], Mangle(fixedNames[j]))
         == value(AfterReads(Opened(k), Times(r, |fixedNames|) + j))
    ensures 32 * (Times(r, |fixedNames|) + j) + 32 <= |k| ==>
      Cell(Trace(c, k, fixedNames, witnessNames, shifted, value)[r], Mangle(fixedNames[j]))
      == ElementAt(k, 32 * (Times(r, |fixedNames|) + j), decode)
  {
    TraceFixedValue(c, k, fixedNames, witnessNames, shifted, value, r, j);
    if 32 * (Times(r, |fixedNames|) + j) + 32 <= |k| {
      OpenedElement(k, Times(r, |fixedNames|) + j, value, decode);
    }
  }

  /** Fixed member j of trace row r holds constants read Times(r, |fixed|) + j. */
  lemma TraceFixedValue(c: seq<byte>, k: seq<byte>, fixedNames: seq<string>, witnessNames: seq<string>,
                        shifted: seq<string>, value: Reading, r: nat, j: nat)
    requires ReadsAnyStream(value) && witnessNames != []
    requires Distinct(Mangled(fixedNames)) && j < |fixedNames| && Mangle(fixedNames[j]) !in Mangled(witnessNames)
    requires Mangle(fixedNames[j]) !in ShiftKeys(shifted)
    requires r < |Trace(c, k, fixedNames, witnessNames, shifted, value)|
    ensures Cell(Trace(c, k, fixedNames, witnessNames, shifted, value)[r], Mangle(fixedNames[j]))
         == value(AfterReads(Opened(k), Times(r, |fixedNames|) + j))
  {
    TraceIsPopped(c, k, fixedNames, witnessNames, shifted, value);
    PoppedFixedValue(Opened(c), Opened(k), fixedNames, witnessNames, shifted, value, r, j);
  }

  /**
   * The shift law on the trace: the shift member of a shifted column in
   * every row but the last holds that column of the next row.
   */
  lemma TraceShiftCell(c: seq<byte>, k: seq<byte>, fixedNames: seq<string>, witnessNames: seq<string>,
                       shifted: seq<string>, value: Reading, r: nat, s: string)
    requires ReadsAnyStream(value) && witnessNames != []
    requires s in shifted && s !in ShiftKeys(shifted)
    requires r + 1 < |Trace(c, k, fixedNames, witnessNames, shifted, value)|
    ensures var t := Trace(c, k, fixedNames, witnessNames, shifted, value);
      Cell(t[r], ShiftKey(s)) == Cell(t[r + 1], s)
  {
    var pushed := ReadRows(Opened(c), Opened(k), fixedNames, witnessNames, value);
    ShiftLaw(pushed[..|pushed| - 1], shifted);
  }

  /** The last row of the trace keeps zero in every shift member: the shift does not wrap. */
  lemma TraceLastShift(c: seq<byte>, k: seq<byte>, fixedNames: seq<string>, witnessNames: seq<string>,
                       shifted: seq<string>, value: Reading, s: string)
    requires ReadsAnyStream(value) && witnessNames != []
    requires ShiftKey(s) !in AllNames(fixedNames, witnessNames)
    requires |Trace(c, k, fixedNames, witnessNames, shifted, value)| > 0
    ensures var t := Trace(c, k, fixedNames, witnessNames, shifted, value); Cell(t[|t| - 1], ShiftKey(s)) == 0
  {
    TraceIsPopped(c, k, fixedNames, witnessNames, shifted, value);
    PoppedLastShift(Opened(c), Opened(k), fixedNames, witnessNames, shifted, value, s);
  }

  /** Every other member of every trace row is zero. */
  lemma TraceOtherCell(c: seq<byte>, k: seq<byte>, fixedNames: seq<string>, witnessNames: seq<string>,
                       shifted: seq<string>, value: Reading, r: nat, key: string)
    requires ReadsAnyStream(value) && witnessNames != []
    requires key !in AllNames(fixedNames, witnessNames) && key !in ShiftKeys(shifted)
    requires r < |Trace(c, k, fixedNames, witnessNames, shifted, value)|
    ensures Cell(Trace(c, k, fixedNames, witnessNames, shifted, value)[r], key) == 0
  {
    TraceIsPopped(c, k, fixedNames, witnessNames, shifted, value);
    PoppedOtherCell(Opened(c), Opened(k), fixedNames, witnessNames, shifted, value, r, key);
  }

  /**
   * `read_both_file_into_cols` on two files that open returns
   * ⌊|c| / (32·|witness|)⌋ rows, at least one when the committed file
   * holds a whole row.
   */
  lemma ReadBothFilesLength(c: seq<byte>, k: seq<byte>, fixedNames: seq<string>, witnessNames: seq<string>,
                            shifted: seq<string>, decode: Decoder, stale: FieldBytes)
    requires witnessNames != []
    ensures |ReadBothFiles(Some(c), Some(k), fixedNames, witnessNames, shifted, decode, stale)|
         == |c| / (32 * |witnessNames|)
    ensures 32 * |witnessNames| <= |c| ==>
      |ReadBothFiles(Some(c), Some(k), fixedNames, witnessNames, shifted, decode, stale)| >= 1
  {
    var value := FieldReading(decode, stale);
    assert ReadBothFiles(Some(c), Some(k), fixedNames, witnessNames, shifted, decode, stale)
        == Trace(c, k, fixedNames, witnessNames, shifted, value);
    TraceLength(c, k, fixedNames, witnessNames, shifted, value);
    if 32 * |witnessNames| <= |c| {
      QuotientAtLeastOne(|c|, 32 * |witnessNames|);
    }
  }

  lemma QuotientAtLeastOne(a: nat, b: nat)
    requires 0 < b <= a
    ensures a / b >= 1
  {
  }
}
