# Trace builder of the barretenberg backend, modelled in Dafny

The barretenberg backend of powdr generates C++ for each compiled machine.
Part of that C++ is a trace reader and a trace builder. This project models
what that emitted code does, as the Rust generator in
`bberg/src/trace_builder.rs` writes it. It proves what the code promises.

- **Reading a field element** (`read_field`). The reader reads 32 bytes from
  a binary stream into a local buffer and reverses the buffer in place with
  a two-index swap loop. It then decodes the reversed bytes as a BN254
  scalar field element. The stream is a class over the file's bytes with a
  read position and a "good" flag. A short read consumes the rest of the
  file and fails the stream; a failed stream extracts nothing.
- **Reading the trace** (`read_both_file_into_cols`). The committed file or
  the constants file may fail to open; then the trace is empty. Otherwise,
  while the committed stream is good, the loop builds a zeroed row and reads
  one constants element per fixed column and then one committed element per
  witness column, in schema order. It pushes each row. After the loop it
  pops the last pushed row, which was read past the end. Then it fills in
  the shift members. A column name becomes a member name with every `.`
  replaced by `_`. A shifted column `c` gets the member `c_shift`, and in
  every row but the last, `c_shift` holds the next row's `c`.
- **The trace builder class** (`TraceBuilder`). It holds the rows.
  - `build_circuit` reads the rows from the two files.
  - `get_num_gates` is the number of rows.
  - `get_circuit_subgroup_size` rounds that number up to a power of two.
  - `compute_polynomials` allocates one zeroed polynomial of the subgroup
    size per column and one per shifted column, copies the rows in row by
    row with one assignment per column, and sets each shift polynomial to
    the shifted copy of its column.
  - `check_circuit` does all of this and then evaluates the relation on
    every row of the polynomials. It stops at the first non-zero
    subrelation and reports the row and the subrelation.

The Rust side of the generator contributes two things to the model. One is
the name mangling `name.replace(".", "_")`. The other is the member list
`all_names`, the mangled fixed names followed by the mangled witness names.
The generic parts of the emitted code are modelled rather than its text.
That covers the read loop over any column lists, the shift loop over any
list of shifted columns, and the polynomial copy over any list of columns.

Modules, one file each:

| module | file | models |
|---|---|---|
| Options, Fields, Rows | options.dfy, fields.dfy, rows.dfy | optional values; bytes and BN254 field elements; a row as a map from member name to value that reads zero where unset |
| Streams | streams.dfy | the binary input stream, as a class with `Open` and `Read` |
| FieldReader | field_reader.dfy | `read_field`: the in-place reversal and the decoded value |
| Naming | naming.dfy | name mangling, `all_names`, shift member names |
| ShiftBuilder | shifts.dfy | the emitted shift loop |
| TraceReader | trace_reader.dfy | `read_both_file_into_cols`: its loop, its pop, and the rows it builds |
| TraceLaws | trace_laws.dfy | what the finished trace holds, stated against the bytes of the two files |
| Subgroup | subgroup.dfy | `get_circuit_subgroup_size` and the most significant bit |
| Polynomials | polynomials.dfy | the polynomial set `compute_polynomials` produces, as values |
| RelationCheck | relation_check.dfy | the `evaluate_relation` loop of `check_circuit` |
| CircuitTrace | trace_builder.dfy | the `TraceBuilder` class and the array loops of `compute_polynomials` |

Methods are proved against functions. Each method that reads, loops or
writes arrays (`ReadField`, `ReadBothFileIntoCols`, `ConstructShifts`,
`ComputePolynomials`, `EvaluateRelation`) ensures that its result equals a
function of its inputs, and the lemmas state the properties of those
functions. Most trace lemmas are about any reading of the stream. A reading
is the value one read returns, as a function of the stream state. The
lemmas need only that a reading is defined on every well-formed state
(`ReadsAnyStream`), and, when bytes are involved, that full reads decode
the reversed next 32 bytes (`DecodesFullReads`).
`FieldReader.FieldReadingDecodes` proves that `read_field`'s own reading
has that property. `TraceReader.ReadBothFileIntoCols` ensures that its
result is `Trace` applied to that reading.

The accumulator of `check_circuit` is zeroed once, before the row loop
(`bberg/src/trace_builder.rs:331-334`), and `accumulate` keeps adding to it.
Because the check stops at the first non-zero entry, the accumulator is zero
at the start of every iteration that runs, so each row is checked as if
against a fresh accumulator. `RelationCheck.EvaluateRelation` keeps this as a
loop invariant.

## Model

| member | source | states |
|---|---|---|
| FieldReader.ReverseInPlace | bberg/src/trace_builder.rs:200-203 | after the swap loop, byte k of the buffer is the old byte 31-k, for every k: the buffer is reversed |
| FieldReader.ReversedTwice | bberg/src/trace_builder.rs:200-203 | reversing the buffer twice gives it back: the byte swap is an involution |
| FieldReader.ReadField | bberg/src/trace_builder.rs:195-206 | `read_field` leaves the stream one 32-byte read further on, and returns the decoding of the reversed buffer that read left |
| FieldReader.FieldValue | bberg/src/trace_builder.rs:195-206 | the value `read_field` returns from a stream state: the buffer the read leaves, reversed and decoded; `FullReadValue` and `FieldReadingDecodes` state it for full reads |
| FieldReader.BufferAfterReadLaw | bberg/src/trace_builder.rs:197-198 | a full read fills the buffer with the next 32 bytes of the file; a read from a failed stream leaves the buffer as it was; a short read puts what it got at the front |
| FieldReader.FieldReadingDecodes | bberg/src/trace_builder.rs:195-206 | every full read returns the element at the read position: the 32 bytes there, reversed and decoded |
| FieldReader.FullReadValue | bberg/src/trace_builder.rs:195-206 | when the stream is good and holds 32 more bytes, `read_field` returns exactly those 32 bytes, reversed and decoded, whatever the buffer held before |
| Streams.InputStream.Read | bberg/src/trace_builder.rs:198 | one `file.read(buffer, 32)`: the extracted bytes land at the front of the buffer, the rest of the buffer is unchanged, and the stream moves on |
| Streams.InputStream.Open | bberg/src/trace_builder.rs:215-225 | `std::ifstream file(name, std::ios::binary)` on a file that opens: a good stream over the file's bytes, at position 0 |
| Streams.Extracted | bberg/src/trace_builder.rs:198 | the bytes one `read(buffer, 32)` extracts, at most 32: none from a failed stream, the next 32 when they are there, otherwise the rest of the file; `ExtractedLaw` states it |
| Streams.AfterRead | bberg/src/trace_builder.rs:198 | the stream state after one `read(buffer, 32)`, over the same bytes: a failed stream is unchanged, a full read advances by 32, a short read ends at the end of the file and fails; `AfterReadLaw` states it |
| Streams.ExtractedLaw | bberg/src/trace_builder.rs:198 | a read extracts nothing from a failed stream; from a good stream it extracts the bytes at the position, all 32 exactly when 32 are left, otherwise everything up to the end |
| Streams.AfterReadLaw | bberg/src/trace_builder.rs:198 | the stream stays good after a read exactly when it was good and held 32 more bytes, and then it has advanced by 32; a failed stream does not change |
| Naming.MangleAt | bberg/src/trace_builder.rs:127-140 | `replace(".", "_")` replaces every dot by an underscore and keeps every other character, in place |
| Naming.Mangle | bberg/src/trace_builder.rs:127-140 | `name.replace(".", "_")` keeps the name's length; `MangleAt` states its characters |
| Naming.MangleRemovesDots | bberg/src/trace_builder.rs:127-140 | a mangled name contains no dot |
| Naming.MangleFixesDotFree | bberg/src/trace_builder.rs:127-140 | a name without dots is left unchanged |
| Naming.MangleIdempotent | bberg/src/trace_builder.rs:127-140 | mangling twice is mangling once |
| Naming.AllNames | bberg/src/trace_builder.rs:143-146 | `all_names` lists the mangled fixed names, then the mangled witness names, in order, and none of them contains a dot |
| Naming.Mangled | bberg/src/trace_builder.rs:127-140 | the `fixed_name` and `witness_name` maps: one mangled name per column, in order |
| Naming.ShiftKeyInjective | bberg/src/trace_builder.rs:66 | different shifted columns get different shift members |
| ShiftBuilder.Shifts | bberg/src/trace_builder.rs:63-79 | the trace after the shift loop has as many rows as before; every row but the last is the row with its shift members set from the next row, and the last row is kept |
| ShiftBuilder.ShiftRow | bberg/src/trace_builder.rs:63-79 | one iteration of the shift loop: `row.{name}_shift = next.{name}` for each listed column, in order; `ShiftRowSets` and `ShiftRowKeeps` state it |
| ShiftBuilder.ShiftRowSets | bberg/src/trace_builder.rs:66 | after one iteration of the shift loop, the shift member of each listed column holds the next row's value of it |
| ShiftBuilder.ShiftRowKeeps | bberg/src/trace_builder.rs:66 | one iteration of the shift loop changes no member other than the shift members of the listed columns |
| ShiftBuilder.ConstructShifts | bberg/src/trace_builder.rs:63-79 | the emitted shift loop, run over the rows, produces exactly `Shifts` of them |
| ShiftBuilder.ShiftLaw | bberg/src/trace_builder.rs:63-79 | in every row but the last, each shift member holds the next row's column; the last row is unchanged (no wrap to row 0); no other member of any row changes |
| ShiftBuilder.ShiftNextRow | bberg/src/trace_builder.rs:63-79 | in the shifted trace itself, row i's `c_shift` equals row i+1's `c`, for a shifted column that is not itself a shift member |
| ShiftBuilder.ShiftedTraceStep | bberg/src/trace_builder.rs:63-79 | row i's `c_shift` is row i+1's `c`, and it is zero in the last row when that row held no `c_shift` before the loop |
| TraceReader.ReadInto | bberg/src/trace_builder.rs:162-180 | the generated read statements for a column list set the member of each name, in order, from consecutive reads, and leave the stream one read further on per name |
| TraceReader.ReadRows | bberg/src/trace_builder.rs:228-235 | the rows `while (commited_file)` pushes from two stream states: none when the committed stream has failed, otherwise at least one, each made of the fixed reads and then the witness reads of one iteration |
| TraceReader.ReadFields | bberg/src/trace_builder.rs:162-180 | the read statements of one column list: member `Mangle(name)` set from one read per name, in order, each from the state the previous read left; `ReadFieldsAt` and `ReadFieldsKeeps` state it |
| TraceReader.RowFrom | bberg/src/trace_builder.rs:229-232 | one iteration's row: a zeroed row, its fixed members read from the constants stream, then its witness members from the committed one; `RowFromFixedCell` and `RowFromWitnessCell` state it |
| TraceReader.Trace | bberg/src/trace_builder.rs:228-241 | the rows pushed from two freshly opened files, without the last one, with shift members; `TraceLength`, `TraceWitnessCell`, `TraceFixedCell`, `TraceShiftCell`, `TraceLastShift` and `TraceOtherCell` state what it holds |
| TraceReader.ReadBothFiles | bberg/src/trace_builder.rs:208-245 | `read_both_file_into_cols`: no rows when either file fails to open, otherwise `Trace` under `read_field`'s own reading; `ReadBothFilesLength` states its length |
| TraceReader.PushRows | bberg/src/trace_builder.rs:228-235 | the read loop pushes exactly the rows `ReadRows` builds from the two streams' starting states, and ends with the committed stream failed |
| TraceReader.ReadBothFileIntoCols | bberg/src/trace_builder.rs:208-245 | the trace is empty when either file fails to open; otherwise it is the pushed rows without the last one, with shift members, as `ReadBothFiles` defines |
| TraceReader.ReadRowsStep | bberg/src/trace_builder.rs:228-235 | one iteration of the read loop appends the row read from the current stream states and continues from the states it leaves |
| TraceReader.AfterReadsStream | bberg/src/trace_builder.rs:228-232 | a stream stays good after k reads exactly when it was good and held 32·k more bytes, and then it has advanced by 32·k |
| TraceReader.ReadValueAt | bberg/src/trace_builder.rs:195-206 | read k of a stream that still holds it decodes the 32 bytes at offset 32·k from the position |
| TraceReader.ReadRowsAt | bberg/src/trace_builder.rs:228-235 | row r is built after r·|witness| committed reads and r·|fixed| constants reads |
| TraceReader.ReadRowsCount | bberg/src/trace_builder.rs:228-235 | the loop pushes n rows where the n-th row would start past the end of the committed data, but by less than a row: one more row than the data holds |
| TraceReader.ReadFieldsAt | bberg/src/trace_builder.rs:162-180 | with distinct member names, member j of the row holds the value of the j-th read |
| TraceReader.ReadFieldsKeeps | bberg/src/trace_builder.rs:162-180 | the read statements change no member outside their column list |
| TraceReader.RowFromWitnessCell | bberg/src/trace_builder.rs:229-232 | witness member j of a row holds that iteration's j-th committed read |
| TraceReader.RowFromFixedCell | bberg/src/trace_builder.rs:229-232 | fixed member j of a row holds that iteration's j-th constants read, and the witness reads do not overwrite it |
| TraceReader.ReadRowsWitnessCell | bberg/src/trace_builder.rs:228-235 | witness member j of pushed row r holds committed read r·|witness| + j |
| TraceReader.ReadRowsFixedCell | bberg/src/trace_builder.rs:228-235 | fixed member j of pushed row r holds constants read r·|fixed| + j |
| TraceReader.ReadRowsOtherCell | bberg/src/trace_builder.rs:229-235 | every member that is neither a fixed nor a witness member is zero in every pushed row |
| TraceReader.DistinctPrefix | bberg/src/trace_builder.rs:143-146 | distinct `all_names` means the fixed members are distinct |
| TraceReader.DistinctSuffix | bberg/src/trace_builder.rs:143-146 | distinct `all_names` means the witness members are distinct |
| TraceReader.DistinctAcross | bberg/src/trace_builder.rs:143-146 | distinct `all_names` means no fixed member is also a witness member |
| TraceLaws.PoppedRowInData | bberg/src/trace_builder.rs:228-238 | every witness read of every row kept after the pop is a whole element inside the committed data |
| TraceLaws.PoppedLength | bberg/src/trace_builder.rs:228-238 | after the pop, the rows account for all whole rows of committed data: n rows when the data holds n but not n+1 rows |
| TraceLaws.TraceLength | bberg/src/trace_builder.rs:228-238 | the trace has ⌊L / (32·|witness|)⌋ rows for L bytes of committed data |
| TraceLaws.ReadBothFilesLength | bberg/src/trace_builder.rs:208-245 | when both files open, `read_both_file_into_cols` returns ⌊L / (32·|witness|)⌋ rows, and at least one when the committed file holds a whole row |
| TraceLaws.TraceWitnessCell | bberg/src/trace_builder.rs:195-238 | witness member j of trace row r is committed element r·|witness| + j, always a whole element, reversed and decoded |
| TraceLaws.TraceWitnessValue | bberg/src/trace_builder.rs:228-238 | witness member j of trace row r holds committed read r·|witness| + j, which lies inside the data |
| TraceLaws.OpenedElement | bberg/src/trace_builder.rs:195-206 | read e of a freshly opened file that holds it decodes element e of the file |
| TraceLaws.TraceFixedCell | bberg/src/trace_builder.rs:195-238 | fixed member j of trace row r holds constants read r·|fixed| + j: constants element r·|fixed| + j whenever the constants file holds it |
| TraceLaws.TraceFixedValue | bberg/src/trace_builder.rs:228-238 | fixed member j of trace row r holds constants read r·|fixed| + j |
| TraceLaws.TraceShiftCell | bberg/src/trace_builder.rs:237-241 | in the trace, the shift member of each shifted column in every row but the last holds that column of the next row |
| TraceLaws.TraceLastShift | bberg/src/trace_builder.rs:237-241 | the shift members of the last trace row are zero: the shift does not wrap |
| TraceLaws.TraceOtherCell | bberg/src/trace_builder.rs:229-241 | every member that is neither a column nor a shift member is zero in every trace row |
| Subgroup.Msb | bberg/src/trace_builder.rs:363 | `get_msb64(n)` for n ≥ 1, found by halving n until it is 1, is a bit index below n; `MsbBounds` states that it is the highest set bit |
| Subgroup.SubgroupSize | bberg/src/trace_builder.rs:360-366 | `1 << (log2 + (1 << log2 == n ? 0 : 1))` with `log2 = get_msb64(n)` is a power of two; `SubgroupSizeBounds` and `SubgroupSizeLeast` state that it is the least one that is at least n |
| Subgroup.MsbBounds | bberg/src/trace_builder.rs:363 | `get_msb64(n)` names the highest set bit: 2^msb ≤ n < 2^(msb+1) |
| Subgroup.MsbOfPow2 | bberg/src/trace_builder.rs:363-364 | the highest set bit of 2^k is bit k |
| Subgroup.SubgroupSizeBounds | bberg/src/trace_builder.rs:360-366 | the subgroup size is a power of two that holds every row and is less than twice their number |
| Subgroup.SubgroupSizeLeast | bberg/src/trace_builder.rs:360-366 | no power of two that holds every row is smaller than the subgroup size |
| Subgroup.SubgroupSizeFixesPowers | bberg/src/trace_builder.rs:364 | a row count is kept as it is exactly when it is already a power of two |
| Subgroup.SubgroupSizeIdempotent | bberg/src/trace_builder.rs:360-366 | rounding the subgroup size up again changes nothing |
| Polynomials.IndexOf | bberg/src/trace_builder.rs:273-277 | a shifted column names a polynomial of the set: its position among the columns |
| Polynomials.Column | bberg/src/trace_builder.rs:305-316 | the polynomial of column c: subgroup-size coefficients, coefficient i being row i's member c, and zero past the rows; `TranspositionLaw` states it |
| Polynomials.AllPolys | bberg/src/trace_builder.rs:305-318 | the polynomial set `compute_polynomials` returns: one polynomial per column, then one shifted copy per shifted column; `AllPolysAt` states the layout |
| Polynomials.Shifted | bberg/src/trace_builder.rs:273-277 | `p.shifted()`: a polynomial of the same length whose coefficient i is coefficient i+1 of `p`, and whose last coefficient is zero |
| Polynomials.AllPolysAt | bberg/src/trace_builder.rs:264-277 | polynomial q of the set is column q for q below the number of columns, and the shifted copy of shifted column q − |columns| after that |
| Polynomials.TranspositionLaw | bberg/src/trace_builder.rs:305-316 | every polynomial has subgroup-size coefficients; coefficient i of column c is row i's member c for every row, and zero past the rows |
| Polynomials.ShiftPolynomialLaw | bberg/src/trace_builder.rs:273-277 | coefficient i of the shift polynomial of c is coefficient i+1 of the polynomial of c, and the last coefficient is zero |
| Polynomials.ShiftedColumnAt | bberg/src/trace_builder.rs:275 | coefficient i of the shifted column c is row i+1's member c, or zero past the rows |
| Polynomials.ShiftAgreement | bberg/src/trace_builder.rs:63-79 | the shift polynomials computed from the polynomials agree with the shift members the read loop built: coefficient i is row i's `c_shift`, and zero past the rows |
| Polynomials.RowsOf | bberg/src/trace_builder.rs:338 | `polys.get_row(i)` of a set of subgroup-size polynomials: one row per coefficient index, each with one value per polynomial |
| RelationCheck.FirstFailing | bberg/src/trace_builder.rs:341-347 | the scan over the subrelations from j on: what it finds is one of the relation's subrelations, at j or after |
| RelationCheck.FirstFailingLaw | bberg/src/trace_builder.rs:341-347 | the subrelation scan finds nothing exactly when every subrelation from j on is satisfied; what it finds is violated, and every one before it is satisfied |
| RelationCheck.CheckRows | bberg/src/trace_builder.rs:337-352 | the row loop of `evaluate_relation` from row i on: a failure names a row from i up to the last row and one of the relation's subrelations; `CheckRowsSucceedsIff` and `CheckRowsFailureIsFirst` state which |
| RelationCheck.CheckRowsSucceedsIff | bberg/src/trace_builder.rs:330-353 | the check succeeds exactly when every subrelation is zero on every row |
| RelationCheck.CheckRowsFailureIsFirst | bberg/src/trace_builder.rs:337-351 | a failure reports the first violating row and, in it, the first violated subrelation |
| RelationCheck.PolyRow | bberg/src/trace_builder.rs:338 | `polys.get_row(i)` holds one value per polynomial |
| RelationCheck.Accumulate | bberg/src/trace_builder.rs:338 | `accumulate` adds each subrelation's contribution of the row to its entry of the accumulator |
| RelationCheck.EvaluateRelation | bberg/src/trace_builder.rs:330-353 | `evaluate_relation` returns the outcome of checking every row of the polynomials in order and stopping at the first non-zero subrelation; the accumulator is zero at the start of every row (kept as a loop invariant) |
| Fields.Add | bberg/src/trace_builder.rs:338 | field addition: adding zero changes nothing, and the result is congruent to the integer sum |
| CircuitTrace.TraceBuilder.constructor | bberg/src/trace_builder.rs:286-297 | a builder over the given column lists, with no rows |
| CircuitTrace.TraceBuilder.BuildCircuit | bberg/src/trace_builder.rs:300-302 | `build_circuit` sets the rows to what `read_both_file_into_cols` returns for the two files |
| CircuitTrace.TraceBuilder.GetCircuitSubgroupSize | bberg/src/trace_builder.rs:360-366 | `get_circuit_subgroup_size` is a power of two that holds every row and is less than twice their number |
| CircuitTrace.TraceBuilder.ComputePolynomials | bberg/src/trace_builder.rs:305-321 | `compute_polynomials` returns a new array of columns plus shifted columns polynomials, each of the subgroup size, holding exactly the polynomial set `AllPolys` of the rows |
| CircuitTrace.TraceBuilder.CheckCircuit | bberg/src/trace_builder.rs:323-356 | `check_circuit` reads the rows from the files, and its outcome is the ordered, fail-fast check of the relation on every row of `AllPolys`; it succeeds exactly when every subrelation is zero on every row |
| CircuitTrace.ZeroPolynomials | bberg/src/trace_builder.rs:309-312 | the allocation loop leaves every coefficient of every polynomial zero |
| CircuitTrace.CopyRows | bberg/src/trace_builder.rs:314-316 | the copy loop makes polynomial q the padded column q of the rows, and leaves the shift polynomials as they were |
| CircuitTrace.ShiftColumns | bberg/src/trace_builder.rs:273-277 | the shift assignments make each shift polynomial the shifted copy of its column's polynomial and leave the column polynomials unchanged |
| CircuitTrace.ArrayRows | bberg/src/trace_builder.rs:338 | reading row i of the polynomial array gives row i of the polynomial set it holds |
| CircuitTrace.TraceShiftPolynomial | bberg/src/trace_builder.rs:237-241 | on the trace the two files produce, the shift polynomial of column c holds each row's own `c_shift`, and zero in the padding: both ways of computing shifts agree |

## Left out

- Console output and the `info` diagnostic are not modelled. The failing row and subrelation are returned in `Failure` instead of being logged and thrown.
- The text emitted by the generator is not modelled. That covers include lines, namespaces, the `Row` alias and string formatting. The behaviour of the emitted functions is modelled instead.
- The file names `../commits.bin` and `../constants.bin` are not modelled. File I/O is replaced by the files' contents, given as parameters of `BuildCircuit` and `CheckCircuit`. The value `None` stands for a file that fails to open.
- `build_empty_row` is not modelled. The generator never emits it (its call is commented out).
- The generator computes `num_cols`, `compute_polys_assignemnt` and `all_poly_shifts` in `create_trace_builder_cpp` but never emits them, so they are not modelled.
- `fr::serialize_from_buffer` is foreign code. It is the `decode` parameter.
- The generated relation (`Relation::accumulate`) is foreign code. It is the `Relation` datatype: a number of subrelations and the contribution of a row to each of them.
- The `shifted()` method of the polynomial library is foreign code. It is taken to behave as `Polynomials.Shifted`: coefficient i is coefficient i+1 of the original, and the last coefficient is zero.
- The `AllPolynomials` layout of the generated flavour is not part of this model. `ComputePolynomials` lays the polynomials out as all columns, then one shift polynomial per shifted column.
- Indeterminate buffer bytes are modelled by the caller-supplied `stale` buffer, the contents of the uninitialised local before a read. A short read keeps the bytes of `stale` past what it got, and a read from a stream that has already failed gets nothing, so it keeps all of `stale`. The rows this can affect are the popped row and fixed members whose constants element lies past the end of the constants file. The code never checks that the constants file holds |fixed| elements for every row of the committed file.
- TraceLaws.TraceFixedCell: states the decoded constants element only when the constants file holds it. The code never checks that the constants file holds |fixed| elements for every row of the committed file. A fixed member whose element lies past the end of the constants file holds whatever the short or failed read returns, and the lemma states that value only as the constants read.
- TraceReader.ReadBothFileIntoCols: requires at least one witness column. With none, the loop never reads the committed stream and never ends, and a terminating model cannot express that.
- CircuitTrace.TraceBuilder.GetCircuitSubgroupSize: requires at least one row. `get_msb64(0)` is not modelled, and what it returns decides the size of an empty trace.
- CircuitTrace.TraceBuilder.ComputePolynomials: requires at least one row, for the same reason.
- CircuitTrace.TraceBuilder.CheckCircuit: requires that both files open and that the committed file holds at least one whole row. Those are exactly the cases where the trace is non-empty, for the same reason.
- Subgroup.SubgroupSize: is modelled on unbounded integers. `size_t` and the 64-bit shift `1UL << ...`, which overflows for more than 2^63 rows, are not modelled.
- `get_num_gates` is modelled as `CircuitTrace.TraceBuilder.GetNumGates`, the number of rows. It has no contract beyond its body, so it has no row in the table.
- Field arithmetic other than the addition the accumulator performs is not modelled. Field elements are their canonical residues modulo the BN254 scalar field order.
