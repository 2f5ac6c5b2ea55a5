/**
 * A binary input file opened as `std::ifstream`, reduced to what the trace
 * reader relies on: its bytes, the read position, and whether the stream
 * is still good (`operator bool`, i.e. no read has yet come up short).
 */
module Streams {
  import opened Fields

  datatype StreamState = StreamState(data: seq<byte>, pos: nat, good: bool)

  predicate WellFormed(s: StreamState) {
    s.pos <= |s.data|
  }

  /** The state of a stream just after it opened successfully. */
  function Opened(data: seq<byte>): (s: StreamState)
    ensures WellFormed(s) && s.good && s.pos == 0 && s.data == data
  {
    StreamState(data, 0, true)
  }

  /**
   * The bytes that one `file.read(buffer, 32)` extracts: nothing from a
   * failed stream, otherwise up to 32 bytes from the current position.
   */
  function Extracted(s: StreamState): (got: seq<byte>)
    requires WellFormed(s)
    ensures |got| <= FieldWidth
  {
    if !s.good then []
    else if s.pos + FieldWidth <= |s.data| then s.data[s.pos..s.pos + FieldWidth]
    else s.data[s.pos..]
  }

  /**
   * The stream after one 32-byte read: a full read advances by 32; a short
   * read consumes the rest and fails the stream (eofbit and failbit); a
   * failed stream stays as it is.
   */
  function AfterRead(s: StreamState): (t: StreamState)
    requires WellFormed(s)
    ensures WellFormed(t) && t.data == s.data
  {
    if !s.good then s
    else if s.pos + FieldWidth <= |s.data| then s.(pos := s.pos + FieldWidth)
    else StreamState(s.data, |s.data|, false)
  }

  /**
   * What one read extracts: nothing from a failed stream; from a good one
   * the bytes at the read position, all 32 exactly when that many are
   * left, and otherwise everything up to the end of the file.
   */
  lemma ExtractedLaw(s: StreamState)
    requires WellFormed(s)
    ensures !s.good ==> Extracted(s) == []
    ensures s.good ==> (s.pos + |Extracted(s)| <= |s.data|
                        && Extracted(s) == s.data[s.pos..s.pos + |Extracted(s)|])
    ensures s.good ==> (|Extracted(s)| == FieldWidth <==> s.pos + FieldWidth <= |s.data|)
    ensures s.good && |Extracted(s)| < FieldWidth ==> s.pos + |Extracted(s)| == |s.data|
  {
  }

  /**
   * The stream stays good after a read exactly when it was good and held
   * 32 more bytes, and then it has moved on by 32; a failed stream does not
   * change.
   */
  lemma AfterReadLaw(s: StreamState)
    requires WellFormed(s)
    ensures AfterRead(s).good <==> s.good && s.pos + FieldWidth <= |s.data|
    ensures AfterRead(s).good ==> AfterRead(s).pos == s.pos + FieldWidth
    ensures !s.good ==> AfterRead(s) == s
  {
  }

  /** A measure that every read of a good stream decreases. */
  function Remaining(s: StreamState): nat
    requires WellFormed(s)
  {
    if s.good then |s.data| - s.pos + 1 else 0
  }

  lemma AfterReadDecreases(s: StreamState)
    requires WellFormed(s)
    ensures Remaining(AfterRead(s)) <= Remaining(s)
    ensures s.good ==> Remaining(AfterRead(s)) < Remaining(s)
  {
  }

  /** An opened binary input file. */
  class InputStream {
    const data: seq<byte>
    var pos: nat
    var good: bool

    predicate Valid()
      reads this
    {
      pos <= |data|
    }

    function State(): (s: StreamState)
      reads this
      ensures s.data == data
    {
      StreamState(data, pos, good)
    }

    /** `std::ifstream file(name, std::ios::binary)` on a file that opened. */
    constructor Open(contents: seq<byte>)
      ensures Valid() && State() == Opened(contents)
    {
      data := contents;
      pos := 0;
      good := true;
    }

    /**
     * `file.read(buffer, 32)`: the extracted bytes land at the front of the
     * buffer; the rest of the buffer keeps what it held before.
     */
    method Read(buffer: array<byte>)
      requires Valid() && buffer.Length == FieldWidth
      modifies this, buffer
      ensures Valid()
      ensures State() == AfterRead(old(State()))
      ensures buffer[..] == Extracted(old(State())) + old(buffer[..])[|Extracted(old(State()))|..]
    {
      var before := State();
      var got := Extracted(before);
      var k := 0;
      while k < |got|
        invariant 0 <= k <= |got|
        invariant State() == before
        invariant forall i :: 0 <= i < k ==> buffer[i] == got[i]
        invariant forall i :: k <= i < buffer.Length ==> buffer[i] == old(buffer[i])
      {
        buffer[k] := got[k];
        k := k + 1;
      }
      var next := AfterRead(before);
      pos, good := next.pos, next.good;
    }
  }
}
