/**
 * The emitted `read_field`: read 32 bytes from a stream into a local
 * buffer, reverse the buffer in place with a two-index swap loop (the file
 * holds the mirror image of the in-memory layout), and decode it.
 * Decoding (`fr::serialize_from_buffer`) is foreign library code and is a
 * parameter here.
 */
module FieldReader {
  import opened Fields
  import opened Streams

  /** The deserialiser applied to the reversed buffer. */
  type Decoder = FieldBytes -> Fr

  /** The sequence read back to front. */
  function Reversed<T>(s: seq<T>): (r: seq<T>)
    ensures |r| == |s|
  {
    seq(|s|, k requires 0 <= k < |s| => s[|s| - 1 - k])
  }

  /** Position k of the reversal holds position |s|-1-k of the input. */
  lemma ReversedAt<T>(s: seq<T>, k: nat)
    requires k < |s|
    ensures Reversed(s)[k] == s[|s| - 1 - k]
  {
  }

  /** Reversing twice gives back the original buffer. */
  lemma ReversedTwice<T>(s: seq<T>)
    ensures Reversed(Reversed(s)) == s
  {
  }

  /**
   * The swap loop of `read_field`: two indices walk inwards from both ends
   * of the buffer, exchanging the bytes under them until they meet.
   */
  method ReverseInPlace(buffer: array<byte>)
    requires buffer.Length == FieldWidth
    modifies buffer
    ensures forall k :: 0 <= k < FieldWidth ==> buffer[k] == old(buffer[FieldWidth - 1 - k])
    ensures buffer[..] == Reversed(old(buffer[..]))
  {
    var n, m := 0, 31;
    while n < m
      invariant 0 <= n <= 16 && m == 31 - n
      invariant forall k :: 0 <= k < n ==> buffer[k] == old(buffer[31 - k]) && buffer[31 - k] == old(buffer[k])
      invariant forall k :: n <= k <= m ==> buffer[k] == old(buffer[k])
    {
      buffer[n], buffer[m] := buffer[m], buffer[n];
      n, m := n + 1, m - 1;
    }
  }

  /**
   * The buffer after `file.read(buffer, 32)`: the extracted bytes, then
   * whatever the uninitialised buffer held (`stale`) past a short read.
   */
  function BufferAfterRead(s: StreamState, stale: FieldBytes): FieldBytes
    requires WellFormed(s)
  {
    var got := Extracted(s);
    got + stale[|got|..]
  }

  /**
   * A full read fills the buffer with the next 32 bytes of the file; a read
   * from a failed stream leaves the buffer as it was.
   */
  lemma BufferAfterReadLaw(s: StreamState, stale: FieldBytes)
    requires WellFormed(s)
    ensures s.good && s.pos + FieldWidth <= |s.data| ==> BufferAfterRead(s, stale) == s.data[s.pos..s.pos + FieldWidth]
    ensures !s.good ==> BufferAfterRead(s, stale) == stale
    ensures BufferAfterRead(s, stale)[..|Extracted(s)|] == Extracted(s)
  {
  }

  /** The value `read_field` returns on a stream in state `s`. */
  function FieldValue(s: StreamState, decode: Decoder, stale: FieldBytes): Fr
    requires WellFormed(s)
  {
    decode(Reversed(BufferAfterRead(s, stale)))
  }

  /** The value one `read_field` call returns, as a function of the stream's state before the call. */
  type Reading = StreamState --> Fr

  /** The reading is defined on every state a stream can be in. */
  ghost predicate ReadsAnyStream(value: Reading) {
    forall s :: WellFormed(s) ==> value.requires(s)
  }

  /** `read_field` as a reading: decode the reversed buffer of one read. */
  function FieldReading(decode: Decoder, stale: FieldBytes): (value: Reading)
    ensures ReadsAnyStream(value)
    ensures forall s :: WellFormed(s) ==> value(s) == FieldValue(s, decode, stale)
  {
    s requires WellFormed(s) => FieldValue(s, decode, stale)
  }

  /** The element that starts at byte `offset` of a file, decoded as `read_field` does. */
  function ElementAt(data: seq<byte>, offset: nat, decode: Decoder): Fr
    requires offset + 32 <= |data|
  {
    decode(Reversed(data[offset..offset + 32]))
  }

  /** A full read decodes exactly the next 32 bytes of the file, reversed. */
  lemma FullReadValue(s: StreamState, decode: Decoder, stale: FieldBytes)
    requires WellFormed(s) && s.good && s.pos + FieldWidth <= |s.data|
    ensures FieldValue(s, decode, stale) == ElementAt(s.data, s.pos, decode)
  {
    BufferAfterReadLaw(s, stale);
  }

  /** A reading that decodes every full read as the next 32 bytes of the file, reversed. */
  ghost predicate DecodesFullReads(value: Reading, decode: Decoder) {
    forall s :: WellFormed(s) && s.good && s.pos + 32 <= |s.data| ==>
      value.requires(s) && value(s) == ElementAt(s.data, s.pos, decode)
  }

  /** `read_field` decodes every full read as the reversed next 32 bytes. */
  lemma FieldReadingDecodes(decode: Decoder, stale: FieldBytes)
    ensures DecodesFullReads(FieldReading(decode, stale), decode)
  {
    forall s | WellFormed(s) && s.good && s.pos + 32 <= |s.data|
      ensures FieldReading(decode, stale)(s) == ElementAt(s.data, s.pos, decode)
    {
      FullReadValue(s, decode, stale);
    }
  }

  /** `read_field(file)`. */
  method ReadField(file: InputStream, decode: Decoder, stale: FieldBytes) returns (v: Fr)
    requires file.Valid()
    modifies file
    ensures file.Valid()
    ensures file.State() == AfterRead(old(file.State()))
    ensures v == FieldValue(old(file.State()), decode, stale)
  {
    var buffer := new byte[FieldWidth](k requires 0 <= k < FieldWidth => stale[k]);
    file.Read(buffer);
    assert buffer[..] == BufferAfterRead(old(file.State()), stale);
    ReverseInPlace(buffer);
    v := decode(buffer[..]);
  }
}
