/** Records, the errors of the storage engine, and its configuration. */
module Records {
  import opened Bytes

  /** `api.Record`: an opaque payload and the absolute offset the log assigns it. */
  datatype Record = Record(value: seq<byte>, offset: nat)

  /** The error conditions the storage engine reports. */
  datatype Error =
    | EOF                          // `io.EOF`: no such entry, or no room for one
    | NegativeOffset               // a positional read before the start of a file
    | Malformed                    // bytes that do not decode to a record
    | OffsetOutOfRange(offset: nat) // `api.ErrOffsetOutOfRange{Offset}`

  datatype Result<T> = Success(value: T) | Failure(error: Error)

  datatype Option<T> = None | Some(value: T)

  /** `Config.Segment`: the per-segment limits and the offset of a fresh log. */
  datatype Config = Config(maxStoreBytes: nat, maxIndexBytes: nat, initialOffset: nat)

  /** The binary form of a record: its offset as eight big-endian bytes, then
      its payload. It stands in for the protobuf encoding of `api.Record`; the
      rest of the model only relies on it being decodable. */
  function Marshal(r: Record): (b: seq<byte>)
    requires r.offset < TWO64
    ensures |b| == 8 + |r.value|
  {
    PutUint64(r.offset) + r.value
  }

  /** The inverse of Marshal; fails on input too short to hold an offset. */
  function Unmarshal(b: seq<byte>): (r: Result<Record>)
    ensures r.Failure? <==> |b| < 8
    ensures r.Success? ==> r.value.offset < TWO64 && |r.value.value| == |b| - 8
  {
    if |b| < 8 then Failure(Malformed)
    else
      Uint64Bound(b[..8]);
      Success(Record(b[8..], Uint64(b[..8])))
  }

  /** Decoding a marshalled record gives the record back. */
  lemma UnmarshalMarshal(r: Record)
    requires r.offset < TWO64
    ensures Unmarshal(Marshal(r)) == Success(r)
  {
    var b := Marshal(r);
    assert b[..8] == PutUint64(r.offset);
    assert b[8..] == r.value;
    Uint64RoundTrip(r.offset);
  }

  /** Marshal is injective, so distinct records have distinct encodings. */
  lemma MarshalInjective(r1: Record, r2: Record)
    requires r1.offset < TWO64 && r2.offset < TWO64
    requires Marshal(r1) == Marshal(r2)
    ensures r1 == r2
  {
    UnmarshalMarshal(r1);
    UnmarshalMarshal(r2);
  }
}
