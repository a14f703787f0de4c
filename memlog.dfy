/** The in-memory log of the HTTP service: a growing list of records whose
    offsets are their positions in the list. */
module MemLog {
  import opened Bytes
  import Records

  /** `Record`: a payload and its offset. */
  datatype Record = Record(offset: nat, value: seq<byte>)

  /** `ErrOffsetNotFound`. */
  datatype ReadError = OffsetNotFound

  /** The zero `Record{}`. */
  const Zero: Record := Record(0, [])

  /** Every record's offset is its position, so offsets run 0, 1, 2, ... */
  ghost predicate Consecutive(records: seq<Record>)
  {
    forall i :: 0 <= i < |records| ==> records[i].offset == i
  }

  /** `Log`: the records slice. */
  class Log {
    var records: seq<Record>

    ghost predicate Valid()
      reads this
    {
      Consecutive(records) && |records| <= TWO63
    }

    /** `NewLogger()`: a log with no records. */
    constructor ()
      ensures Valid() && records == []
    {
      records := [];
    }

    /** `Append(record)`: the record is given the offset len(records) and
        added at the end; that offset is returned, and no error. */
    method Append(record: Record) returns (off: nat, err: Records.Option<ReadError>)
      requires Valid() && |records| < TWO63
      modifies this
      ensures Valid()
      ensures off == old(|records|) && err == Records.None
      ensures records == old(records) + [record.(offset := off)]
    {
      var rec := record.(offset := |records|);
      records := records + [rec];
      off := rec.offset;
      err := Records.None;
    }

    /** `Read(offset)`: the record at that position, or the zero record and
        `ErrOffsetNotFound` when the offset is not below len(records). */
    function Read(offset: nat): (res: (Record, Records.Option<ReadError>))
      reads this
      ensures offset >= |records| <==> res.1 == Records.Some(OffsetNotFound)
      ensures offset >= |records| ==> res.0 == Zero
      ensures offset < |records| ==> res == (records[offset], Records.None)
      ensures Valid() && res.1.None? ==> res.0.offset == offset
    {
      if offset >= |records| then (Zero, Records.Some(OffsetNotFound)) else (records[offset], Records.None)
    }
  }

  /** Appending a record and reading back the returned offset yields that
      record's value, with the offset assigned; earlier records read as
      before. */
  method AppendThenRead(l: Log, record: Record, earlier: nat) returns (off: nat)
    requires l.Valid() && |l.records| < TWO63
    modifies l
    ensures l.Valid()
    ensures l.Read(off) == (Record(off, record.value), Records.None)
    ensures earlier < off ==> l.Read(earlier) == old(l.Read(earlier))
  {
    var err;
    off, err := l.Append(record);
  }
}
