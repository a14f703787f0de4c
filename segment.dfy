/** The segment: one store and one index covering the absolute offsets
    [baseOffset, nextOffset). */
module Segments {
  import opened Bytes
  import opened Records
  import opened StoreFile
  import opened IndexFile
  import opened LogSpec

  /** A segment's two files as bytes: `<base>.store` and `<base>.index`. An
      absent file is empty. */
  datatype SegmentFiles = SegmentFiles(store: seq<byte>, index: seq<byte>)

  /** A log directory: for each base offset, that segment's two files. */
  type Directory = map<nat, SegmentFiles>

  /** Index entry i names record i at relative offset i, and the store holds
      that record's binary form at the entry's position. */
  ghost predicate EntryHolds(store: seq<byte>, es: seq<Entry>, base: nat, recs: seq<Record>, i: nat)
    requires i < |es| && i < |recs|
  {
    && es[i].off == i
    && recs[i].offset == base + i
    && recs[i].offset < TWO64
    && EntryAt(store, es[i].pos) == Success(Marshal(recs[i]))
  }

  /** The store bytes and index entries of a segment based at base describe
      the records recs. */
  ghost predicate Describes(store: seq<byte>, es: seq<Entry>, base: nat, recs: seq<Record>)
  {
    |es| == |recs| && forall i :: 0 <= i < |recs| ==> EntryHolds(store, es, base, recs, i)
  }

  /** A segment's files hold the records recs; this is what closing a segment
      leaves behind and what reopening it relies on. */
  ghost predicate Persisted(f: SegmentFiles, base: nat, recs: seq<Record>)
  {
    |f.index| % EntWidth == 0 && Describes(f.store, DecodeEntries(f.index), base, recs)
  }

  /** Writing more bytes to the store keeps every described record readable. */
  lemma DescribesExtend(store: seq<byte>, more: seq<byte>, es: seq<Entry>, base: nat, recs: seq<Record>)
    requires Describes(store, es, base, recs)
    ensures Describes(store + more, es, base, recs)
  {
    forall i | 0 <= i < |recs| ensures EntryHolds(store + more, es, base, recs, i) {
      assert EntryHolds(store, es, base, recs, i);
      EntryAtExtend(store, more, es[i].pos);
    }
  }

  /** Appending a record's frame to the store and its entry to the index
      describes one more record. */
  lemma DescribesAppend(store: seq<byte>, es: seq<Entry>, base: nat, recs: seq<Record>, rec: Record)
    requires Describes(store, es, base, recs)
    requires rec.offset == base + |recs| < TWO64 && |Marshal(rec)| < TWO64
    ensures Describes(store + Frame(Marshal(rec)), es + [Entry(|recs|, |store|)], base, recs + [rec])
  {
    var p := Marshal(rec);
    var store' := store + Frame(p);
    var es' := es + [Entry(|recs|, |store|)];
    var recs' := recs + [rec];
    DescribesExtend(store, Frame(p), es, base, recs);
    forall i | 0 <= i < |recs'| ensures EntryHolds(store', es', base, recs', i) {
      if i < |recs| {
        assert EntryHolds(store', es, base, recs, i);
        assert es'[i] == es[i] && recs'[i] == recs[i];
      } else {
        EntryAtFrame(store, p);
      }
    }
  }

  /** Absent files hold no records, whatever the base. */
  lemma PersistedEmpty(base: nat)
    ensures Persisted(SegmentFiles([], []), base, [])
  {
    assert DecodeEntries([]) == [];
  }

  /** On reopening, the last index entry's relative offset is one less than
      the number of records. */
  lemma RecoveredLast(files: SegmentFiles, base: nat, recs: seq<Record>)
    requires Persisted(files, base, recs) && recs != []
    ensures IndexFile.Lookup(DecodeEntries(files.index), -1) == Success(DecodeEntries(files.index)[|recs| - 1])
    ensures DecodeEntries(files.index)[|recs| - 1].off == |recs| - 1
  {
    assert EntryHolds(files.store, DecodeEntries(files.index), base, recs, |recs| - 1);
  }

  /** The decimal digits of n, as in a segment's file names. */
  function Decimal(n: nat): (s: string)
    ensures |s| > 0
    ensures forall i :: 0 <= i < |s| ==> '0' <= s[i] <= '9'
  {
    var d := ['0' + (n % 10) as char];
    if n < 10 then d else Decimal(n / 10) + d
  }

  /** `ParseUint`: the value of a string of decimal digits. */
  function ParseDecimal(s: string): nat
    requires forall i :: 0 <= i < |s| ==> '0' <= s[i] <= '9'
  {
    if s == [] then 0 else ParseDecimal(s[..|s| - 1]) * 10 + (s[|s| - 1] - '0') as nat
  }

  /** A file name's base offset parses back. */
  lemma {:induction false} ParseDecimalRoundTrip(n: nat)
    ensures ParseDecimal(Decimal(n)) == n
  {
    var s := Decimal(n);
    var d := ['0' + (n % 10) as char];
    if n >= 10 {
      ParseDecimalRoundTrip(n / 10);
      assert s[..|s| - 1] == Decimal(n / 10);
    }
  }

  /** `segment`. */
  class Segment {
    var store: Store
    var index: Index
    const baseOffset: nat
    var nextOffset: nat
    const config: Config
    ghost var Records: seq<Record>
    ghost var Repr: set<object>

    ghost predicate Valid()
      reads this, Repr
    {
      && index in Repr
      && Repr == {this, store, index, index.mmap}
      && store.Valid() && index.Valid()
      && index.mmap.Length == config.maxIndexBytes <= EntWidth * TWO32
      && nextOffset == baseOffset + |Records|
      && index.size == EntWidth * |Records|
      && Describes(store.Contents(), index.Entries(), baseOffset, Records)
    }

    /** The segment as a value: its base and its records. */
    ghost function View(): SegView
      reads this
    {
      SegView(baseOffset, Records)
    }

    /** `IsMaxed()`: the store has reached its configured size, or the index
        has no room left for another entry. With the index holding one entry
        per record, that is once the records fill the whole entries the
        configured index size holds; the rule as the source states it is
        discussed under CommitLog.MaxedAsWritten. */
    predicate IsMaxed()
      reads this, store, index
      ensures index.size == EntWidth * |Records| ==>
        (IsMaxed() <==> store.size >= config.maxStoreBytes || |Records| >= Capacity(config.maxIndexBytes))
    {
      store.size >= config.maxStoreBytes || index.size + EntWidth > config.maxIndexBytes
    }

    /** `newSegment(dir, base, c)`: opens the segment's files (empty when they
        do not exist). With index entries present, nextOffset is the base plus
        the last entry's relative offset plus one; otherwise the base. */
    constructor (files: SegmentFiles, base: nat, c: Config, ghost recs: seq<Record>)
      requires Persisted(files, base, recs)
      requires |files.index| <= c.maxIndexBytes <= EntWidth * TWO32
      ensures Valid() && fresh(Repr)
      ensures baseOffset == base && config == c && Records == recs
      ensures nextOffset == base + |recs|
      ensures store.Contents() == files.store && index.size == |files.index|
      ensures index.name == Decimal(base) + ".index"
      ensures IsMaxed() <==> |files.store| >= c.maxStoreBytes || |files.index| + EntWidth > c.maxIndexBytes
    {
      var s := new Store(files.store);
      var idx := new Index(Decimal(base) + ".index", files.index, c.maxIndexBytes);
      var last := idx.Read(-1);
      var next := base;
      if last.Success? {
        RecoveredLast(files, base, recs);
        next := base + last.value.off + 1;
      }
      store, index := s, idx;
      baseOffset, config := base, c;
      nextOffset := next;
      Records := recs;
      Repr := {this, s, idx, idx.mmap};
      new;
      assert store.Contents() == files.store;
      assert index.Entries() == DecodeEntries(files.index);
    }

    /** `Append(record)`: the record is given offset nextOffset and encoded;
        the encoding goes to the store, then (nextOffset - base, position) to
        the index. If the index is full the append fails with EOF, after the
        store has already taken the bytes; otherwise nextOffset advances and
        the assigned offset is returned. */
    method Append(record: Record) returns (r: Result<nat>)
      requires Valid()
      requires nextOffset < TWO64 && store.size < TWO64 && 8 + |record.value| < TWO64
      modifies Repr
      ensures Valid() && Repr == old(Repr)
      ensures r.Success? <==> old(index.size) + EntWidth <= config.maxIndexBytes
      ensures r.Success? ==> r.value == old(nextOffset)
      ensures r.Success? ==> Records == old(Records) + [record.(offset := old(nextOffset))]
      ensures r.Failure? ==> r.error == EOF && Records == old(Records)
      ensures store.Contents() == old(store.Contents()) + Frame(Marshal(record.(offset := old(nextOffset))))
      ensures index.size == old(index.size) + if r.Success? then EntWidth else 0
    {
      var cur := nextOffset;
      var rec := record.(offset := cur);
      var p := Marshal(rec);
      ghost var before := store.Contents();
      var pos := AppendFrame(p);
      r := AppendEntry(rec, pos, before);
    }

    /** The store half of `Append`: the frame goes to the end of the store,
        and the segment still describes the same records. */
    method AppendFrame(p: seq<byte>) returns (pos: nat)
      requires Valid() && store.size < TWO64 && |p| < TWO64
      modifies store
      ensures Valid() && Records == old(Records)
      ensures store.Contents() == old(store.Contents()) + Frame(p)
      ensures pos == |old(store.Contents())| < TWO64
    {
      ghost var before := store.Contents();
      var _, at := store.Append(p);
      DescribesExtend(before, Frame(p), index.Entries(), baseOffset, Records);
      pos := at;
    }

    /** The index half of `Append`: the entry (nextOffset - base, pos) for
        the record rec, whose frame the store holds at pos. */
    method AppendEntry(rec: Record, pos: nat, ghost prefix: seq<byte>) returns (r: Result<nat>)
      requires Valid() && rec.offset == nextOffset < TWO64 && |Marshal(rec)| < TWO64 && pos < TWO64
      requires pos == |prefix| && store.Contents() == prefix + Frame(Marshal(rec))
      requires Describes(prefix, index.Entries(), baseOffset, Records)
      modifies this, index, index.mmap
      ensures Valid() && Repr == old(Repr) && store == old(store) && index == old(index)
      ensures r.Success? <==> old(index.size) + EntWidth <= config.maxIndexBytes
      ensures r.Success? ==> r.value == rec.offset && Records == old(Records) + [rec]
      ensures r.Failure? ==> r.error == EOF && Records == old(Records)
      ensures index.size == old(index.size) + if r.Success? then EntWidth else 0
    {
      ghost var es := index.Entries();
      var err := index.Write((rec.offset - baseOffset) % TWO32, pos);
      if err.Some? {
        return Failure(EOF);
      }
      RelativeOffsetFits(|es|, index.size);
      DescribesAppend(prefix, es, baseOffset, Records, rec);
      nextOffset := rec.offset + 1;
      Records := Records + [rec];
      r := Success(rec.offset);
    }

    /** `Read(off)`: looks up the relative offset off - base (a uint64
        difference read as an int64) in the index and decodes the store entry
        it points to. */
    method Read(off: nat) returns (r: Result<Record>)
      requires Valid() && off < TWO64 && baseOffset < TWO64
      modifies store
      ensures Valid() && Records == old(Records) && store.Contents() == old(store.Contents())
      ensures store.size == old(store.size)
      ensures baseOffset <= off < nextOffset ==> r == Success(Records[off - baseOffset])
      ensures nextOffset <= off < baseOffset + TWO63 ==> r == Failure(EOF)
      ensures off + 1 < baseOffset <= off + TWO63 ==> r == Failure(EOF)
      ensures off + 1 == baseOffset ==>
                r == if Records == [] then Failure(EOF) else Success(Records[|Records| - 1])
      ensures var rel := ToInt64(off - baseOffset);
                && (0 <= rel < |Records| ==> r == Success(Records[rel]))
                && (rel == -1 ==> r == if Records == [] then Failure(EOF) else Success(Records[|Records| - 1]))
                && (rel < -1 || rel >= |Records| ==> r == Failure(EOF))
    {
      var rel := ToInt64(off - baseOffset);
      var e := index.Read(rel);
      if e.Failure? {
        return Failure(e.error);
      }
      ghost var es := index.Entries();
      ghost var i: nat := if rel == -1 then |es| - 1 else rel;
      assert EntryHolds(store.Contents(), es, baseOffset, Records, i);
      var p := store.Read(e.value.pos);
      if p.Failure? {
        assert false;
        return Failure(EOF);
      }
      UnmarshalMarshal(Records[i]);
      r := Unmarshal(p.value);
      assert store.Contents() == old(store.Contents());
    }

    /** `Close()`: closes the store (flushing it) and the index (truncating it
        to its used size); what remains on disk holds the segment's records. */
    method Close() returns (files: SegmentFiles)
      requires Valid()
      modifies store
      ensures Valid() && Records == old(Records) && store.Contents() == old(store.Contents())
      ensures store.buf == [] && store.size == old(store.size)
      ensures files == SegmentFiles(old(store.Contents()), index.mmap[..index.size])
      ensures Persisted(files, baseOffset, Records) && |files.index| <= config.maxIndexBytes
    {
      store.Close();
      assert store.Contents() == old(store.Contents());
      var idx := index.Close();
      assert idx == index.mmap[..index.size];
      files := SegmentFiles(store.file, idx);
    }

    /** `Remove()`: closes the segment and deletes its two files from the
        directory dir. The files deleted are returned as well, so that
        callers can see what is dropped. */
    method Remove(ghost dir: Directory) returns (ghost removed: SegmentFiles, ghost dir': Directory)
      requires Valid()
      modifies store
      ensures Valid() && Records == old(Records) && store.Contents() == old(store.Contents())
      ensures Persisted(removed, baseOffset, Records)
      ensures baseOffset !in dir' && forall b :: b in dir && b != baseOffset ==> b in dir' && dir'[b] == dir[b]
      ensures forall b :: b in dir' ==> b in dir
    {
      removed := Close();
      dir' := dir - {baseOffset};
    }
  }

  /** `newSegment(dir, base, c)` where the directory holds no files under
      base: both files are created empty, so the segment holds no records,
      its nextOffset is its base, and it is not maxed as long as the store
      limit is positive and the index limit leaves room for one entry. */
  method Recreate(ghost dir: Directory, base: nat, c: Config) returns (s: Segment)
    requires base !in dir && c.maxIndexBytes <= EntWidth * TWO32
    ensures s.Valid() && s.baseOffset == base && s.config == c
    ensures s.Records == [] && s.nextOffset == base
    ensures !s.IsMaxed() <==> 0 < c.maxStoreBytes && EntWidth <= c.maxIndexBytes
  {
    PersistedEmpty(base);
    s := new Segment(SegmentFiles([], []), base, c, []);
  }

  /** `Remove()` followed by `newSegment(dir, base, c)` at the same base: the
      new segment starts over empty at that base, and is not maxed under a
      configuration that leaves room for a record. */
  method RemoveThenReopen(s: Segment, ghost dir: Directory, c: Config) returns (t: Segment, ghost dir': Directory)
    requires s.Valid() && c.maxIndexBytes <= EntWidth * TWO32
    modifies s.store
    ensures s.baseOffset !in dir'
    ensures t.Valid() && t.baseOffset == s.baseOffset && t.Records == [] && t.nextOffset == s.baseOffset
    ensures 0 < c.maxStoreBytes && EntWidth <= c.maxIndexBytes ==> !t.IsMaxed()
  {
    ghost var removed;
    removed, dir' := s.Remove(dir);
    t := Recreate(dir', s.baseOffset, c);
  }

  /** An index region of at most 12 * 2^32 bytes that holds n + 1 entries
      has n below 2^32, so relative offset n survives the uint32 cast. */
  lemma RelativeOffsetFits(n: nat, size: nat)
    requires size == EntWidth * (n + 1) <= EntWidth * TWO32
    ensures n < TWO32 && n % TWO32 == n
  {
  }

  /** A uint64 difference reinterpreted as an int64, as `int64(a - b)` does. */
  function ToInt64(x: int): (r: int)
    ensures -(TWO63 as int) <= r < TWO63
    ensures -(TWO63 as int) <= x < TWO63 ==> r == x
    ensures r % TWO64 == x % TWO64
  {
    var u := x % TWO64;
    if u >= TWO63 then u - TWO64 else u
  }
}
