/** The index: fixed-width entries (relative offset, store position) written
    into a region pre-sized to the configured capacity, of which only the
    prefix up to the used size is meaningful. */
module IndexFile {
  import opened Bytes
  import opened Records

  /** `offWidth`, `posWidth` and `entWidth`. */
  const OffWidth: nat := 4
  const PosWidth: nat := 8
  const EntWidth: nat := 12

  /** How many whole entries a region of the given size holds. */
  function Capacity(limit: nat): (k: nat)
    ensures EntWidth * k <= limit < EntWidth * (k + 1)
  {
    limit / EntWidth
  }

  /** One index entry: an offset relative to the segment's base and the store
      position of that record. */
  datatype Entry = Entry(off: nat, pos: nat)

  predicate Fits(e: Entry)
  {
    e.off < TWO32 && e.pos < TWO64
  }

  /** The twelve bytes of an entry: the relative offset as a big-endian
      uint32, then the position as a big-endian uint64. */
  function EncodeEntry(e: Entry): (b: seq<byte>)
    requires Fits(e)
    ensures |b| == EntWidth
  {
    PutUint32(e.off) + PutUint64(e.pos)
  }

  function DecodeEntry(b: seq<byte>): (e: Entry)
    requires |b| == EntWidth
    ensures Fits(e)
  {
    Uint32Bound(b[..OffWidth]);
    Uint64Bound(b[OffWidth..]);
    Entry(Uint32(b[..OffWidth]), Uint64(b[OffWidth..]))
  }

  lemma DecodeEncodeEntry(e: Entry)
    requires Fits(e)
    ensures DecodeEntry(EncodeEntry(e)) == e
  {
    var b := EncodeEntry(e);
    assert b[..OffWidth] == PutUint32(e.off);
    assert b[OffWidth..] == PutUint64(e.pos);
    Uint32RoundTrip(e.off);
    Uint64RoundTrip(e.pos);
  }

  /** The entries an index file's used region holds, in order. */
  function DecodeEntries(b: seq<byte>): (es: seq<Entry>)
    requires |b| % EntWidth == 0
    ensures |es| == |b| / EntWidth
  {
    if b == [] then []
    else DecodeEntries(b[..|b| - EntWidth]) + [DecodeEntry(b[|b| - EntWidth..])]
  }

  /** The bytes an index with entries es holds in its used region. */
  function EncodeEntries(es: seq<Entry>): (b: seq<byte>)
    requires forall i :: 0 <= i < |es| ==> Fits(es[i])
    ensures |b| == EntWidth * |es|
  {
    if es == [] then []
    else EncodeEntries(es[..|es| - 1]) + EncodeEntry(es[|es| - 1])
  }

  lemma DecodeEntriesAppend(b: seq<byte>, e: Entry)
    requires |b| % EntWidth == 0 && Fits(e)
    ensures DecodeEntries(b + EncodeEntry(e)) == DecodeEntries(b) + [e]
  {
    var all := b + EncodeEntry(e);
    assert all[..|all| - EntWidth] == b;
    assert all[|all| - EntWidth..] == EncodeEntry(e);
    DecodeEncodeEntry(e);
  }

  /** The arithmetic of entry slots in a used region of n bytes. */
  lemma SlotArith(n: nat, k: nat)
    requires n % EntWidth == 0 && k < n / EntWidth
    ensures n >= EntWidth && (n - EntWidth) % EntWidth == 0 && (n - EntWidth) / EntWidth == n / EntWidth - 1
    ensures k * EntWidth + EntWidth <= n
    ensures k == n / EntWidth - 1 ==> k * EntWidth == n - EntWidth
  {
    var q := n / EntWidth;
    assert n == EntWidth * q;
    assert n - EntWidth == EntWidth * (q - 1);
  }

  /** Entry k is decoded from the twelve bytes starting at k * entWidth. */
  lemma {:induction false} DecodeEntriesAt(b: seq<byte>, k: nat)
    requires |b| % EntWidth == 0 && k < |b| / EntWidth
    ensures DecodeEntries(b)[k] == DecodeEntry(b[k * EntWidth..k * EntWidth + EntWidth])
    decreases |b|
  {
    SlotArith(|b|, k);
    var init := b[..|b| - EntWidth];
    if k < |b| / EntWidth - 1 {
      DecodeEntriesAt(init, k);
      assert init[k * EntWidth..k * EntWidth + EntWidth] == b[k * EntWidth..k * EntWidth + EntWidth];
    } else {
      assert b[k * EntWidth..k * EntWidth + EntWidth] == b[|b| - EntWidth..];
    }
  }

  /** Persistence round trip: the bytes written for es decode back to es. */
  lemma {:induction false} DecodeEncodeEntries(es: seq<Entry>)
    requires forall i :: 0 <= i < |es| ==> Fits(es[i])
    ensures DecodeEntries(EncodeEntries(es)) == es
  {
    if es != [] {
      var init := es[..|es| - 1];
      DecodeEncodeEntries(init);
      DecodeEntriesAppend(EncodeEntries(init), es[|es| - 1]);
      assert init + [es[|es| - 1]] == es;
    }
  }

  /** Twelve bytes are the encoding of the entry they decode to. */
  lemma EncodeDecodeEntry(b: seq<byte>)
    requires |b| == EntWidth
    ensures EncodeEntry(DecodeEntry(b)) == b
  {
    Uint32Bound(b[..OffWidth]);
    Uint64Bound(b[OffWidth..]);
    assert b == b[..OffWidth] + b[OffWidth..];
  }

  /** Every decoded entry fits its field widths. */
  lemma {:induction false} DecodedFit(b: seq<byte>)
    requires |b| % EntWidth == 0
    ensures forall i :: 0 <= i < |DecodeEntries(b)| ==> Fits(DecodeEntries(b)[i])
    decreases |b|
  {
    if b != [] {
      DecodedFit(b[..|b| - EntWidth]);
    }
  }

  /** A used region of whole entries is the encoding of the entries it
      decodes to. */
  lemma {:induction false} EncodeDecodeEntries(b: seq<byte>)
    requires |b| % EntWidth == 0
    ensures (DecodedFit(b); EncodeEntries(DecodeEntries(b)) == b)
    decreases |b|
  {
    DecodedFit(b);
    if b != [] {
      var init := b[..|b| - EntWidth];
      DecodedFit(init);
      EncodeDecodeEntries(init);
      EncodeDecodeEntry(b[|b| - EntWidth..]);
      var es := DecodeEntries(b);
      assert es[..|es| - 1] == DecodeEntries(init);
      assert b == init + b[|b| - EntWidth..];
    }
  }

  /** What `Read(in)` answers over entries es: -1 names the last entry, any
      other negative value and any ordinal past the end gives EOF. */
  function Lookup(es: seq<Entry>, n: int): Result<Entry>
  {
    if n == -1 then (if es == [] then Failure(EOF) else Success(es[|es| - 1]))
    else if n < 0 || n >= |es| then Failure(EOF)
    else Success(es[n])
  }

  /** `index`: the memory-mapped region, pre-sized to the capacity, and the
      used size. */
  class Index {
    var mmap: array<byte>
    var size: nat
    const name: string

    ghost predicate Valid()
      reads this
    {
      size <= mmap.Length && size % EntWidth == 0
    }

    /** The entries written so far. */
    ghost function Entries(): seq<Entry>
      reads this, mmap
      requires Valid()
    {
      DecodeEntries(mmap[..size])
    }

    /** `NewIndex(f, c)`: the used size is the length of the existing file,
        whose bytes are kept, and the region is grown to `MaxIndexBytes`.
        `Name()` is the name of that file. */
    constructor (fileName: string, file: seq<byte>, maxIndexBytes: nat)
      requires |file| % EntWidth == 0 && |file| <= maxIndexBytes
      ensures Valid() && fresh(mmap) && name == fileName
      ensures mmap.Length == maxIndexBytes && size == |file| && mmap[..size] == file
      ensures Entries() == DecodeEntries(file)
    {
      name := fileName;
      mmap := new byte[maxIndexBytes]((i: int) => if 0 <= i < |file| then file[i] else 0);
      size := |file|;
      new;
      assert mmap[..size] == file;
    }

    /** `Write(off, pos)`: EOF if one more entry does not fit the region;
        otherwise the entry is written at the used size, which advances. */
    method Write(off: nat, pos: nat) returns (err: Option<Error>)
      requires Valid() && off < TWO32 && pos < TWO64
      modifies this, mmap
      ensures Valid() && mmap == old(mmap)
      ensures err.None? <==> old(size) + EntWidth <= mmap.Length
      ensures err.Some? ==> err == Some(EOF) && size == old(size) && mmap[..] == old(mmap[..])
      ensures err.None? ==> size == old(size) + EntWidth
      ensures Entries() == if err.None? then old(Entries()) + [Entry(off, pos)] else old(Entries())
    {
      if mmap.Length < size + EntWidth {
        return Some(EOF);
      }
      var e := EncodeEntry(Entry(off, pos));
      ghost var before := mmap[..size];
      forall i | 0 <= i < EntWidth {
        mmap[size + i] := e[i];
      }
      assert mmap[..size + EntWidth] == before + e;
      DecodeEntriesAppend(before, Entry(off, pos));
      size := size + EntWidth;
      err := None;
    }

    /** `Read(in)`: decodes the entry the ordinal (or the sentinel -1) names. */
    method Read(n: int) returns (r: Result<Entry>)
      requires Valid()
      ensures r == Lookup(Entries(), n)
    {
      var count := size / EntWidth;
      var k;
      if n == -1 {
        if count == 0 {
          return Failure(EOF);
        }
        k := count - 1;
      } else {
        if n < 0 || n >= count {
          return Failure(EOF);
        }
        k := n;
      }
      var at := k * EntWidth;
      r := Success(DecodeEntry(mmap[at..at + EntWidth]));
      assert mmap[..size][at..at + EntWidth] == mmap[at..at + EntWidth];
      DecodeEntriesAt(mmap[..size], k);
    }

    /** `Close()`: the file is truncated to the used size, so what persists is
        exactly the written entries' bytes. */
    method Close() returns (persisted: seq<byte>)
      requires Valid()
      ensures persisted == mmap[..size] && |persisted| % EntWidth == 0
      ensures DecodeEntries(persisted) == Entries()
      ensures (DecodedFit(persisted); persisted == EncodeEntries(Entries()))
    {
      persisted := mmap[..size];
      EncodeDecodeEntries(persisted);
    }
  }
}
