/** The log's segment list as values: each segment's base offset and the
    records it holds. The segmented log is proved against these functions. */
module LogSpec {
  import opened Bytes
  import opened Records

  /** One segment: its base offset and its records, in offset order. */
  datatype SegView = SegView(base: nat, records: seq<Record>)

  /** The segment's `nextOffset`. */
  function Next(v: SegView): nat
  {
    v.base + |v.records|
  }

  /** Record k of the segment carries offset base + k. */
  ghost predicate OffsetsAssigned(v: SegView)
  {
    forall k :: 0 <= k < |v.records| ==> v.records[k].offset == v.base + k
  }

  /** The log's invariant over its segments: every segment's records carry
      consecutive offsets from its base; segment i's nextOffset is segment
      i+1's base; and only the last (active) segment may be empty. */
  ghost predicate WellFormed(vs: seq<SegView>)
  {
    && (forall i :: 0 <= i < |vs| ==> OffsetsAssigned(vs[i]))
    && (forall i :: 0 <= i < |vs| - 1 ==> Next(vs[i]) == vs[i + 1].base)
    && (forall i :: 0 <= i < |vs| - 1 ==> vs[i].records != [])
  }

  /** `LowestOffset()`: the first segment's base. */
  function Lowest(vs: seq<SegView>): nat
    requires |vs| > 0
  {
    vs[0].base
  }

  /** The offset the next append is assigned: the active segment's nextOffset. */
  function NextOffset(vs: seq<SegView>): nat
    requires |vs| > 0
  {
    Next(vs[|vs| - 1])
  }

  /** `HighestOffset()`: the active segment's nextOffset - 1, computed in
      uint64 arithmetic. */
  function Highest(vs: seq<SegView>): nat
    requires |vs| > 0
  {
    if NextOffset(vs) == 0 then TWO64 - 1 else NextOffset(vs) - 1
  }

  /** Every record of the log, in segment order. */
  function Flatten(vs: seq<SegView>): seq<Record>
  {
    if vs == [] then [] else vs[0].records + Flatten(vs[1..])
  }

  /** `Read(off)`: the first segment whose range [base, nextOffset) holds off
      supplies the record; if none does, the offset is out of range. */
  function Lookup(vs: seq<SegView>, off: nat): Result<Record>
  {
    if vs == [] then Failure(OffsetOutOfRange(off))
    else if vs[0].base <= off < Next(vs[0]) then Success(vs[0].records[off - vs[0].base])
    else Lookup(vs[1..], off)
  }

  lemma WellFormedTail(vs: seq<SegView>)
    requires WellFormed(vs) && |vs| > 0
    ensures WellFormed(vs[1..])
  {
    var t := vs[1..];
    forall i | 0 <= i < |t| ensures OffsetsAssigned(t[i]) {
      assert t[i] == vs[i + 1];
    }
    forall i | 0 <= i < |t| - 1 ensures Next(t[i]) == t[i + 1].base && t[i].records != [] {
      assert t[i] == vs[i + 1] && t[i + 1] == vs[i + 2];
    }
  }

  /** The flattened records are the offsets Lowest .. NextOffset-1, each at
      its own place. */
  lemma {:induction false} FlattenOffsets(vs: seq<SegView>)
    requires WellFormed(vs) && |vs| > 0
    ensures Lowest(vs) <= NextOffset(vs)
    ensures |Flatten(vs)| == NextOffset(vs) - Lowest(vs)
    ensures forall k :: 0 <= k < |Flatten(vs)| ==> Flatten(vs)[k].offset == Lowest(vs) + k
  {
    var f := Flatten(vs);
    assert OffsetsAssigned(vs[0]);
    if |vs| == 1 {
      assert vs[1..] == [];
      assert Flatten(vs[1..]) == [];
      assert f == vs[0].records;
    } else {
      WellFormedTail(vs);
      FlattenOffsets(vs[1..]);
      assert Lowest(vs[1..]) == Next(vs[0]);
      assert NextOffset(vs[1..]) == NextOffset(vs);
      var n := |vs[0].records|;
      forall k | 0 <= k < |f| ensures f[k].offset == Lowest(vs) + k {
        if k >= n {
          assert f[k] == Flatten(vs[1..])[k - n];
        }
      }
    }
  }

  /** Read routing: an offset is found exactly when it lies within
      [LowestOffset, HighestOffset]; what is found is the record carrying that
      offset; otherwise the error names the requested offset. */
  lemma {:induction false} LookupSpec(vs: seq<SegView>, off: nat)
    requires WellFormed(vs)
    ensures Lookup(vs, off).Success? <==> |vs| > 0 && Lowest(vs) <= off < NextOffset(vs)
    ensures Lookup(vs, off).Success? ==>
              |vs| > 0 && off - Lowest(vs) < |Flatten(vs)| &&
              Lookup(vs, off).value == Flatten(vs)[off - Lowest(vs)] && Lookup(vs, off).value.offset == off
    ensures Lookup(vs, off).Failure? ==> Lookup(vs, off) == Failure(OffsetOutOfRange(off))
  {
    if vs != [] {
      FlattenOffsets(vs);
      assert OffsetsAssigned(vs[0]);
      if |vs| == 1 {
        assert vs[1..] == [];
      } else {
        WellFormedTail(vs);
        LookupSpec(vs[1..], off);
        FlattenOffsets(vs[1..]);
        assert Lowest(vs[1..]) == Next(vs[0]);
        assert NextOffset(vs[1..]) == NextOffset(vs);
        if !(vs[0].base <= off < Next(vs[0])) && Lookup(vs[1..], off).Success? {
          assert Flatten(vs)[off - Lowest(vs)] == Flatten(vs[1..])[off - Lowest(vs[1..])];
        }
      }
    }
  }

  /** The segment list after appending value to the active segment: the record
      is assigned the offset NextOffset. */
  function AppendRecord(vs: seq<SegView>, value: seq<byte>): (r: seq<SegView>)
    requires |vs| > 0
    ensures |r| == |vs|
  {
    var last := vs[|vs| - 1];
    vs[..|vs| - 1] + [SegView(last.base, last.records + [Record(value, Next(last))])]
  }

  /** Rollover: a new, empty active segment whose base is the old active
      segment's nextOffset. */
  function Roll(vs: seq<SegView>): (r: seq<SegView>)
    requires |vs| > 0
    ensures |r| == |vs| + 1
  {
    vs + [SegView(NextOffset(vs), [])]
  }

  lemma {:induction false} FlattenSnoc(vs: seq<SegView>, v: SegView)
    ensures Flatten(vs + [v]) == Flatten(vs) + v.records
    decreases |vs|
  {
    if vs == [] {
      assert [v][1..] == [];
    } else {
      assert (vs + [v])[1..] == vs[1..] + [v];
      FlattenSnoc(vs[1..], v);
    }
  }

  lemma FlattenLast(vs: seq<SegView>)
    requires |vs| > 0
    ensures Flatten(vs) == Flatten(vs[..|vs| - 1]) + vs[|vs| - 1].records
  {
    var init := vs[..|vs| - 1];
    var last := vs[|vs| - 1];
    assert init + [last] == vs;
    FlattenSnoc(init, last);
  }

  /** Appending keeps the invariant, adds exactly one record at the end of the
      log, advances NextOffset by one and leaves LowestOffset alone. */
  lemma AppendRecordSpec(vs: seq<SegView>, value: seq<byte>)
    requires WellFormed(vs) && |vs| > 0
    ensures WellFormed(AppendRecord(vs, value))
    ensures Flatten(AppendRecord(vs, value)) == Flatten(vs) + [Record(value, NextOffset(vs))]
    ensures NextOffset(AppendRecord(vs, value)) == NextOffset(vs) + 1
    ensures Lowest(AppendRecord(vs, value)) == Lowest(vs)
  {
    AppendRecordWellFormed(vs, value);
    AppendRecordFlatten(vs, value);
  }

  lemma AppendRecordFlatten(vs: seq<SegView>, value: seq<byte>)
    requires |vs| > 0
    ensures Flatten(AppendRecord(vs, value)) == Flatten(vs) + [Record(value, NextOffset(vs))]
  {
    var init := vs[..|vs| - 1];
    var last := vs[|vs| - 1];
    var rec := Record(value, Next(last));
    var nl := SegView(last.base, last.records + [rec]);
    assert AppendRecord(vs, value) == init + [nl];
    assert init + [last] == vs;
    SnocRecord(init, last, rec);
  }

  lemma SnocRecord(init: seq<SegView>, last: SegView, rec: Record)
    ensures Flatten(init + [SegView(last.base, last.records + [rec])]) == Flatten(init + [last]) + [rec]
  {
    FlattenSnoc(init, last);
    FlattenSnoc(init, SegView(last.base, last.records + [rec]));
    var fi := Flatten(init);
    assert fi + (last.records + [rec]) == (fi + last.records) + [rec];
  }

  lemma AppendRecordWellFormed(vs: seq<SegView>, value: seq<byte>)
    requires WellFormed(vs) && |vs| > 0
    ensures WellFormed(AppendRecord(vs, value))
  {
    var r := AppendRecord(vs, value);
    var n := |vs| - 1;
    assert OffsetsAssigned(vs[n]);
    assert forall i :: 0 <= i < n ==> r[i] == vs[i];
    assert OffsetsAssigned(r[n]) by {
      forall k | 0 <= k < |r[n].records| ensures r[n].records[k].offset == r[n].base + k {
        if k < |vs[n].records| {
          assert r[n].records[k] == vs[n].records[k];
        }
      }
    }
    assert forall i :: 0 <= i < |r| ==> OffsetsAssigned(r[i]);
    assert r[n].base == vs[n].base;
    forall i | 0 <= i < |r| - 1 ensures Next(r[i]) == r[i + 1].base && r[i].records != [] {
      assert r[i] == vs[i];
    }
  }

  /** Rolling over keeps the invariant and changes neither the records nor
      the offsets; it needs the old active segment to hold a record. */
  lemma RollSpec(vs: seq<SegView>)
    requires WellFormed(vs) && |vs| > 0 && vs[|vs| - 1].records != []
    ensures WellFormed(Roll(vs))
    ensures Flatten(Roll(vs)) == Flatten(vs)
    ensures NextOffset(Roll(vs)) == NextOffset(vs) && Lowest(Roll(vs)) == Lowest(vs)
  {
    FlattenSnoc(vs, SegView(NextOffset(vs), []));
    var r := Roll(vs);
    forall i | 0 <= i < |r| ensures OffsetsAssigned(r[i]) {
      if i < |vs| {
        assert r[i] == vs[i];
      }
    }
  }

  /** `Truncate(lowest)`: the segments whose nextOffset exceeds lowest + 1,
      in order. */
  function Truncated(vs: seq<SegView>, lowest: nat): (r: seq<SegView>)
    ensures |r| <= |vs|
  {
    if vs == [] then []
    else if Next(vs[0]) <= lowest + 1 then Truncated(vs[1..], lowest)
    else [vs[0]] + Truncated(vs[1..], lowest)
  }

  /** Segments end in ascending order. */
  lemma {:induction false} NextOrdered(vs: seq<SegView>, i: nat, j: nat)
    requires WellFormed(vs) && i <= j < |vs|
    ensures Next(vs[i]) <= Next(vs[j])
    decreases j
  {
    if i < j {
      NextOrdered(vs, i, j - 1);
      assert Next(vs[j - 1]) == vs[j].base;
    }
  }

  /** Base offsets are strictly ascending, so no two segments share one (and
      so no two share file names). */
  lemma BasesIncreasing(vs: seq<SegView>, i: nat, j: nat)
    requires WellFormed(vs) && i < j < |vs|
    ensures vs[i].base < vs[j].base
  {
    NextOrdered(vs, i, j - 1);
    assert vs[i].records != [];
    assert Next(vs[j - 1]) == vs[j].base;
  }

  /** Once one segment is kept, all later ones are too. */
  lemma {:induction false} TruncatedKeepsAll(vs: seq<SegView>, lowest: nat)
    requires WellFormed(vs) && |vs| > 0 && Next(vs[0]) > lowest + 1
    ensures Truncated(vs, lowest) == vs
    decreases |vs|
  {
    if |vs| > 1 {
      WellFormedTail(vs);
      NextOrdered(vs, 0, 1);
      TruncatedKeepsAll(vs[1..], lowest);
    } else {
      assert vs[1..] == [];
    }
    assert [vs[0]] + vs[1..] == vs;
  }

  /** Truncation removes a prefix of the segments: what remains is a suffix
      of the list, still well formed, with the same NextOffset if anything
      remains. */
  lemma TruncatedSpec(vs: seq<SegView>, lowest: nat)
    requires WellFormed(vs)
    ensures WellFormed(Truncated(vs, lowest))
    ensures Truncated(vs, lowest) == vs[|vs| - |Truncated(vs, lowest)|..]
    ensures forall i :: 0 <= i < |vs| - |Truncated(vs, lowest)| ==> Next(vs[i]) <= lowest + 1
    ensures |Truncated(vs, lowest)| > 0 ==> NextOffset(Truncated(vs, lowest)) == NextOffset(vs)
  {
    TruncatedSuffix(vs, lowest);
    var t := Truncated(vs, lowest);
    WellFormedSuffix(vs, |vs| - |t|);
  }

  /** What truncation drops is a prefix of segments that end at or below
      lowest + 1. */
  lemma {:induction false} TruncatedSuffix(vs: seq<SegView>, lowest: nat)
    requires WellFormed(vs)
    ensures Truncated(vs, lowest) == vs[|vs| - |Truncated(vs, lowest)|..]
    ensures forall i :: 0 <= i < |vs| - |Truncated(vs, lowest)| ==> Next(vs[i]) <= lowest + 1
    decreases |vs|
  {
    var t := Truncated(vs, lowest);
    if vs == [] {
    } else if Next(vs[0]) <= lowest + 1 {
      WellFormedTail(vs);
      TruncatedSuffix(vs[1..], lowest);
      assert vs[1..][|vs[1..]| - |t|..] == vs[|vs| - |t|..];
      forall i | 0 <= i < |vs| - |t| ensures Next(vs[i]) <= lowest + 1 {
        if i > 0 {
          assert vs[i] == vs[1..][i - 1];
        }
      }
    } else {
      TruncatedKeepsAll(vs, lowest);
    }
  }

  /** Any suffix of a well-formed list is well formed and keeps NextOffset. */
  lemma WellFormedSuffix(vs: seq<SegView>, d: nat)
    requires WellFormed(vs) && d <= |vs|
    ensures WellFormed(vs[d..])
    ensures d < |vs| ==> NextOffset(vs[d..]) == NextOffset(vs)
  {
    var t := vs[d..];
    forall i | 0 <= i < |t| ensures OffsetsAssigned(t[i]) {
      assert t[i] == vs[i + d];
    }
    forall i | 0 <= i < |t| - 1 ensures Next(t[i]) == t[i + 1].base && t[i].records != [] {
      assert t[i] == vs[i + d] && t[i + 1] == vs[i + d + 1];
    }
  }

  /** A record found after the first segment is found in the whole list at the
      same offset. */
  lemma LookupTail(vs: seq<SegView>, off: nat)
    requires WellFormed(vs) && |vs| > 0 && Lookup(vs[1..], off).Success?
    ensures Lookup(vs, off) == Lookup(vs[1..], off)
  {
    WellFormedTail(vs);
    LookupSpec(vs[1..], off);
    assert |vs| > 1;
    assert Lowest(vs[1..]) == Next(vs[0]);
  }

  /** Truncation makes no new record appear: whatever the truncated log
      returns, the log returned before. */
  lemma {:induction false} TruncatedReadsOld(vs: seq<SegView>, lowest: nat, off: nat)
    requires WellFormed(vs) && Lookup(Truncated(vs, lowest), off).Success?
    ensures Lookup(Truncated(vs, lowest), off) == Lookup(vs, off)
    decreases |vs|
  {
    if Next(vs[0]) <= lowest + 1 {
      WellFormedTail(vs);
      TruncatedReadsOld(vs[1..], lowest, off);
      LookupTail(vs, off);
    } else {
      TruncatedKeepsAll(vs, lowest);
    }
  }

  /** Truncation keeps every record above `lowest` readable at its offset. */
  lemma {:induction false} TruncatedKeepsAbove(vs: seq<SegView>, lowest: nat, off: nat)
    requires WellFormed(vs) && lowest < off
    ensures Lookup(Truncated(vs, lowest), off) == Lookup(vs, off)
    decreases |vs|
  {
    if vs != [] {
      if Next(vs[0]) <= lowest + 1 {
        WellFormedTail(vs);
        TruncatedKeepsAbove(vs[1..], lowest, off);
      } else {
        TruncatedKeepsAll(vs, lowest);
      }
    }
  }

  /** Every segment truncation keeps ends above lowest + 1. */
  lemma {:induction false} TruncatedKept(vs: seq<SegView>, lowest: nat)
    ensures forall j :: 0 <= j < |Truncated(vs, lowest)| ==> Next(Truncated(vs, lowest)[j]) > lowest + 1
    decreases |vs|
  {
    if vs != [] {
      TruncatedKept(vs[1..], lowest);
    }
  }

  /** The records of a segment that truncation drops are no longer found:
      reading any of their offsets is out of range. */
  lemma TruncatedForgets(vs: seq<SegView>, lowest: nat, i: nat, off: nat)
    requires WellFormed(vs) && i < |vs| && Next(vs[i]) <= lowest + 1
    requires vs[i].base <= off < Next(vs[i])
    ensures Lookup(Truncated(vs, lowest), off) == Failure(OffsetOutOfRange(off))
  {
    var t := Truncated(vs, lowest);
    var d := |vs| - |t|;
    TruncatedSpec(vs, lowest);
    LookupSpec(t, off);
    if d < |vs| {
      TruncatedKept(vs, lowest);
      assert t[0] == vs[d];
      if d <= i {
        NextOrdered(vs, d, i);
        assert false;
      } else {
        NextOrdered(vs, i, d - 1);
        assert Next(vs[d - 1]) == vs[d].base;
      }
    }
  }
}
