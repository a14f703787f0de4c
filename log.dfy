/** The log: an ordered list of segments presenting one offset space, with
    rollover on append, routing of reads, truncation of old segments, a
    replay stream of the raw store bytes, and recovery from a directory. */
module CommitLog {
  import opened Bytes
  import opened Records
  import opened StoreFile
  import opened IndexFile
  import opened LogSpec
  import opened Segments

  /** The value `NewLog` substitutes for a segment limit left at zero. */
  const DefaultMaxBytes: nat := 1024

  /** `NewLog`'s configuration: unset (zero) limits take the default. */
  function Defaulted(c: Config): (d: Config)
    ensures d.maxStoreBytes > 0 && d.maxIndexBytes > 0 && d.initialOffset == c.initialOffset
    ensures c.maxStoreBytes > 0 ==> d.maxStoreBytes == c.maxStoreBytes
    ensures c.maxIndexBytes > 0 ==> d.maxIndexBytes == c.maxIndexBytes
  {
    Config(if c.maxStoreBytes == 0 then DefaultMaxBytes else c.maxStoreBytes,
           if c.maxIndexBytes == 0 then DefaultMaxBytes else c.maxIndexBytes,
           c.initialOffset)
  }

  /** The directory holds exactly the segments vs, each one's files
      describing its records, under the segment's base offset. */
  ghost predicate DirectoryHolds(dir: Directory, vs: seq<SegView>)
  {
    && WellFormed(vs)
    && (forall i :: 0 <= i < |vs| ==> vs[i].base in dir && Persisted(dir[vs[i].base], vs[i].base, vs[i].records))
    && forall b :: b in dir ==> exists i :: 0 <= i < |vs| && vs[i].base == b
  }

  predicate StrictlyIncreasing(s: seq<nat>)
  {
    forall i, j :: 0 <= i < j < |s| ==> s[i] < s[j]
  }

  /** m is the least element of s. */
  predicate IsMin(m: nat, s: set<nat>)
  {
    m in s && forall y :: y in s ==> m <= y
  }

  /** A non-empty set of offsets has a least element. */
  lemma {:induction false} HasMin(s: set<nat>)
    requires s != {}
    ensures exists m :: IsMin(m, s)
    decreases |s|
  {
    var x :| x in s;
    var rest := s - {x};
    if rest == {} {
      assert s == {x};
      assert IsMin(x, s);
    } else {
      HasMin(rest);
      var m :| IsMin(m, rest);
      var k := if x < m then x else m;
      forall y | y in s ensures k <= y {
        if y != x {
          assert y in rest;
        }
      }
      assert IsMin(k, s);
    }
  }

  /** Two ascending sequences with the same elements start alike. */
  lemma SameHead(a: seq<nat>, b: seq<nat>)
    requires StrictlyIncreasing(a) && StrictlyIncreasing(b) && a != []
    requires forall x :: x in a <==> x in b
    ensures b != [] && a[0] == b[0]
  {
    assert a[0] in a;
    var i :| 0 <= i < |b| && b[i] == a[0];
    assert b[0] in b;
    var j :| 0 <= j < |a| && a[j] == b[0];
    assert a[0] <= a[j] && b[0] <= b[i];
  }

  /** An element after the head of one such sequence is after the head of
      the other. */
  lemma SameTailElement(a: seq<nat>, b: seq<nat>, x: nat)
    requires StrictlyIncreasing(a) && StrictlyIncreasing(b) && a != [] && b != [] && a[0] == b[0]
    requires forall y :: y in a <==> y in b
    requires x in a[1..]
    ensures x in b[1..]
  {
    var i :| 0 <= i < |a| - 1 && a[1..][i] == x;
    assert a[i + 1] == x && x in a;
    var k :| 0 <= k < |b| && b[k] == x;
    assert k != 0 && b[1..][k - 1] == x;
  }

  /** Two ascending sequences with the same elements are the same sequence. */
  lemma {:induction false} SameAscending(a: seq<nat>, b: seq<nat>)
    requires StrictlyIncreasing(a) && StrictlyIncreasing(b)
    requires forall x :: x in a <==> x in b
    ensures a == b
    decreases |a|
  {
    if a == [] {
      forall x ensures multiset(b)[x] == 0 {
        assert x !in a;
      }
      assert multiset(b) == multiset{};
      assert |b| == |multiset(b)| == 0;
    } else {
      SameHead(a, b);
      var a', b' := a[1..], b[1..];
      forall x ensures x in a' <==> x in b' {
        if x in a' {
          SameTailElement(a, b, x);
        }
        if x in b' {
          SameTailElement(b, a, x);
        }
      }
      SameAscending(a', b');
      assert a == [a[0]] + a' && b == [b[0]] + b';
    }
  }

  /** The recovered segments, in the order `NewLog` opens them: the base
      offsets parsed from the directory's file names, sorted ascending, one
      per pair of files. */
  method SortedBases(dir: Directory) returns (bases: seq<nat>)
    ensures StrictlyIncreasing(bases)
    ensures forall x :: x in bases <==> x in dir
  {
    var rest := dir.Keys;
    bases := [];
    while rest != {}
      invariant StrictlyIncreasing(bases)
      invariant forall x :: x in dir <==> x in bases || x in rest
      invariant forall i, y :: 0 <= i < |bases| && y in rest ==> bases[i] < y
      decreases rest
    {
      HasMin(rest);
      var m :| IsMin(m, rest);
      bases := bases + [m];
      rest := rest - {m};
    }
  }

  /** The bases of a well-formed log's segments, in order. */
  lemma BasesOfViews(vs: seq<SegView>, dir: Directory, bases: seq<nat>)
    requires DirectoryHolds(dir, vs)
    requires StrictlyIncreasing(bases) && forall x :: x in bases <==> x in dir
    ensures |bases| == |vs| && forall i :: 0 <= i < |vs| ==> bases[i] == vs[i].base
  {
    var vb := seq(|vs|, i requires 0 <= i < |vs| => vs[i].base);
    forall i, j | 0 <= i < j < |vb| ensures vb[i] < vb[j] {
      BasesIncreasing(vs, i, j);
    }
    KeysAreBases(dir, vs, vb);
    SameAscending(bases, vb);
  }

  /** The directory's keys are exactly the bases of the segments it holds. */
  lemma KeysAreBases(dir: Directory, vs: seq<SegView>, vb: seq<nat>)
    requires forall i :: 0 <= i < |vs| ==> vs[i].base in dir
    requires forall b :: b in dir ==> exists i :: 0 <= i < |vs| && vs[i].base == b
    requires |vb| == |vs| && forall i :: 0 <= i < |vs| ==> vb[i] == vs[i].base
    ensures forall x :: x in vb <==> x in dir
  {
    forall x ensures x in vb <==> x in dir {
      if x in vb {
        var i :| 0 <= i < |vb| && vb[i] == x;
      }
      if x in dir {
        var i :| 0 <= i < |vs| && vs[i].base == x;
        assert vb[i] == x;
      }
    }
  }

  /** The concatenation of the stores' bytes. */
  function Concat(ss: seq<seq<byte>>): seq<byte>
  {
    if ss == [] then [] else Concat(ss[..|ss| - 1]) + ss[|ss| - 1]
  }

  /** The stores after the active one takes the bytes b. */
  function AppendBytes(ss: seq<seq<byte>>, b: seq<byte>): (r: seq<seq<byte>>)
    requires |ss| > 0
    ensures |r| == |ss| && r[..|ss| - 1] == ss[..|ss| - 1]
  {
    ss[..|ss| - 1] + [ss[|ss| - 1] + b]
  }

  lemma ConcatAppendBytes(ss: seq<seq<byte>>, b: seq<byte>)
    requires |ss| > 0
    ensures Concat(AppendBytes(ss, b)) == Concat(ss) + b
    ensures Concat(AppendBytes(ss, b) + [[]]) == Concat(ss) + b
  {
    var n := |ss| - 1;
    var r := AppendBytes(ss, b);
    var c := Concat(ss[..n]);
    assert Concat(r) == Concat(r[..n]) + r[n];
    assert r[..n] == ss[..n] && r[n] == ss[n] + b;
    assert Concat(ss) == c + ss[n];
    AppendAssoc(c, ss[n], b);
    var r' := r + [[]];
    assert r'[..|r'| - 1] == r;
    assert Concat(r') == Concat(r) + [];
  }

  lemma AppendAssoc<T>(a: seq<T>, b: seq<T>, c: seq<T>)
    ensures a + (b + c) == (a + b) + c
  {
  }

  /** A store of storeLen bytes with an index of the given number of entries
      has reached a limit of c: the store is at its limit, or the index has
      no room for another entry. */
  predicate Maxed(c: Config, storeLen: nat, entries: nat)
    ensures Maxed(c, storeLen, entries) <==> storeLen >= c.maxStoreBytes || entries >= Capacity(c.maxIndexBytes)
  {
    storeLen >= c.maxStoreBytes || EntWidth * (entries + 1) > c.maxIndexBytes
  }

  /** `IsMaxed()` as written, `store.size >= MaxStoreBytes || index.size >=
      MaxIndexBytes`: the index counts as full only once its used size
      reaches the limit. When the limit is not a whole number of entries,
      that takes one entry more than the index can hold. */
  predicate MaxedAsWritten(c: Config, storeLen: nat, entries: nat)
    ensures EntWidth * Capacity(c.maxIndexBytes) == c.maxIndexBytes ==>
      (MaxedAsWritten(c, storeLen, entries) <==> storeLen >= c.maxStoreBytes || entries >= Capacity(c.maxIndexBytes))
    ensures EntWidth * Capacity(c.maxIndexBytes) != c.maxIndexBytes ==>
      (MaxedAsWritten(c, storeLen, entries) <==> storeLen >= c.maxStoreBytes || entries > Capacity(c.maxIndexBytes))
  {
    storeLen >= c.maxStoreBytes || EntWidth * entries >= c.maxIndexBytes
  }

  /** The two readings of "maxed" agree when the index limit is a whole
      number of entries, and also whenever the index still has room for the
      next entry; between them these cover every state the tests reach. */
  lemma {:induction false} MaxedAgrees(c: Config, storeLen: nat, entries: nat)
    requires EntWidth * entries <= c.maxIndexBytes
    requires c.maxIndexBytes % EntWidth == 0 || EntWidth * (entries + 1) <= c.maxIndexBytes
    ensures Maxed(c, storeLen, entries) <==> MaxedAsWritten(c, storeLen, entries)
  {
    if c.maxIndexBytes % EntWidth == 0 {
      var k := c.maxIndexBytes / EntWidth;
      assert c.maxIndexBytes == EntWidth * k;
    }
  }

  /** The two readings disagree exactly when the store is below its limit
      and the used index size lies strictly between the limit less one
      entry and the limit: for 1024 bytes, at 85 entries (1020 bytes). */
  lemma MaxedDiffer(c: Config, storeLen: nat, entries: nat)
    ensures Maxed(c, storeLen, entries) != MaxedAsWritten(c, storeLen, entries) <==>
              storeLen < c.maxStoreBytes && c.maxIndexBytes < EntWidth * (entries + 1) && EntWidth * entries < c.maxIndexBytes
  {
  }

  /** What one `Append` does to the log's segments and their stores. */
  datatype Step = Step(views: seq<SegView>, stores: seq<seq<byte>>, result: Result<nat>)

  /** `Append(record)` as a value: the record, with offset NextOffset, is
      encoded onto the active store in every case; if the active index has no
      room for another entry the append fails with EOF and no record is added;
      otherwise the record is added, and if the active segment is now maxed a
      new, empty segment based at the next offset becomes the active one. */
  function AppendStep(c: Config, vs: seq<SegView>, ss: seq<seq<byte>>, value: seq<byte>): (st: Step)
    requires |vs| == |ss| > 0 && NextOffset(vs) < TWO64 && 8 + |value| < TWO64
    ensures |st.stores| == |st.views|
    ensures st.result.Success? <==> |vs[|vs| - 1].records| < Capacity(c.maxIndexBytes)
    ensures st.result.Success? ==> st.result.value == NextOffset(vs)
    ensures st.result.Failure? ==> st.result.error == EOF && st.views == vs
    ensures |st.views| == |vs| + 1 <==>
              st.result.Success? && Maxed(c, |ss[|ss| - 1]| + |Frame(Marshal(Record(value, NextOffset(vs))))|, |vs[|vs| - 1].records| + 1)
    ensures |st.views| == |vs| || |st.views| == |vs| + 1
  {
    var last := vs[|vs| - 1];
    var off := NextOffset(vs);
    var ss' := AppendBytes(ss, Frame(Marshal(Record(value, off))));
    if EntWidth * (|last.records| + 1) > c.maxIndexBytes then Step(vs, ss', Failure(EOF))
    else
      var vs' := AppendRecord(vs, value);
      if Maxed(c, |ss'[|ss'| - 1]|, |last.records| + 1) then Step(Roll(vs'), ss' + [[]], Success(off))
      else Step(vs', ss', Success(off))
  }

  /** `Append` as it is written with MaxedAsWritten deciding the rollover. */
  function AppendStepAsWritten(c: Config, vs: seq<SegView>, ss: seq<seq<byte>>, value: seq<byte>): (st: Step)
    requires |vs| == |ss| > 0 && NextOffset(vs) < TWO64 && 8 + |value| < TWO64
    ensures |st.stores| == |st.views|
    ensures st.result.Success? <==> |vs[|vs| - 1].records| < Capacity(c.maxIndexBytes)
    ensures st.result.Success? ==> st.result.value == NextOffset(vs)
    ensures st.result.Failure? ==> st.result.error == EOF && st.views == vs
    ensures |st.views| == |vs| + 1 <==>
              st.result.Success? && MaxedAsWritten(c, |ss[|ss| - 1]| + |Frame(Marshal(Record(value, NextOffset(vs))))|, |vs[|vs| - 1].records| + 1)
    ensures |st.views| == |vs| || |st.views| == |vs| + 1
  {
    var last := vs[|vs| - 1];
    var off := NextOffset(vs);
    var ss' := AppendBytes(ss, Frame(Marshal(Record(value, off))));
    if EntWidth * (|last.records| + 1) > c.maxIndexBytes then Step(vs, ss', Failure(EOF))
    else
      var vs' := AppendRecord(vs, value);
      if MaxedAsWritten(c, |ss'[|ss'| - 1]|, |last.records| + 1) then Step(Roll(vs'), ss' + [[]], Success(off))
      else Step(vs', ss', Success(off))
  }

  /** As written, under the default index limit of 1024 bytes (85 entries
      and 4 bytes to spare) and a store limit of m: the 85th record of a
      segment is added without a rollover while the store stays below m,
      since 1020 bytes of index are below 1024. */
  lemma NoRolloverAt85AsWritten(m: nat, vs: seq<SegView>, ss: seq<seq<byte>>, value: seq<byte>)
    requires |vs| == |ss| > 0 && NextOffset(vs) < TWO64 && 8 + |value| < TWO64
    requires |vs[|vs| - 1].records| == 84 && |ss[|ss| - 1]| + LenWidth + 8 + |value| < m
    ensures var st := AppendStepAsWritten(Defaulted(Config(m, 0, 0)), vs, ss, value);
      && st.result == Success(NextOffset(vs)) && |st.views| == |vs|
      && |st.views[|vs| - 1].records| == 85
  {
    var c := Defaulted(Config(m, 0, 0));
    var ss' := AppendBytes(ss, Frame(Marshal(Record(value, NextOffset(vs)))));
    assert |ss'[|ss'| - 1]| == |ss[|ss| - 1]| + LenWidth + 8 + |value|;
    assert !MaxedAsWritten(c, |ss'[|ss'| - 1]|, 85);
    assert AppendRecord(vs, value)[|vs| - 1].records == vs[|vs| - 1].records + [Record(value, Next(vs[|vs| - 1]))];
  }

  /** As written, a segment holding 85 records under the default index limit
      is not maxed while its store is below m, yet its index has no room for
      an 86th entry: every append fails with EOF and leaves the segments as
      they are, so the same holds again for the next append, whatever the
      store then holds, and the log never rolls over again. */
  lemma AppendStallsAsWritten(m: nat, vs: seq<SegView>, ss: seq<seq<byte>>, value: seq<byte>)
    requires |vs| == |ss| > 0 && NextOffset(vs) < TWO64 && 8 + |value| < TWO64
    requires |vs[|vs| - 1].records| == 85
    ensures |ss[|ss| - 1]| < m ==> !MaxedAsWritten(Defaulted(Config(m, 0, 0)), |ss[|ss| - 1]|, 85)
    ensures var st := AppendStepAsWritten(Defaulted(Config(m, 0, 0)), vs, ss, value);
      st.result == Failure(EOF) && st.views == vs
  {
  }

  /** The active segment's index has room for one more entry. */
  predicate HasRoom(c: Config, vs: seq<SegView>)
    requires |vs| > 0
  {
    EntWidth * (|vs[|vs| - 1].records| + 1) <= c.maxIndexBytes
  }

  /** With Maxed deciding the rollover, an append to a log whose active
      index has room succeeds, and leaves an active index with room again,
      provided the index limit holds at least one entry (so that a new
      segment has room). Every append to a log that starts with room
      therefore succeeds. */
  lemma AppendKeepsRoom(c: Config, vs: seq<SegView>, ss: seq<seq<byte>>, value: seq<byte>)
    requires WellFormed(vs) && |vs| == |ss| > 0 && NextOffset(vs) < TWO64 && 8 + |value| < TWO64
    requires EntWidth <= c.maxIndexBytes && HasRoom(c, vs)
    ensures var st := AppendStep(c, vs, ss, value);
      st.result == Success(NextOffset(vs)) && |st.views| > 0 && HasRoom(c, st.views)
  {
    AppendStepSpec(c, vs, ss, value);
  }

  /** An append keeps the segment list well formed. */
  lemma AppendStepWellFormed(c: Config, vs: seq<SegView>, ss: seq<seq<byte>>, value: seq<byte>)
    requires WellFormed(vs) && |vs| == |ss| > 0 && NextOffset(vs) < TWO64 && 8 + |value| < TWO64
    ensures WellFormed(AppendStep(c, vs, ss, value).views)
  {
    if AppendStep(c, vs, ss, value).result.Success? {
      AppendRecordSpec(vs, value);
      var vs' := AppendRecord(vs, value);
      if |AppendStep(c, vs, ss, value).views| > |vs| {
        RollSpec(vs');
      }
    }
  }

  /** Offsets are assigned one by one regardless of rollover: a successful
      append adds exactly the record with offset NextOffset at the end of the
      log, keeps the lowest offset and the invariant; a failed one adds no
      record; either way the replay stream grows by the record's frame, and a
      rollover adds an empty segment based at the new NextOffset. */
  lemma AppendStepSpec(c: Config, vs: seq<SegView>, ss: seq<seq<byte>>, value: seq<byte>)
    requires WellFormed(vs) && |vs| == |ss| > 0 && NextOffset(vs) < TWO64 && 8 + |value| < TWO64
    ensures var st := AppendStep(c, vs, ss, value);
      && WellFormed(st.views) && |st.views| == |st.stores| > 0
      && (st.result.Success? <==> EntWidth * (|vs[|vs| - 1].records| + 1) <= c.maxIndexBytes)
      && (st.result.Success? ==>
            && st.result.value == NextOffset(vs)
            && Flatten(st.views) == Flatten(vs) + [Record(value, NextOffset(vs))]
            && NextOffset(st.views) == NextOffset(vs) + 1
            && Lowest(st.views) == Lowest(vs))
      && (st.result.Failure? ==> st.result == Failure(EOF) && st.views == vs)
      && (|st.views| > |vs| ==> st.views[|vs|] == SegView(NextOffset(vs) + 1, []))
      && Concat(st.stores) == Concat(ss) + Frame(Marshal(Record(value, NextOffset(vs))))
  {
    var st := AppendStep(c, vs, ss, value);
    ConcatAppendBytes(ss, Frame(Marshal(Record(value, NextOffset(vs)))));
    if st.result.Success? {
      AppendRecordSpec(vs, value);
      var vs' := AppendRecord(vs, value);
      if |st.views| > |vs| {
        assert vs'[|vs'| - 1].records != [];
        RollSpec(vs');
      }
    }
  }

  /** The appended record is read back at the offset the append returned,
      and every other offset reads as before. */
  lemma AppendThenRead(c: Config, vs: seq<SegView>, ss: seq<seq<byte>>, value: seq<byte>, off: nat)
    requires WellFormed(vs) && |vs| == |ss| > 0 && NextOffset(vs) < TWO64 && 8 + |value| < TWO64
    requires AppendStep(c, vs, ss, value).result.Success?
    ensures var vs' := AppendStep(c, vs, ss, value).views;
      LogSpec.Lookup(vs', off) == if off == NextOffset(vs) then Success(Record(value, off)) else LogSpec.Lookup(vs, off)
  {
    var vs' := AppendStep(c, vs, ss, value).views;
    AppendStepSpec(c, vs, ss, value);
    LookupSpec(vs, off);
    LookupSpec(vs', off);
    FlattenOffsets(vs);
    FlattenOffsets(vs');
    if off != NextOffset(vs) && LogSpec.Lookup(vs, off).Success? {
      assert Flatten(vs')[off - Lowest(vs)] == Flatten(vs)[off - Lowest(vs)];
    }
  }

  /** Each store holds exactly the frames of its segment's records, in
      order: no append has failed part-way. */
  ghost predicate Clean(vs: seq<SegView>, ss: seq<seq<byte>>)
  {
    && |vs| == |ss|
    && (forall i :: 0 <= i < |vs| ==> Encodable(vs[i].records))
    && forall i :: 0 <= i < |vs| ==> ss[i] == Framed(Marshals(vs[i].records))
  }

  /** Every record has an offset and an encoding small enough to frame. */
  ghost predicate Encodable(recs: seq<Record>)
  {
    forall k :: 0 <= k < |recs| ==> recs[k].offset < TWO64 && 8 + |recs[k].value| < TWO64
  }

  /** The binary forms of the records, in order. */
  function Marshals(recs: seq<Record>): (ps: seq<seq<byte>>)
    requires Encodable(recs)
    ensures |ps| == |recs| && Frameable(ps)
  {
    seq(|recs|, k requires 0 <= k < |recs| => Marshal(recs[k]))
  }

  /** A successful append keeps the stores clean. */
  lemma AppendStepClean(c: Config, vs: seq<SegView>, ss: seq<seq<byte>>, value: seq<byte>)
    requires Clean(vs, ss) && |vs| > 0 && NextOffset(vs) < TWO64 && 8 + |value| < TWO64
    requires AppendStep(c, vs, ss, value).result.Success?
    ensures Clean(AppendStep(c, vs, ss, value).views, AppendStep(c, vs, ss, value).stores)
  {
    var n := |vs| - 1;
    var last := vs[n];
    var rec := Record(value, NextOffset(vs));
    var recs := last.records + [rec];
    var vs' := AppendRecord(vs, value);
    var ss' := AppendBytes(ss, Frame(Marshal(rec)));
    assert Encodable(recs) by {
      assert Encodable(last.records);
    }
    assert Marshals(recs) == Marshals(last.records) + [Marshal(rec)];
    var ps := Marshals(recs);
    assert ps[..|ps| - 1] == Marshals(last.records);
    assert ss'[n] == Framed(ps);
    assert Clean(vs', ss') by {
      forall i | 0 <= i < |vs'| ensures Encodable(vs'[i].records) && ss'[i] == Framed(Marshals(vs'[i].records)) {
        if i < n {
          assert vs'[i] == vs[i] && ss'[i] == ss[i];
        }
      }
    }
    var st := AppendStep(c, vs, ss, value);
    if st.views != vs' {
      assert st.views == vs' + [SegView(NextOffset(vs'), [])] && st.stores == ss' + [[]];
      assert Marshals([]) == [];
      forall i | 0 <= i < |st.views| ensures Encodable(st.views[i].records) && st.stores[i] == Framed(Marshals(st.views[i].records)) {
        if i < |vs'| {
          assert st.views[i] == vs'[i] && st.stores[i] == ss'[i];
        }
      }
    }
  }

  lemma MarshalsConcat(a: seq<Record>, b: seq<Record>)
    requires Encodable(a) && Encodable(b)
    ensures Encodable(a + b) && Marshals(a + b) == Marshals(a) + Marshals(b)
  {
    assert Encodable(a + b) by {
      forall k | 0 <= k < |a + b| ensures (a + b)[k].offset < TWO64 && 8 + |(a + b)[k].value| < TWO64 {
        if k >= |a| {
          assert (a + b)[k] == b[k - |a|];
        }
      }
    }
  }

  /** Replaying clean stores decodes to every record of the log, in offset
      order, across segment boundaries. */
  lemma {:induction false} ReplayClean(vs: seq<SegView>, ss: seq<seq<byte>>)
    requires Clean(vs, ss)
    ensures Encodable(Flatten(vs))
    ensures Concat(ss) == Framed(Marshals(Flatten(vs)))
    ensures Unframe(Concat(ss)) == Some(Marshals(Flatten(vs)))
    decreases |vs|
  {
    if vs == [] {
      assert Marshals([]) == [];
    } else {
      var n := |vs| - 1;
      var init, sinit := vs[..n], ss[..n];
      assert Clean(init, sinit) by {
        forall i | 0 <= i < n ensures init[i] == vs[i] && sinit[i] == ss[i] {}
      }
      ReplayClean(init, sinit);
      FlattenLast(vs);
      assert Encodable(vs[n].records);
      MarshalsConcat(Flatten(init), vs[n].records);
      FramedConcat(Marshals(Flatten(init)), Marshals(vs[n].records));
      UnframeFramed(Marshals(Flatten(vs)));
    }
  }

  /** Every offset from the lowest to the highest is readable, and no other:
      the range `LowestOffset`..`HighestOffset` of a non-empty log is exactly
      the set of offsets `Read` finds. */
  lemma ReadableRange(vs: seq<SegView>, off: nat)
    requires WellFormed(vs) && |vs| > 0 && NextOffset(vs) > 0
    ensures LogSpec.Lookup(vs, off).Success? <==> Lowest(vs) <= off <= Highest(vs)
  {
    LookupSpec(vs, off);
  }

  /** Truncation keeps a suffix: if the segments before d all end at or below
      lowest + 1 and the one at d does not, the log keeps the segments from d. */
  lemma {:induction false} TruncatedAt(vs: seq<SegView>, lowest: nat, d: nat)
    requires WellFormed(vs) && d <= |vs|
    requires forall j :: 0 <= j < d ==> Next(vs[j]) <= lowest + 1
    requires d < |vs| ==> Next(vs[d]) > lowest + 1
    ensures Truncated(vs, lowest) == vs[d..]
    decreases d
  {
    if d == 0 {
      if vs != [] {
        TruncatedKeepsAll(vs, lowest);
      }
    } else {
      WellFormedTail(vs);
      forall j | 0 <= j < d - 1 ensures Next(vs[1..][j]) <= lowest + 1 {
        assert vs[1..][j] == vs[j + 1];
      }
      TruncatedAt(vs[1..], lowest, d - 1);
      assert vs[1..][d - 1..] == vs[d..];
    }
  }

  /** Segment s is open with configuration cfg, holds the records of v, and
      its store reads as store. */
  ghost predicate Opened(s: Segment, cfg: Config, v: SegView, store: seq<byte>)
    reads s, s.Repr
  {
    s.Valid() && s.config == cfg && s.View() == v && s.store.Contents() == store
  }

  /** segs are open over the views vs and the stores ss, each with its own
      objects inside repr, no two segments sharing one. */
  ghost predicate Family(segs: seq<Segment>, cfg: Config, vs: seq<SegView>, ss: seq<seq<byte>>, repr: set<object>)
    reads repr
  {
    && |segs| == |vs| == |ss|
    && (forall j :: 0 <= j < |segs| ==> segs[j] in repr)
    && (forall j :: 0 <= j < |segs| ==> segs[j].Repr <= repr)
    && (forall j {:trigger Opened(segs[j], cfg, vs[j], ss[j])} :: 0 <= j < |segs| ==> Opened(segs[j], cfg, vs[j], ss[j]))
    && (forall j, k :: 0 <= j < k < |segs| ==> segs[j].Repr !! segs[k].Repr)
  }

  /** Dropping the first d segments leaves a family. */
  lemma FamilySuffix(segs: seq<Segment>, cfg: Config, vs: seq<SegView>, ss: seq<seq<byte>>, repr: set<object>, d: nat)
    requires Family(segs, cfg, vs, ss, repr) && d <= |segs|
    ensures Family(segs[d..], cfg, vs[d..], ss[d..], repr)
  {
    forall j | 0 <= j < |segs| - d ensures segs[d..][j] in repr && segs[d..][j].Repr <= repr {
      assert segs[d..][j] == segs[j + d];
    }
    forall j | 0 <= j < |segs| - d ensures Opened(segs[d..][j], cfg, vs[d..][j], ss[d..][j]) {
      assert segs[d..][j] == segs[j + d] && vs[d..][j] == vs[j + d] && ss[d..][j] == ss[j + d];
    }
    forall j, k | 0 <= j < k < |segs| - d ensures segs[d..][j].Repr !! segs[d..][k].Repr {
      assert segs[d..][j] == segs[j + d] && segs[d..][k] == segs[k + d];
    }
  }

  /** A family whose segment k has just been operated on, and the view and
      store that segment now has. */
  datatype SegmentChange = SegmentChange(segs: seq<Segment>, cfg: Config, vs: seq<SegView>, ss: seq<seq<byte>>,
                                         repr: set<object>, k: nat, v: SegView, st: seq<byte>)

  /** After segment k alone has changed, keeping its objects, the family
      holds with segment k's new view and store. */
  twostate lemma FamilyUpdate(c: SegmentChange)
    requires old(Family(c.segs, c.cfg, c.vs, c.ss, c.repr)) && c.k < |c.segs|
    requires c.segs[c.k].Repr == old(c.segs[c.k].Repr)
    requires unchanged(c.repr - old(c.segs[c.k].Repr))
    requires Opened(c.segs[c.k], c.cfg, c.v, c.st)
    ensures Family(c.segs, c.cfg, c.vs[c.k := c.v], c.ss[c.k := c.st], c.repr)
  {
    var segs, k := c.segs, c.k;
    forall j | 0 <= j < |segs| && j != k
      ensures segs[j].Repr == old(segs[j].Repr) && Opened(segs[j], c.cfg, c.vs[j], c.ss[j])
    {
      assert old(segs[j].Repr !! segs[k].Repr) by {
        if j < k {
        } else {
        }
      }
      assert old(Opened(segs[j], c.cfg, c.vs[j], c.ss[j]));
      assert old(segs[j].Repr) <= c.repr - old(segs[k].Repr);
      OpenedUnchanged(OpenSegment(segs[j], c.cfg, c.vs[j], c.ss[j]));
    }
  }

  /** A segment with its configuration, view and store. */
  datatype OpenSegment = OpenSegment(s: Segment, cfg: Config, v: SegView, st: seq<byte>)

  /** A segment none of whose objects changed is open as before. */
  twostate lemma OpenedUnchanged(o: OpenSegment)
    requires old(Opened(o.s, o.cfg, o.v, o.st)) && unchanged(old(o.s.Repr))
    ensures o.s.Repr == old(o.s.Repr) && Opened(o.s, o.cfg, o.v, o.st)
  {
  }

  /** `newSegment(dir, base, c)`: opens a segment over files and adds it to
      the family. */
  method Extend(segs: seq<Segment>, ghost repr: set<object>, files: SegmentFiles, base: nat, cfg: Config,
                ghost vs: seq<SegView>, ghost ss: seq<seq<byte>>, ghost v: SegView)
    returns (segs': seq<Segment>, ghost repr': set<object>)
    requires Family(segs, cfg, vs, ss, repr)
    requires v.base == base && Persisted(files, base, v.records)
    requires |files.index| <= cfg.maxIndexBytes <= EntWidth * TWO32
    ensures Family(segs', cfg, vs + [v], ss + [files.store], repr')
    ensures |segs'| == |segs| + 1 && segs'[..|segs|] == segs
    ensures repr <= repr' && fresh(repr' - repr)
  {
    var s := new Segment(files, base, cfg, v.records);
    assert Family(segs, cfg, vs, ss, repr);
    segs' := segs + [s];
    repr' := repr + s.Repr;
    forall j | 0 <= j < |segs| ensures segs[j].Repr !! s.Repr {
      assert segs[j].Repr <= repr;
    }
    forall j | 0 <= j < |segs'| ensures segs'[j] in repr' && segs'[j].Repr <= repr'
      && Opened(segs'[j], cfg, (vs + [v])[j], (ss + [files.store])[j])
    {
      if j < |segs| {
        assert segs'[j] == segs[j] && (vs + [v])[j] == vs[j] && (ss + [files.store])[j] == ss[j];
      }
    }
    forall j, k | 0 <= j < k < |segs'| ensures segs'[j].Repr !! segs'[k].Repr {
      if k < |segs| {
        assert segs'[j] == segs[j] && segs'[k] == segs[k];
      }
    }
  }

  /** The stores the directory holds for the segments vs. */
  ghost function StoresOf(dir: Directory, vs: seq<SegView>): (ss: seq<seq<byte>>)
    requires forall i :: 0 <= i < |vs| ==> vs[i].base in dir
    ensures |ss| == |vs|
  {
    seq(|vs|, i requires 0 <= i < |vs| => dir[vs[i].base].store)
  }

  /** The stores of the given segment files. */
  function StoresOfFiles(files: seq<SegmentFiles>): (ss: seq<seq<byte>>)
    ensures |ss| == |files| && forall j :: 0 <= j < |files| ==> ss[j] == files[j].store
  {
    seq(|files|, j requires 0 <= j < |files| => files[j].store)
  }

  lemma SnocPrefix<T>(s: seq<T>, i: nat)
    requires i < |s|
    ensures s[..i] + [s[i]] == s[..i + 1]
  {
  }

  /** a is the slice s[d..i]. */
  ghost predicate IsSlice<T>(a: seq<T>, s: seq<T>, d: nat, i: nat)
  {
    d <= i <= |s| && a == s[d..i]
  }

  lemma SnocSlice<T>(a: seq<T>, s: seq<T>, d: nat, i: nat)
    requires IsSlice(a, s, d, i) && i < |s|
    ensures IsSlice(a + [s[i]], s, d, i + 1)
  {
  }

  /** Opens one segment per element of files, in order; segment j is based at
      bases[j] and holds the records of was[j]. */
  method OpenAll(files: seq<SegmentFiles>, bases: seq<nat>, cfg: Config, ghost was: seq<SegView>)
    returns (segs: seq<Segment>, ghost repr: set<object>)
    requires |files| == |bases| == |was| && cfg.maxIndexBytes <= EntWidth * TWO32
    requires forall j :: 0 <= j < |files| ==> bases[j] == was[j].base
    requires forall j :: 0 <= j < |files| ==> Persisted(files[j], was[j].base, was[j].records)
    requires forall j :: 0 <= j < |files| ==> |files[j].index| <= cfg.maxIndexBytes
    ensures Family(segs, cfg, was, StoresOfFiles(files), repr) && fresh(repr)
  {
    ghost var ss := StoresOfFiles(files);
    segs, repr := [], {};
    var i := 0;
    while i < |files|
      invariant 0 <= i <= |files|
      invariant Family(segs, cfg, was[..i], ss[..i], repr) && fresh(repr)
    {
      segs, repr := Extend(segs, repr, files[i], bases[i], cfg, was[..i], ss[..i], was[i]);
      SnocPrefix(was, i);
      SnocPrefix(ss, i);
      i := i + 1;
    }
    assert was[..i] == was && ss[..i] == ss;
  }

  /** `NewLog`'s scan: one segment per distinct base offset in the
      directory, opened over its files, in ascending order. */
  method OpenSegments(dir: Directory, cfg: Config, ghost was: seq<SegView>) returns (segs: seq<Segment>, ghost repr: set<object>)
    requires DirectoryHolds(dir, was)
    requires cfg.maxIndexBytes <= EntWidth * TWO32
    requires forall b :: b in dir ==> |dir[b].index| <= cfg.maxIndexBytes
    ensures Family(segs, cfg, was, StoresOf(dir, was), repr) && fresh(repr)
  {
    var bases := SortedBases(dir);
    BasesOfViews(was, dir, bases);
    var files := seq(|bases|, j requires 0 <= j < |bases| => dir[bases[j]]);
    segs, repr := OpenAll(files, bases, cfg, was);
    assert StoresOfFiles(files) == StoresOf(dir, was);
  }

  /** `NewLog`'s segments: those of the directory, or, for an empty
      directory, one new segment at the configured initial offset. */
  method OpenLog(dir: Directory, cfg: Config, ghost was: seq<SegView>)
    returns (segs: seq<Segment>, ghost vs: seq<SegView>, ghost ss: seq<seq<byte>>, ghost repr: set<object>)
    requires DirectoryHolds(dir, was)
    requires cfg.maxIndexBytes <= EntWidth * TWO32
    requires forall b :: b in dir ==> |dir[b].index| <= cfg.maxIndexBytes
    ensures Family(segs, cfg, vs, ss, repr) && fresh(repr) && WellFormed(vs)
    ensures dir == map[] ==> vs == [SegView(cfg.initialOffset, [])] && ss == [[]]
    ensures dir != map[] ==> vs == was && ss == StoresOf(dir, was)
  {
    segs, repr := OpenSegments(dir, cfg, was);
    vs, ss := was, StoresOf(dir, was);
    if |segs| == 0 {
      assert |was| == 0;
      assert dir.Keys == {};
      assert Family([], cfg, [], [], {});
      segs, repr := Extend([], {}, SegmentFiles([], []), cfg.initialOffset, cfg, [], [], SegView(cfg.initialOffset, []));
      vs, ss := [SegView(cfg.initialOffset, [])], [[]];
      assert [] + vs == vs && [] + ss == ss;
    } else {
      assert dir != map[] by {
        assert was[0].base in dir;
      }
    }
  }

  /** The active segment's `Append`: the record's frame goes to the active
      store; the record is added unless the index is full. */
  method AppendActive(segs: seq<Segment>, cfg: Config, ghost vs: seq<SegView>, ghost ss: seq<seq<byte>>,
                      ghost repr: set<object>, record: Record)
    returns (r: Result<nat>, ghost v: SegView, ghost st: seq<byte>)
    requires Family(segs, cfg, vs, ss, repr) && |segs| > 0
    requires NextOffset(vs) < TWO64 && 8 + |record.value| < TWO64 && |ss[|ss| - 1]| < TWO64
    modifies segs[|segs| - 1].Repr
    ensures Family(segs, cfg, vs[|vs| - 1 := v], ss[|ss| - 1 := st], repr)
    ensures st == ss[|ss| - 1] + Frame(Marshal(Record(record.value, NextOffset(vs))))
    ensures r.Success? <==> EntWidth * (|vs[|vs| - 1].records| + 1) <= cfg.maxIndexBytes
    ensures r.Success? ==> r.value == NextOffset(vs)
    ensures r.Success? ==> v == SegView(vs[|vs| - 1].base, vs[|vs| - 1].records + [Record(record.value, NextOffset(vs))])
    ensures r.Failure? ==> r == Failure(EOF) && v == vs[|vs| - 1]
    ensures segs[|segs| - 1].nextOffset == Next(v)
    ensures segs[|segs| - 1].IsMaxed() <==> Maxed(cfg, |st|, |v.records|)
  {
    var n := |segs| - 1;
    var active := segs[n];
    assert Opened(active, cfg, vs[n], ss[n]);
    label L:
    r := active.Append(record);
    v, st := active.View(), active.store.Contents();
    FamilyUpdate@L(SegmentChange(segs, cfg, vs, ss, repr, n, v, st));
  }

  /** Replacing the last element of a non-empty sequence. */
  lemma UpdateLast<T>(s: seq<T>, x: T)
    requires |s| > 0
    ensures s[|s| - 1 := x] == s[..|s| - 1] + [x]
  {
  }

  /** The active segment's `Append` in terms of the whole log: the frame is
      added to the active store, and the record to the active segment when
      the index has room. */
  method AppendToActive(segs: seq<Segment>, cfg: Config, ghost vs: seq<SegView>, ghost ss: seq<seq<byte>>,
                        ghost repr: set<object>, record: Record) returns (r: Result<nat>, ghost vs': seq<SegView>)
    requires Family(segs, cfg, vs, ss, repr) && |segs| > 0
    requires NextOffset(vs) < TWO64 && 8 + |record.value| < TWO64 && |ss[|ss| - 1]| < TWO64
    modifies segs[|segs| - 1].Repr
    ensures Family(segs, cfg, vs', AppendBytes(ss, Frame(Marshal(Record(record.value, NextOffset(vs))))), repr)
    ensures r.Success? <==> EntWidth * (|vs[|vs| - 1].records| + 1) <= cfg.maxIndexBytes
    ensures r.Success? ==> r == Success(NextOffset(vs)) && vs' == AppendRecord(vs, record.value)
    ensures r.Success? ==> segs[|segs| - 1].nextOffset == NextOffset(vs) + 1
    ensures r.Success? ==> (segs[|segs| - 1].IsMaxed() <==>
                              Maxed(cfg, |ss[|ss| - 1]| + LenWidth + 8 + |record.value|, |vs[|vs| - 1].records| + 1))
    ensures r.Failure? ==> r == Failure(EOF) && vs' == vs
  {
    var n := |segs| - 1;
    ghost var v, st;
    r, v, st := AppendActive(segs, cfg, vs, ss, repr, record);
    UpdateLast(ss, st);
    UpdateLast(vs, v);
    vs' := vs[n := v];
  }

  /** `Log.Append` over a family: the active segment appends, and a new
      empty segment is opened at the next offset when it is then maxed. */
  method AppendFamily(segs: seq<Segment>, cfg: Config, ghost vs: seq<SegView>, ghost ss: seq<seq<byte>>,
                      ghost repr: set<object>, record: Record)
    returns (r: Result<nat>, segs': seq<Segment>, ghost vs': seq<SegView>, ghost ss': seq<seq<byte>>, ghost repr': set<object>)
    requires Family(segs, cfg, vs, ss, repr) && |segs| > 0 && cfg.maxIndexBytes <= EntWidth * TWO32
    requires NextOffset(vs) < TWO64 && 8 + |record.value| < TWO64 && |ss[|ss| - 1]| < TWO64
    modifies repr
    ensures Family(segs', cfg, vs', ss', repr') && repr <= repr' && fresh(repr' - repr)
    ensures Step(vs', ss', r) == AppendStep(cfg, vs, ss, record.value)
  {
    var active := segs[|segs| - 1];
    r, vs' := AppendToActive(segs, cfg, vs, ss, repr, record);
    segs', repr', ss' := segs, repr, AppendBytes(ss, Frame(Marshal(Record(record.value, NextOffset(vs)))));
    if r.Success? && active.IsMaxed() {
      segs', repr' := Rollover(segs, cfg, vs', ss', repr);
      vs', ss' := Roll(vs'), ss' + [[]];
    }
  }

  /** `newSegment(off)` on rollover: a new, empty segment based at the
      active segment's nextOffset becomes the active one. */
  method Rollover(segs: seq<Segment>, cfg: Config, ghost vs: seq<SegView>, ghost ss: seq<seq<byte>>, ghost repr: set<object>)
    returns (segs': seq<Segment>, ghost repr': set<object>)
    requires Family(segs, cfg, vs, ss, repr) && |segs| > 0 && cfg.maxIndexBytes <= EntWidth * TWO32
    ensures Family(segs', cfg, Roll(vs), ss + [[]], repr') && repr <= repr' && fresh(repr' - repr)
  {
    var active := segs[|segs| - 1];
    assert Opened(active, cfg, vs[|vs| - 1], ss[|ss| - 1]);
    PersistedEmpty(active.nextOffset);
    segs', repr' := Extend(segs, repr, SegmentFiles([], []), active.nextOffset, cfg, vs, ss, SegView(active.nextOffset, []));
  }

  /** `Log.Read` over a family: the first segment whose range holds off
      answers; otherwise the offset is out of range. */
  method ReadFamily(segs: seq<Segment>, cfg: Config, ghost vs: seq<SegView>, ghost ss: seq<seq<byte>>,
                    ghost repr: set<object>, off: nat) returns (r: Result<Record>)
    requires Family(segs, cfg, vs, ss, repr) && off < TWO64
    modifies repr
    ensures Family(segs, cfg, vs, ss, repr)
    ensures r == LogSpec.Lookup(vs, off)
  {
    var i := 0;
    while i < |segs|
      invariant 0 <= i <= |segs|
      invariant LogSpec.Lookup(vs, off) == LogSpec.Lookup(vs[i..], off)
    {
      var s := segs[i];
      assert Opened(s, cfg, vs[i], ss[i]);
      if s.baseOffset <= off < s.nextOffset {
        break;
      }
      assert vs[i..][1..] == vs[i + 1..];
      i := i + 1;
    }
    if i == |segs| {
      return Failure(OffsetOutOfRange(off));
    }
    assert vs[i..][0] == vs[i];
    r := ReadSegment(segs, cfg, vs, ss, repr, i, off);
  }

  /** Segment k's `Read(off)`, for an offset within its range. */
  method ReadSegment(segs: seq<Segment>, cfg: Config, ghost vs: seq<SegView>, ghost ss: seq<seq<byte>>,
                     ghost repr: set<object>, k: nat, off: nat) returns (r: Result<Record>)
    requires Family(segs, cfg, vs, ss, repr) && k < |segs| && off < TWO64
    requires vs[k].base <= off < Next(vs[k])
    modifies segs[k].store
    ensures Family(segs, cfg, vs, ss, repr)
    ensures r == Success(vs[k].records[off - vs[k].base])
  {
    var s := segs[k];
    assert Opened(s, cfg, vs[k], ss[k]);
    label L:
    r := s.Read(off);
    FamilyUpdate@L(SegmentChange(segs, cfg, vs, ss, repr, k, vs[k], ss[k]));
    assert vs[k := vs[k]] == vs && ss[k := ss[k]] == ss;
  }

  /** Segment k's `Remove()`: its files are closed and deleted from the
      directory dir; the objects stay as they were. */
  method RemoveSegment(segs: seq<Segment>, cfg: Config, ghost vs: seq<SegView>, ghost ss: seq<seq<byte>>,
                       ghost repr: set<object>, k: nat, ghost dir: Directory)
    returns (ghost removed: SegmentFiles, ghost dir': Directory)
    requires Family(segs, cfg, vs, ss, repr) && k < |segs|
    modifies segs[k].store
    ensures Family(segs, cfg, vs, ss, repr)
    ensures Persisted(removed, vs[k].base, vs[k].records)
    ensures dir' == dir - {vs[k].base}
  {
    var s := segs[k];
    assert Opened(s, cfg, vs[k], ss[k]);
    label L:
    removed, dir' := s.Remove(dir);
    FamilyUpdate@L(SegmentChange(segs, cfg, vs, ss, repr, k, vs[k], ss[k]));
    assert vs[k := vs[k]] == vs && ss[k := ss[k]] == ss;
    assert dir' == dir - {vs[k].base};
  }

  /** The base offsets of the first d segments. */
  ghost function DroppedBases(vs: seq<SegView>, d: nat): (bs: set<nat>)
    requires d <= |vs|
    ensures forall j :: 0 <= j < d ==> vs[j].base in bs
  {
    set j | 0 <= j < d :: vs[j].base
  }

  /** Deleting the files of one more dropped segment. */
  lemma DropBase(dir: Directory, vs: seq<SegView>, d: nat)
    requires d < |vs|
    ensures dir - DroppedBases(vs, d + 1) == (dir - DroppedBases(vs, d)) - {vs[d].base}
  {
    assert DroppedBases(vs, d + 1) == DroppedBases(vs, d) + {vs[d].base};
  }

  /** Of the first i segments, exactly the first d end at or below
      lowest + 1. */
  ghost predicate DroppedFirst(vs: seq<SegView>, lowest: nat, d: nat, i: nat)
    requires d <= i <= |vs|
  {
    && (forall j :: 0 <= j < d ==> Next(vs[j]) <= lowest + 1)
    && (d < i ==> Next(vs[d]) > lowest + 1)
  }

  /** A segment to drop after the first d ones are dropped: since segments
      end in ascending order, the one kept before it (if any) would have to
      end below it, so none was kept. */
  lemma DropStep(vs: seq<SegView>, lowest: nat, d: nat, i: nat)
    requires WellFormed(vs) && d <= i < |vs| && DroppedFirst(vs, lowest, d, i)
    requires Next(vs[i]) <= lowest + 1
    ensures d == i && DroppedFirst(vs, lowest, i + 1, i + 1)
  {
    NextOrdered(vs, d, i);
  }

  /** A segment kept after the first d ones are dropped. */
  lemma KeepStep(vs: seq<SegView>, lowest: nat, d: nat, i: nat)
    requires d <= i < |vs| && DroppedFirst(vs, lowest, d, i)
    requires Next(vs[i]) > lowest + 1
    ensures DroppedFirst(vs, lowest, d, i + 1)
  {
  }

  /** One step of `Log.Truncate(lowest)`: segment i is removed when its
      nextOffset is at most lowest + 1. */
  method TruncateVisit(segs: seq<Segment>, cfg: Config, ghost vs: seq<SegView>, ghost ss: seq<seq<byte>>,
                       ghost repr: set<object>, lowest: nat, i: nat, ghost dir: Directory)
    returns (dropped: bool, ghost dir': Directory)
    requires Family(segs, cfg, vs, ss, repr) && i < |segs|
    modifies segs[i].store
    ensures Family(segs, cfg, vs, ss, repr)
    ensures dropped <==> Next(vs[i]) <= lowest + 1
    ensures dir' == if dropped then dir - {vs[i].base} else dir
  {
    var s := segs[i];
    assert Opened(s, cfg, vs[i], ss[i]);
    dropped := s.nextOffset <= lowest + 1;
    dir' := dir;
    if dropped {
      ghost var removed;
      removed, dir' := RemoveSegment(segs, cfg, vs, ss, repr, i, dir);
    }
  }

  /** `Log.Truncate(lowest)` over a family: every segment whose nextOffset is
      at most lowest + 1 is removed, the others are kept in order. Since
      segments end in ascending order, what is removed is the first d. */
  method TruncateFamily(segs: seq<Segment>, cfg: Config, ghost vs: seq<SegView>, ghost ss: seq<seq<byte>>,
                        ghost repr: set<object>, lowest: nat, ghost dir: Directory)
    returns (kept: seq<Segment>, ghost d: nat, ghost dir': Directory)
    requires Family(segs, cfg, vs, ss, repr) && WellFormed(vs)
    modifies repr
    ensures Family(segs, cfg, vs, ss, repr) && Scanned(kept, segs, vs, lowest, d, |segs|)
    ensures d <= |vs| && dir' == dir - DroppedBases(vs, d)
  {
    kept, d, dir' := [], 0, dir;
    assert DroppedBases(vs, 0) == {};
    var i := 0;
    while i < |segs|
      invariant 0 <= i <= |segs|
      invariant Family(segs, cfg, vs, ss, repr) && Scanned(kept, segs, vs, lowest, d, i)
      invariant d <= i && dir' == dir - DroppedBases(vs, d)
    {
      assert Opened(segs[i], cfg, vs[i], ss[i]);
      kept, d, dir' := TruncateStep(segs, cfg, vs, ss, repr, lowest, i, kept, d, dir, dir');
      i := i + 1;
    }
  }

  /** After scanning the first i segments for `Truncate(lowest)`: the first d
      were dropped, and kept holds the others, in order. */
  ghost predicate Scanned(kept: seq<Segment>, segs: seq<Segment>, vs: seq<SegView>, lowest: nat, d: nat, i: nat)
  {
    && |segs| == |vs|
    && IsSlice(kept, segs, d, i)
    && DroppedFirst(vs, lowest, d, i)
  }

  /** A finished scan keeps the last |kept| segments, views and stores, and
      those views are the truncated log. */
  lemma ScannedAll(kept: seq<Segment>, segs: seq<Segment>, vs: seq<SegView>, ss: seq<seq<byte>>, lowest: nat, d: nat)
    requires WellFormed(vs) && |ss| == |vs| && Scanned(kept, segs, vs, lowest, d, |segs|)
    ensures d == |vs| - |kept|
    ensures Truncated(vs, lowest) == vs[d..] && kept == segs[d..] && ss[d..] == ss[|ss| - |kept|..]
  {
    TruncatedAt(vs, lowest, d);
  }

  /** Segment i is removed or added to the kept ones. */
  method TruncateStep(segs: seq<Segment>, cfg: Config, ghost vs: seq<SegView>, ghost ss: seq<seq<byte>>,
                      ghost repr: set<object>, lowest: nat, i: nat, kept: seq<Segment>, ghost d: nat,
                      ghost dir: Directory, ghost cur: Directory)
    returns (kept': seq<Segment>, ghost d': nat, ghost cur': Directory)
    requires Family(segs, cfg, vs, ss, repr) && WellFormed(vs) && i < |segs|
    requires Scanned(kept, segs, vs, lowest, d, i) && d <= i && cur == dir - DroppedBases(vs, d)
    modifies segs[i].store
    ensures Family(segs, cfg, vs, ss, repr) && Scanned(kept', segs, vs, lowest, d', i + 1)
    ensures d' <= i + 1 && cur' == dir - DroppedBases(vs, d')
  {
    var dropped;
    dropped, cur' := TruncateVisit(segs, cfg, vs, ss, repr, lowest, i, cur);
    if dropped {
      DropStep(vs, lowest, d, i);
      DropBase(dir, vs, i);
      kept', d' := kept, i + 1;
    } else {
      KeepStep(vs, lowest, d, i);
      SnocSlice(kept, segs, d, i);
      kept', d' := kept + [segs[i]], d;
    }
  }

  /** Reading segment k's whole store from position 0, as the replay stream
      does. */
  method ReadStore(segs: seq<Segment>, cfg: Config, ghost vs: seq<SegView>, ghost ss: seq<seq<byte>>,
                   ghost repr: set<object>, k: nat) returns (b: seq<byte>)
    requires Family(segs, cfg, vs, ss, repr) && k < |segs|
    modifies segs[k].store
    ensures Family(segs, cfg, vs, ss, repr)
    ensures b == ss[k]
  {
    var s := segs[k];
    assert Opened(s, cfg, vs[k], ss[k]);
    label L:
    var err;
    b, err := s.store.ReadAt(s.store.size, 0);
    assert s.store.Contents() == ss[k];
    FamilyUpdate@L(SegmentChange(segs, cfg, vs, ss, repr, k, vs[k], ss[k]));
    assert vs[k := vs[k]] == vs && ss[k := ss[k]] == ss;
  }

  /** The stream over the first i + 1 stores extends the one over the first
      i by store i. */
  lemma ConcatPrefix(ss: seq<seq<byte>>, i: nat)
    requires i < |ss|
    ensures Concat(ss[..i + 1]) == Concat(ss[..i]) + ss[i]
  {
    assert ss[..i + 1][..i] == ss[..i];
  }

  /** `Log.Reader()` over a family: every store's bytes from the start, in
      segment order. */
  method ReaderFamily(segs: seq<Segment>, cfg: Config, ghost vs: seq<SegView>, ghost ss: seq<seq<byte>>,
                      ghost repr: set<object>) returns (stream: seq<byte>)
    requires Family(segs, cfg, vs, ss, repr)
    modifies repr
    ensures Family(segs, cfg, vs, ss, repr)
    ensures stream == Concat(ss)
  {
    stream := [];
    var i := 0;
    while i < |segs|
      invariant 0 <= i <= |segs|
      invariant Family(segs, cfg, vs, ss, repr)
      invariant stream == Concat(ss[..i])
    {
      assert Opened(segs[i], cfg, vs[i], ss[i]);
      var b := ReadStore(segs, cfg, vs, ss, repr, i);
      ConcatPrefix(ss, i);
      stream := stream + b;
      i := i + 1;
    }
    assert ss[..i] == ss;
  }

  /** Segment k's `Close()`: what it leaves on disk holds its records. */
  method CloseSegment(segs: seq<Segment>, cfg: Config, ghost vs: seq<SegView>, ghost ss: seq<seq<byte>>,
                      ghost repr: set<object>, k: nat) returns (files: SegmentFiles)
    requires Family(segs, cfg, vs, ss, repr) && k < |segs|
    modifies segs[k].store
    ensures Family(segs, cfg, vs, ss, repr)
    ensures Persisted(files, vs[k].base, vs[k].records)
    ensures files.store == ss[k] && |files.index| <= cfg.maxIndexBytes
  {
    var s := segs[k];
    assert Opened(s, cfg, vs[k], ss[k]);
    label L:
    files := s.Close();
    FamilyUpdate@L(SegmentChange(segs, cfg, vs, ss, repr, k, vs[k], ss[k]));
    assert vs[k := vs[k]] == vs && ss[k := ss[k]] == ss;
  }

  /** The directory holds the closed files of the first i segments, each
      under its base offset, and nothing else. */
  ghost predicate ClosedUpTo(dir: Directory, cfg: Config, vs: seq<SegView>, ss: seq<seq<byte>>, i: nat)
    requires i <= |vs| == |ss|
  {
    && (forall j :: 0 <= j < i ==> vs[j].base in dir && dir[vs[j].base].store == ss[j])
    && (forall j :: 0 <= j < i ==> Persisted(dir[vs[j].base], vs[j].base, vs[j].records))
    && (forall b :: b in dir ==> |dir[b].index| <= cfg.maxIndexBytes)
    && (forall b :: b in dir ==> exists j :: 0 <= j < i && vs[j].base == b)
  }

  /** Closing segment i adds its files under its own base, which no earlier
      segment has. */
  lemma ClosedStep(dir: Directory, cfg: Config, vs: seq<SegView>, ss: seq<seq<byte>>, i: nat, files: SegmentFiles)
    requires WellFormed(vs) && i < |vs| == |ss| && ClosedUpTo(dir, cfg, vs, ss, i)
    requires Persisted(files, vs[i].base, vs[i].records)
    requires files.store == ss[i] && |files.index| <= cfg.maxIndexBytes
    ensures ClosedUpTo(dir[vs[i].base := files], cfg, vs, ss, i + 1)
  {
    var dir' := dir[vs[i].base := files];
    forall j | 0 <= j < i ensures dir'[vs[j].base] == dir[vs[j].base] {
      BasesIncreasing(vs, j, i);
    }
    forall j | 0 <= j < i + 1 ensures vs[j].base in dir' && dir'[vs[j].base].store == ss[j] {
      if j < i {
        assert dir'[vs[j].base] == dir[vs[j].base];
      }
    }
    forall j | 0 <= j < i + 1 ensures Persisted(dir'[vs[j].base], vs[j].base, vs[j].records) {
      if j < i {
        assert dir'[vs[j].base] == dir[vs[j].base];
      }
    }
    forall b | b in dir' ensures |dir'[b].index| <= cfg.maxIndexBytes {
      if b != vs[i].base {
        assert dir'[b] == dir[b];
      }
    }
    forall b | b in dir' ensures exists j :: 0 <= j < i + 1 && vs[j].base == b {
      if b != vs[i].base {
        assert b in dir;
      }
    }
  }

  /** Once every segment is closed, the directory holds exactly the log. */
  lemma ClosedAll(dir: Directory, cfg: Config, vs: seq<SegView>, ss: seq<seq<byte>>)
    requires WellFormed(vs) && |vs| == |ss| && ClosedUpTo(dir, cfg, vs, ss, |vs|)
    ensures DirectoryHolds(dir, vs)
    ensures forall j :: 0 <= j < |vs| ==> dir[vs[j].base].store == ss[j]
    ensures forall b :: b in dir ==> |dir[b].index| <= cfg.maxIndexBytes
  {
  }

  /** `Log.Close()` over a family: every segment is closed in order, and the
      directory then holds each one's files under its base offset. */
  method CloseFamily(segs: seq<Segment>, cfg: Config, ghost vs: seq<SegView>, ghost ss: seq<seq<byte>>,
                     ghost repr: set<object>) returns (dir: Directory)
    requires Family(segs, cfg, vs, ss, repr) && WellFormed(vs)
    modifies repr
    ensures Family(segs, cfg, vs, ss, repr)
    ensures DirectoryHolds(dir, vs)
    ensures forall j :: 0 <= j < |vs| ==> dir[vs[j].base].store == ss[j]
    ensures forall b :: b in dir ==> |dir[b].index| <= cfg.maxIndexBytes
  {
    dir := map[];
    var i := 0;
    while i < |segs|
      invariant 0 <= i <= |segs|
      invariant Family(segs, cfg, vs, ss, repr)
      invariant ClosedUpTo(dir, cfg, vs, ss, i)
    {
      var s := segs[i];
      assert Opened(s, cfg, vs[i], ss[i]);
      var files := CloseSegment(segs, cfg, vs, ss, repr, i);
      ClosedStep(dir, cfg, vs, ss, i, files);
      dir := dir[s.baseOffset := files];
      i := i + 1;
    }
    ClosedAll(dir, cfg, vs, ss);
  }

  /** `Log`: the segments in ascending base order, the last one active. */
  class Log {
    var segments: seq<Segment>
    const config: Config
    ghost var Views: seq<SegView>
    ghost var Stores: seq<seq<byte>>
    ghost var Repr: set<object>

    ghost predicate Valid()
      reads this, Repr
    {
      && this in Repr
      && 0 < config.maxStoreBytes && 0 < config.maxIndexBytes <= EntWidth * TWO32
      && Family(segments, config, Views, Stores, Repr - {this})
      && WellFormed(Views)
    }

    /** `NewLog(dir, c)`: zero limits take the default; the segments found in
        the directory are opened in ascending base order; an empty directory
        gets one segment at the configured initial offset. */
    constructor (dir: Directory, c: Config, ghost was: seq<SegView>)
      requires DirectoryHolds(dir, was)
      requires Defaulted(c).maxIndexBytes <= EntWidth * TWO32
      requires forall b :: b in dir ==> |dir[b].index| <= Defaulted(c).maxIndexBytes
      ensures Valid() && fresh(Repr) && config == Defaulted(c)
      ensures dir == map[] ==> Views == [SegView(c.initialOffset, [])] && Stores == [[]]
      ensures dir != map[] ==> Views == was && Stores == StoresOf(dir, was)
    {
      var cfg := Defaulted(c);
      var segs;
      ghost var vs, ss, repr;
      segs, vs, ss, repr := OpenLog(dir, cfg, was);
      segments, config := segs, cfg;
      Views, Stores := vs, ss;
      Repr := {this} + repr;
      new;
      assert Repr - {this} == repr;
    }

    /** `LowestOffset()`: the first segment's base. */
    method LowestOffset() returns (off: nat)
      requires Valid() && |Views| > 0
      ensures off == Lowest(Views)
    {
      assert Opened(segments[0], config, Views[0], Stores[0]);
      off := segments[0].baseOffset;
    }

    /** `HighestOffset()`: the active segment's nextOffset - 1, as a uint64. */
    method HighestOffset() returns (off: nat)
      requires Valid() && |Views| > 0
      ensures off == Highest(Views)
    {
      var n := |segments| - 1;
      assert Opened(segments[n], config, Views[n], Stores[n]);
      var next := segments[n].nextOffset;
      off := if next == 0 then TWO64 - 1 else next - 1;
    }

    /** `Read(off)`: the first segment whose range holds off answers;
        otherwise the offset is out of range. */
    method Read(off: nat) returns (r: Result<Record>)
      requires Valid() && off < TWO64
      modifies Repr
      ensures Valid() && Repr == old(Repr) && segments == old(segments)
      ensures Views == old(Views) && Stores == old(Stores)
      ensures r == LogSpec.Lookup(Views, off)
    {
      r := ReadFamily(segments, config, Views, Stores, Repr - {this}, off);
    }

    /** Makes segs, with the views vs and the stores ss, the log's state. */
    method Install(segs: seq<Segment>, ghost vs: seq<SegView>, ghost ss: seq<seq<byte>>, ghost repr: set<object>)
      requires 0 < config.maxStoreBytes && 0 < config.maxIndexBytes <= EntWidth * TWO32
      requires Family(segs, config, vs, ss, repr) && this !in repr && WellFormed(vs)
      modifies this
      ensures Valid() && segments == segs && Views == vs && Stores == ss && Repr == repr + {this}
    {
      segments, Views, Stores, Repr := segs, vs, ss, repr + {this};
      assert Repr - {this} == repr;
    }

    /** `Append(record)`: the active segment appends the record; if it is
        then maxed, a new segment based at the next offset becomes active. */
    method Append(record: Record) returns (r: Result<nat>)
      requires Valid() && |Views| > 0
      requires NextOffset(Views) < TWO64 && 8 + |record.value| < TWO64
      requires |Stores[|Stores| - 1]| < TWO64
      modifies Repr
      ensures Valid() && fresh(Repr - old(Repr))
      ensures Step(Views, Stores, r) == AppendStep(config, old(Views), old(Stores), record.value)
    {
      var segs;
      ghost var vs, ss, repr;
      r, segs, vs, ss, repr := AppendFamily(segments, config, Views, Stores, Repr - {this}, record);
      AppendStepWellFormed(config, old(Views), old(Stores), record.value);
      Install(segs, vs, ss, repr);
    }

    /** `Truncate(lowest)`: every segment whose nextOffset is at most
        lowest + 1 is removed, and its files are deleted from the log's
        directory dir; the others stay, in order. */
    method Truncate(lowest: nat, ghost dir: Directory) returns (ghost dir': Directory)
      requires Valid() && lowest < TWO64 - 1
      modifies Repr
      ensures Valid() && Repr == old(Repr)
      ensures Views == Truncated(old(Views), lowest)
      ensures |segments| == |Views| && segments == old(segments)[|old(segments)| - |segments|..]
      ensures Stores == old(Stores)[|old(Stores)| - |Stores|..]
      ensures dir' == dir - DroppedBases(old(Views), |old(Views)| - |Views|)
    {
      var kept;
      ghost var d;
      kept, d, dir' := TruncateFamily(segments, config, Views, Stores, Repr - {this}, lowest, dir);
      ScannedAll(kept, segments, Views, Stores, lowest, d);
      WellFormedSuffix(Views, d);
      FamilySuffix(segments, config, Views, Stores, Repr - {this}, d);
      Install(kept, Views[d..], Stores[d..], Repr - {this});
    }

    /** `Reader()`: the raw bytes of every store from its start, one store
        after another in segment order. */
    method Reader() returns (stream: seq<byte>)
      requires Valid()
      modifies Repr
      ensures Valid() && Repr == old(Repr) && segments == old(segments)
      ensures Views == old(Views) && Stores == old(Stores)
      ensures stream == Concat(Stores)
    {
      stream := ReaderFamily(segments, config, Views, Stores, Repr - {this});
    }

    /** `Close()`: closes every segment in order. The directory it leaves
        holds each segment's files under its base offset, describing exactly
        the records the log holds. */
    method Close() returns (dir: Directory)
      requires Valid()
      modifies Repr
      ensures Valid() && Repr == old(Repr) && segments == old(segments)
      ensures Views == old(Views) && Stores == old(Stores)
      ensures DirectoryHolds(dir, Views)
      ensures forall j :: 0 <= j < |Views| ==> dir[Views[j].base].store == Stores[j]
      ensures forall b :: b in dir ==> |dir[b].index| <= config.maxIndexBytes
    {
      dir := CloseFamily(segments, config, Views, Stores, Repr - {this});
    }
  }
}
