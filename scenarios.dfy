/** The log's test scenarios, proved against the model: a fresh log in an empty
    directory whose stores are limited to 32 bytes, as the tests configure
    it. */
module Scenarios {
  import opened Bytes
  import opened Records
  import opened StoreFile
  import IndexFile
  import opened LogSpec
  import opened Segments
  import opened CommitLog

  /** The bytes of "hello world". */
  const HelloWorld: seq<byte> := [104, 101, 108, 108, 111, 32, 119, 111, 114, 108, 100]

  /** `c.Segment.MaxStoreBytes = 32`, the other fields left at zero. */
  const TestConfig: Config := Config(32, 0, 0)

  /** `testOutOfRange`: reading offset 1 of a fresh log fails with an
      out-of-range error naming offset 1. */
  method OutOfRange() returns (r: Result<Record>)
    ensures r == Failure(OffsetOutOfRange(1))
  {
    var l := new Log(map[], TestConfig, []);
    r := l.Read(1);
  }

  /** `testAppendRead` and `testReader`: the first append to a fresh log gets
      offset 0, reading offset 0 returns the record, and the replay stream
      starts with the record's length prefix, after which the record
      decodes. */
  method AppendReadReplay(value: seq<byte>) returns (off: Result<nat>, r: Result<Record>, stream: seq<byte>)
    requires 8 + |value| < TWO64
    ensures off == Success(0)
    ensures r == Success(Record(value, 0))
    ensures |stream| >= LenWidth && Uint64(stream[..LenWidth]) == 8 + |value|
    ensures Unmarshal(stream[LenWidth..]) == Success(Record(value, 0))
  {
    var l := new Log(map[], TestConfig, []);
    assert l.Views == [SegView(0, [])] && l.Stores == [[]];
    FreshAppend(l.config, value);
    off := l.Append(Record(value, 0));
    r := l.Read(0);
    stream := l.Reader();
    UnmarshalMarshal(Record(value, 0));
    Uint64RoundTrip(|Marshal(Record(value, 0))|);
  }

  /** The first append to an empty segment based at 0, as a value: it gets
      offset 0, reads back, and the replay stream is exactly its frame. */
  lemma FreshAppend(c: Config, value: seq<byte>)
    requires 8 + |value| < TWO64 && IndexFile.EntWidth <= c.maxIndexBytes
    ensures var st := AppendStep(c, [SegView(0, [])], [[]], value);
      && st.result == Success(0)
      && Lookup(st.views, 0) == Success(Record(value, 0))
      && Concat(st.stores) == Frame(Marshal(Record(value, 0)))
  {
    var vs: seq<SegView>, ss: seq<seq<byte>> := [SegView(0, [])], [[]];
    AppendStepSpec(c, vs, ss, value);
    AppendThenRead(c, vs, ss, value, 0);
    assert Concat(ss) == [] by {
      assert ss[..0] == [];
    }
  }

  /** The configuration `NewLog` makes of the tests' one. */
  lemma TestDefaults()
    ensures Defaulted(TestConfig) == Config(32, DefaultMaxBytes, 0)
  {
  }

  /** Record off of the scenarios: "hello world" at offset off. */
  function Hello(off: nat): (r: Record)
    ensures r.value == HelloWorld && r.offset == off
  {
    Record(HelloWorld, off)
  }

  /** The segments after three appends of "hello world" under the model's
      record encoding. */
  const ThreeViews: seq<SegView> := [SegView(0, [Hello(0), Hello(1)]), SegView(2, [Hello(2)])]

  /** Under the model's record encoding a framed "hello world" record takes
      27 bytes: 8 of length, 8 of offset and the 11 of the value. */
  lemma HelloFrame(off: nat)
    requires off < TWO64
    ensures |Frame(Marshal(Hello(off)))| == 27
  {
  }

  /** Under the model's record encoding the first append fills 27 of the 32
      store bytes: no rollover. */
  lemma FirstAppend()
    ensures var st := AppendStep(Defaulted(TestConfig), [SegView(0, [])], [[]], HelloWorld);
      st.result == Success(0) && st.views == [SegView(0, [Hello(0)])] && |st.stores| == 1 && |st.stores[0]| == 27
  {
    TestDefaults();
    HelloFrame(0);
    var F := Frame(Marshal(Hello(0)));
    var e: seq<seq<byte>> := [[]];
    assert [SegView(0, [])][..0] == [] && e[..0] == [];
    assert AppendBytes([[]], F) == [[] + F];
    assert [] + [Hello(0)] == [Hello(0)];
    assert AppendRecord([SegView(0, [])], HelloWorld) == [SegView(0, [Hello(0)])];
  }

  /** Under the model's record encoding the second append brings the store
      to 54 bytes, past 32: the segment is maxed and a segment based at 2
      becomes active. */
  lemma SecondAppend(ss: seq<seq<byte>>)
    requires |ss| == 1 && |ss[0]| == 27
    ensures var st := AppendStep(Defaulted(TestConfig), [SegView(0, [Hello(0)])], ss, HelloWorld);
      && st.result == Success(1) && st.views == [SegView(0, [Hello(0), Hello(1)]), SegView(2, [])]
      && |st.stores| == 2 && |st.stores[1]| == 0
  {
    TestDefaults();
    HelloFrame(1);
    var F := Frame(Marshal(Hello(1)));
    assert [SegView(0, [Hello(0)])][..0] == [] && ss[..0] == [];
    assert AppendBytes(ss, F) == [ss[0] + F];
    assert [Hello(0)] + [Hello(1)] == [Hello(0), Hello(1)];
    var vs' := AppendRecord([SegView(0, [Hello(0)])], HelloWorld);
    assert vs' == [SegView(0, [Hello(0), Hello(1)])];
    assert Roll(vs') == [SegView(0, [Hello(0), Hello(1)]), SegView(2, [])];
  }

  /** The third append goes to the new segment, which stays below the limit. */
  lemma ThirdAppend(ss: seq<seq<byte>>)
    requires |ss| == 2 && |ss[1]| == 0
    ensures var st := AppendStep(Defaulted(TestConfig), [SegView(0, [Hello(0), Hello(1)]), SegView(2, [])], ss, HelloWorld);
      && st.result == Success(2) && st.views == ThreeViews && |st.stores| == 2
  {
    TestDefaults();
    HelloFrame(2);
    var F := Frame(Marshal(Hello(2)));
    var vs := [SegView(0, [Hello(0), Hello(1)]), SegView(2, [])];
    assert vs[..1] == [SegView(0, [Hello(0), Hello(1)])];
    assert AppendBytes(ss, F) == ss[..1] + [ss[1] + F];
    assert [] + [Hello(2)] == [Hello(2)];
    assert AppendRecord(vs, HelloWorld) == ThreeViews;
  }

  /** `Truncate(1)` removes the first segment, whose nextOffset 2 is at most
      lowest + 1, and keeps the second. */
  lemma TruncateOne()
    ensures Truncated(ThreeViews, 1) == [SegView(2, [Hello(2)])]
  {
    assert ThreeViews[1..] == [SegView(2, [Hello(2)])];
    assert ThreeViews[1..][1..] == [];
  }

  /** After the truncation offset 0 is out of range and offset 2 is read. */
  lemma ReadAfterTruncate()
    ensures Lookup([SegView(2, [Hello(2)])], 0) == Failure(OffsetOutOfRange(0))
    ensures Lookup([SegView(2, [Hello(2)])], 2) == Success(Hello(2))
  {
    assert [SegView(2, [Hello(2)])][1..] == [];
  }

  /** A fresh log of the tests' configuration after three appends of
      "hello world", laid out under the model's record encoding. */
  method ThreeAppends() returns (l: Log)
    ensures l.Valid() && fresh(l.Repr) && l.config == Defaulted(TestConfig) && l.Views == ThreeViews && |l.Stores| == 2
  {
    l := new Log(map[], TestConfig, []);
    FirstAppend();
    var r := l.Append(Hello(0));
    assert fresh(l.Repr);
    SecondAppend(l.Stores);
    r := l.Append(Hello(0));
    assert fresh(l.Repr);
    ThirdAppend(l.Stores);
    r := l.Append(Hello(0));
  }

  /** `testTruncate`: after three appends of "hello world" the first segment
      holds offsets 0 and 1 and is maxed; `Truncate(1)` removes it and
      deletes its files from the log's directory, so reading offset 0 fails
      while offset 2 is still read. */
  method TruncateThree(ghost dir: Directory) returns (r0: Result<Record>, r2: Result<Record>, ghost dir': Directory)
    ensures r0 == Failure(OffsetOutOfRange(0))
    ensures r2 == Success(Hello(2))
    ensures dir' == dir - {0}
  {
    var l := ThreeAppends();
    TruncateOne();
    dir' := l.Truncate(1, dir);
    assert DroppedBases(ThreeViews, 1) == {0};
    ReadAfterTruncate();
    r0 := l.Read(0);
    r2 := l.Read(2);
  }

  /** `testInitExisting`: after three appends and `Close`, the lowest and
      highest offsets are 0 and 2, and a log opened over the directory
      `Close` leaves reports the same. */
  method InitExisting() returns (lo: nat, hi: nat, lo': nat, hi': nat)
    ensures lo == 0 && hi == 2 && lo' == 0 && hi' == 2
  {
    var l := ThreeAppends();
    var dir := l.Close();
    lo, hi := Offsets(l);
    var n := Reopen(l, dir);
    lo', hi' := Offsets(n);
  }

  /** The lowest and highest offsets of a log holding the three records. */
  method Offsets(l: Log) returns (lo: nat, hi: nat)
    requires l.Valid() && l.Views == ThreeViews
    ensures lo == 0 && hi == 2
  {
    lo := l.LowestOffset();
    hi := l.HighestOffset();
  }

  /** `NewLog(l.Dir, l.Config)` over the directory a log's `Close` left: the
      new log holds the same segments and stores. */
  method Reopen(l: Log, dir: Directory) returns (n: Log)
    requires l.Valid() && |l.Views| > 0 && DirectoryHolds(dir, l.Views)
    requires forall j :: 0 <= j < |l.Views| ==> dir[l.Views[j].base].store == l.Stores[j]
    requires forall b :: b in dir ==> |dir[b].index| <= l.config.maxIndexBytes
    ensures n.Valid() && n.config == l.config && n.Views == l.Views && n.Stores == l.Stores
  {
    assert dir != map[] by {
      assert l.Views[0].base in dir;
    }
    n := new Log(dir, l.config, l.Views);
    assert n.Stores == l.Stores;
  }
}
