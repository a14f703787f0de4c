/** The store: an append-only file of length-prefixed entries, written through
    a buffer. Each entry is an eight-byte big-endian length followed by that
    many payload bytes; a position is the byte offset of an entry's length. */
module StoreFile {
  import opened Bytes
  import opened Records

  /** `lenWidth`: the width of an entry's length prefix. */
  const LenWidth: nat := 8

  /** The bytes one append writes for payload p. */
  function Frame(p: seq<byte>): (r: seq<byte>)
    requires |p| < TWO64
    ensures |r| == LenWidth + |p| && r[LenWidth..] == p
  {
    PutUint64(|p|) + p
  }

  /** Every payload in ps has a length that fits the prefix. */
  ghost predicate Frameable(ps: seq<seq<byte>>)
  {
    forall i :: 0 <= i < |ps| ==> |ps[i]| < TWO64
  }

  /** The contents of a store after appending ps, in order, to an empty one. */
  function Framed(ps: seq<seq<byte>>): (r: seq<byte>)
    requires Frameable(ps)
  {
    if ps == [] then [] else Framed(ps[..|ps| - 1]) + Frame(ps[|ps| - 1])
  }

  /** The position the store returns for the k-th append. */
  function Position(ps: seq<seq<byte>>, k: nat): nat
    requires Frameable(ps) && k <= |ps|
  {
    |Framed(ps[..k])|
  }

  /** What `Read(pos)` returns from the given file contents: the payload whose
      length prefix starts at pos, or EOF if the prefix or the payload runs past
      the end of the file. */
  function EntryAt(bytes: seq<byte>, pos: nat): Result<seq<byte>>
  {
    if pos + LenWidth > |bytes| then Failure(EOF)
    else
      var n := Uint64(bytes[pos..pos + LenWidth]);
      if pos + LenWidth + n > |bytes| then Failure(EOF)
      else Success(bytes[pos + LenWidth..pos + LenWidth + n])
  }

  /** Appending bytes never changes what an existing entry reads as. */
  lemma EntryAtExtend(bytes: seq<byte>, more: seq<byte>, pos: nat)
    requires EntryAt(bytes, pos).Success?
    ensures EntryAt(bytes + more, pos) == EntryAt(bytes, pos)
  {
    var all := bytes + more;
    assert all[pos..pos + LenWidth] == bytes[pos..pos + LenWidth];
    var n := Uint64(bytes[pos..pos + LenWidth]);
    assert all[pos + LenWidth..pos + LenWidth + n] == bytes[pos + LenWidth..pos + LenWidth + n];
  }

  /** The entry an append writes reads back as its payload. */
  lemma EntryAtFrame(bytes: seq<byte>, p: seq<byte>)
    requires |p| < TWO64
    ensures EntryAt(bytes + Frame(p), |bytes|) == Success(p)
  {
    var all := bytes + Frame(p);
    assert all[|bytes|..|bytes| + LenWidth] == PutUint64(|p|);
    Uint64RoundTrip(|p|);
    assert all[|bytes| + LenWidth..|bytes| + LenWidth + |p|] == p;
  }

  lemma {:induction false} FramedPrefix(ps: seq<seq<byte>>, k: nat)
    requires Frameable(ps) && k <= |ps|
    ensures Frameable(ps[..k])
    ensures Framed(ps[..k]) <= Framed(ps)
    decreases |ps|
  {
    if k < |ps| {
      var init := ps[..|ps| - 1];
      assert init[..k] == ps[..k];
      FramedPrefix(init, k);
    } else {
      assert ps[..k] == ps;
    }
  }

  lemma {:induction false} FramedConcat(a: seq<seq<byte>>, b: seq<seq<byte>>)
    requires Frameable(a) && Frameable(b)
    ensures Frameable(a + b) && Framed(a + b) == Framed(a) + Framed(b)
    decreases |b|
  {
    if b == [] {
      assert a + b == a;
    } else {
      var init := b[..|b| - 1];
      assert (a + b)[..|a + b| - 1] == a + init;
      FramedConcat(a, init);
    }
  }

  /** Entry k starts where entry k-1 ends: at the sum of the earlier widths. */
  lemma PositionNext(ps: seq<seq<byte>>, k: nat)
    requires Frameable(ps) && k < |ps|
    ensures Position(ps, k + 1) == Position(ps, k) + LenWidth + |ps[k]|
  {
    FramedStep(ps, k);
  }

  /** The store test's arithmetic: when every payload has length L, the k-th
      append (from 0) starts at k * (L + lenWidth), so the i-th append (from 1)
      returns n and pos with n + pos == i * (L + lenWidth). */
  lemma {:induction false} UniformPositions(ps: seq<seq<byte>>, L: nat, k: nat)
    requires Frameable(ps) && k <= |ps|
    requires forall i :: 0 <= i < |ps| ==> |ps[i]| == L
    ensures Position(ps, k) == k * (LenWidth + L)
  {
    if k > 0 {
      UniformPositions(ps, L, k - 1);
      PositionNext(ps, k - 1);
    } else {
      assert ps[..0] == [];
    }
  }

  /** Framing round trip: reading at the k-th returned position gives the
      k-th payload back. */
  lemma FramedStep(ps: seq<seq<byte>>, k: nat)
    requires Frameable(ps) && k < |ps|
    ensures Frameable(ps[..k]) && Frameable(ps[..k + 1])
    ensures Framed(ps[..k + 1]) == Framed(ps[..k]) + Frame(ps[k])
  {
    var pre := ps[..k + 1];
    assert pre[..|pre| - 1] == ps[..k];
  }

  lemma FramedRead(ps: seq<seq<byte>>, k: nat)
    requires Frameable(ps) && k < |ps|
    ensures EntryAt(Framed(ps), Position(ps, k)) == Success(ps[k])
  {
    FramedStep(ps, k);
    var pre := Framed(ps[..k + 1]);
    EntryAtFrame(Framed(ps[..k]), ps[k]);
    FramedPrefix(ps, k + 1);
    PrefixExtend(pre, Framed(ps), Position(ps, k));
  }

  /** An entry read from a prefix of the bytes reads the same from all of them. */
  lemma PrefixExtend(pre: seq<byte>, all: seq<byte>, pos: nat)
    requires pre <= all && EntryAt(pre, pos).Success?
    ensures EntryAt(all, pos) == EntryAt(pre, pos)
  {
    assert all == pre + all[|pre|..];
    EntryAtExtend(pre, all[|pre|..], pos);
  }

  /** The raw layout the store test reads with ReadAt: at the k-th position
      lie lenWidth bytes that decode to the payload's length, the payload
      follows, and the next entry starts right after it. */
  lemma FramedLayout(ps: seq<seq<byte>>, k: nat)
    requires Frameable(ps) && k < |ps|
    ensures Position(ps, k + 1) == Position(ps, k) + LenWidth + |ps[k]| <= |Framed(ps)|
    ensures Uint64(Framed(ps)[Position(ps, k)..Position(ps, k) + LenWidth]) == |ps[k]|
    ensures Framed(ps)[Position(ps, k) + LenWidth..Position(ps, k + 1)] == ps[k]
  {
    PositionNext(ps, k);
    FramedRead(ps, k);
    EntryAtParts(Framed(ps), Position(ps, k), ps[k]);
  }

  /** What a successful read at pos tells about the bytes there. */
  lemma EntryAtParts(bytes: seq<byte>, pos: nat, p: seq<byte>)
    requires EntryAt(bytes, pos) == Success(p)
    ensures pos + LenWidth + |p| <= |bytes|
    ensures Uint64(bytes[pos..pos + LenWidth]) == |p|
    ensures bytes[pos + LenWidth..pos + LenWidth + |p|] == p
  {
  }

  /** Decodes a whole stream of entries, as a receiver of `Log.Reader` does;
      None if the stream ends inside an entry. */
  function Unframe(b: seq<byte>): Option<seq<seq<byte>>>
    decreases |b|
  {
    if b == [] then Some([])
    else if |b| < LenWidth then None
    else
      var n := Uint64(b[..LenWidth]);
      if LenWidth + n > |b| then None
      else match Unframe(b[LenWidth + n..])
        case None => None
        case Some(rest) => Some([b[LenWidth..LenWidth + n]] + rest)
  }

  /** Replaying a store's bytes gives back every payload, in append order. */
  lemma {:induction false} UnframeFramed(ps: seq<seq<byte>>)
    requires Frameable(ps)
    ensures Unframe(Framed(ps)) == Some(ps)
    decreases |ps|
  {
    if ps != [] {
      var tail := ps[1..];
      assert ps == [ps[0]] + tail;
      FramedConcat([ps[0]], tail);
      var single := [ps[0]];
      assert single[..0] == [];
      var b := Framed(ps);
      assert b == Frame(ps[0]) + Framed(tail);
      Uint64RoundTrip(|ps[0]|);
      assert b[..LenWidth] == PutUint64(|ps[0]|);
      assert b[LenWidth..LenWidth + |ps[0]|] == ps[0];
      assert b[LenWidth + |ps[0]|..] == Framed(tail);
      UnframeFramed(tail);
    }
  }

  /** The concatenation of two stores' bytes replays as the payloads of the
      first followed by those of the second. */
  lemma UnframeConcat(a: seq<seq<byte>>, b: seq<seq<byte>>)
    requires Frameable(a) && Frameable(b)
    ensures Unframe(Framed(a) + Framed(b)) == Some(a + b)
  {
    FramedConcat(a, b);
    UnframeFramed(a + b);
  }

  /** `store`: the file's bytes, the bytes still held by its buffered writer,
      and `size`, the position the next append will return. */
  class Store {
    var file: seq<byte>
    var buf: seq<byte>
    var size: nat

    ghost predicate Valid()
      reads this
    {
      size == |file| + |buf|
    }

    /** What reads observe: the file followed by the buffered bytes. */
    function Contents(): seq<byte>
      reads this
    {
      file + buf
    }

    /** `NewStore(f)`: a store over an existing (possibly empty) file, whose
        size becomes the position of the next append. */
    constructor (f: seq<byte>)
      ensures Valid() && file == f && buf == [] && size == |f|
    {
      file, buf, size := f, [], |f|;
    }

    /** `Append(p)`: buffers the length prefix and the payload; returns the
        bytes written and the position where the entry starts. */
    method Append(p: seq<byte>) returns (n: nat, pos: nat)
      requires Valid() && |p| < TWO64
      modifies this
      ensures Valid() && file == old(file)
      ensures n == LenWidth + |p| && pos == old(size)
      ensures Contents() == old(Contents()) + Frame(p)
    {
      var framed := Frame(p);
      buf := buf + framed;
      pos := size;
      n := |framed|;
      size := size + n;
    }

    /** Writes the buffered bytes to the file. */
    method Flush()
      requires Valid()
      modifies this
      ensures Valid() && buf == [] && file == old(Contents()) && size == old(size)
    {
      file := file + buf;
      buf := [];
    }

    /** `Read(pos)`: flushes, then decodes the entry at pos. */
    method Read(pos: nat) returns (r: Result<seq<byte>>)
      requires Valid()
      modifies this
      ensures Valid() && buf == [] && file == old(Contents()) && size == old(size)
      ensures r == EntryAt(old(Contents()), pos)
    {
      Flush();
      if pos + LenWidth > |file| {
        return Failure(EOF);
      }
      var n := Uint64(file[pos..pos + LenWidth]);
      if pos + LenWidth + n > |file| {
        return Failure(EOF);
      }
      r := Success(file[pos + LenWidth..pos + LenWidth + n]);
    }

    /** `ReadAt(b, off)`: flushes, then reads up to `length` raw bytes at off,
        with the semantics of a positional file read: fewer bytes and EOF at
        the end of the file, an error for a negative offset. */
    method ReadAt(length: nat, off: int) returns (b: seq<byte>, err: Option<Error>)
      requires Valid()
      modifies this
      ensures Valid() && buf == [] && file == old(Contents()) && size == old(size)
      ensures off < 0 ==> b == [] && err == Some(NegativeOffset)
      ensures 0 <= off ==> b == old(Contents())[Min(off, size)..Min(off + length, size)]
      ensures 0 <= off ==> (err.None? <==> |b| == length) && (err.Some? ==> err == Some(EOF))
    {
      Flush();
      if off < 0 {
        return [], Some(NegativeOffset);
      }
      b := file[Min(off, size)..Min(off + length, size)];
      err := if |b| < length then Some(EOF) else None;
    }

    /** `Close()`: flushes the buffered bytes into the file. */
    method Close()
      requires Valid()
      modifies this
      ensures Valid() && buf == [] && file == old(Contents()) && size == old(size)
      ensures old(buf) != [] ==> |file| > |old(file)|
    {
      Flush();
    }
  }

  function Min(a: int, b: int): int
  {
    if a <= b then a else b
  }
}
