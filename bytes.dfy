/** Bytes and the big-endian unsigned integer encoding used by every on-disk
    format of the commit log (`binary.BigEndian`, called `enc` in the source). */
module Bytes {

  type byte = x: int | 0 <= x < 256

  const TWO32: nat := 0x1_0000_0000
  const TWO63: nat := 0x8000_0000_0000_0000
  const TWO64: nat := 0x1_0000_0000_0000_0000

  /** 256 to the power w: the number of values w bytes can hold. */
  function Pow256(w: nat): (r: nat)
    ensures r > 0
  {
    if w == 0 then 1 else 256 * Pow256(w - 1)
  }

  lemma Pow256Values()
    ensures Pow256(4) == TWO32 && Pow256(8) == TWO64
  {
    assert Pow256(4) == 256 * 256 * 256 * 256 * Pow256(0);
    assert Pow256(8) == 256 * 256 * 256 * 256 * Pow256(4);
  }

  /** The w-byte big-endian representation of n, most significant byte first. */
  function EncodeUint(n: nat, w: nat): (r: seq<byte>)
    requires n < Pow256(w)
    ensures |r| == w
  {
    if w == 0 then [] else EncodeUint(n / 256, w - 1) + [n % 256]
  }

  /** The unsigned integer a big-endian byte sequence denotes. */
  function DecodeUint(b: seq<byte>): nat
  {
    if b == [] then 0 else DecodeUint(b[..|b| - 1]) * 256 + b[|b| - 1]
  }

  lemma {:induction false} DecodeBound(b: seq<byte>)
    ensures DecodeUint(b) < Pow256(|b|)
  {
    if b != [] {
      DecodeBound(b[..|b| - 1]);
    }
  }

  /** Decoding undoes encoding. */
  lemma {:induction false} DecodeEncode(n: nat, w: nat)
    requires n < Pow256(w)
    ensures DecodeUint(EncodeUint(n, w)) == n
  {
    if w > 0 {
      var e := EncodeUint(n, w);
      assert e[..w - 1] == EncodeUint(n / 256, w - 1);
      DecodeEncode(n / 256, w - 1);
    }
  }

  /** Encoding undoes decoding: a byte sequence is the encoding of its value. */
  lemma {:induction false} EncodeDecode(b: seq<byte>)
    ensures DecodeUint(b) < Pow256(|b|) && EncodeUint(DecodeUint(b), |b|) == b
  {
    DecodeBound(b);
    if b != [] {
      var init := b[..|b| - 1];
      EncodeDecode(init);
      assert DecodeUint(b) / 256 == DecodeUint(init);
      assert DecodeUint(b) % 256 == b[|b| - 1];
      assert b == init + [b[|b| - 1]];
    }
  }

  /** `enc.PutUint64`: eight bytes, big-endian. */
  function PutUint64(n: nat): (r: seq<byte>)
    requires n < TWO64
    ensures |r| == 8
  {
    Pow256Values();
    EncodeUint(n, 8)
  }

  /** `enc.Uint64`. */
  function Uint64(b: seq<byte>): nat
    requires |b| == 8
  {
    DecodeUint(b)
  }

  /** `enc.PutUint32`: four bytes, big-endian. */
  function PutUint32(n: nat): (r: seq<byte>)
    requires n < TWO32
    ensures |r| == 4
  {
    Pow256Values();
    EncodeUint(n, 4)
  }

  /** `enc.Uint32`. */
  function Uint32(b: seq<byte>): nat
    requires |b| == 4
  {
    DecodeUint(b)
  }

  lemma Uint64RoundTrip(n: nat)
    requires n < TWO64
    ensures Uint64(PutUint64(n)) == n
  {
    Pow256Values();
    DecodeEncode(n, 8);
  }

  lemma Uint32RoundTrip(n: nat)
    requires n < TWO32
    ensures Uint32(PutUint32(n)) == n
  {
    Pow256Values();
    DecodeEncode(n, 4);
  }

  lemma Uint64Bound(b: seq<byte>)
    requires |b| == 8
    ensures Uint64(b) < TWO64 && PutUint64(Uint64(b)) == b
  {
    Pow256Values();
    EncodeDecode(b);
  }

  lemma Uint32Bound(b: seq<byte>)
    requires |b| == 4
    ensures Uint32(b) < TWO32 && PutUint32(Uint32(b)) == b
  {
    Pow256Values();
    EncodeDecode(b);
  }
}
