/** Bytes and the big-endian integer fields that `struct.pack` / `struct.unpack`
    produce and read with the network-order formats `!B`, `!H`, `!I` and `!i`. */
module Bytes {

  type byte = b: int | 0 <= b < 256

  /** 256^w: the number of distinct values of a w-byte field. */
  function Pow256(w: nat): (r: nat)
    ensures r >= 1
  {
    if w == 0 then 1 else 256 * Pow256(w - 1)
  }

  const UINT16_LIMIT: nat := 0x1_0000
  const UINT32_LIMIT: nat := 0x1_0000_0000
  const INT32_MIN: int := -0x8000_0000
  const INT32_LIMIT: int := 0x8000_0000

  lemma Pow256Widths()
    ensures Pow256(2) == UINT16_LIMIT && Pow256(4) == UINT32_LIMIT
  {
  }

  /** The unsigned big-endian value of a byte string. */
  function BigEndian(s: seq<byte>): (r: nat)
    ensures r < Pow256(|s|)
  {
    if s == [] then 0
    else
      var hi := BigEndian(s[..|s| - 1]);
      assert hi <= Pow256(|s| - 1) - 1;
      hi * 256 + s[|s| - 1]
  }

  /** The value of a 4-byte field, digit by digit. */
  lemma BigEndian4(s: seq<byte>)
    requires |s| == 4
    ensures BigEndian(s) == ((s[0] as int * 256 + s[1]) * 256 + s[2]) * 256 + s[3]
  {
    var a := s[..3];
    var b := a[..2];
    var c := b[..1];
    assert c[..0] == [];
    assert BigEndian(c) == s[0];
    assert BigEndian(b) == s[0] as int * 256 + s[1];
    assert BigEndian(a) == (s[0] as int * 256 + s[1]) * 256 + s[2];
  }

  /** The w-byte big-endian encoding of n, the inverse of BigEndian. */
  function ToBigEndian(n: nat, w: nat): (r: seq<byte>)
    requires n < Pow256(w)
    ensures |r| == w && BigEndian(r) == n
  {
    if w == 0 then []
    else
      var hi := ToBigEndian(n / 256, w - 1);
      var r := hi + [n % 256];
      assert r[..|r| - 1] == hi;
      r
  }

  /** A byte string is determined by its width and its big-endian value. */
  lemma {:induction false} ToBigEndianOfBigEndian(s: seq<byte>)
    ensures ToBigEndian(BigEndian(s), |s|) == s
  {
    if s != [] {
      var init := s[..|s| - 1];
      ToBigEndianOfBigEndian(init);
      var n := BigEndian(s);
      assert n / 256 == BigEndian(init) && n % 256 == s[|s| - 1];
      assert s == init + [s[|s| - 1]];
    }
  }

  /** Zero packs to all-zero bytes. */
  lemma {:induction false} ToBigEndianZero(w: nat)
    ensures forall i :: 0 <= i < w ==> ToBigEndian(0, w)[i] == 0
  {
    if w > 0 {
      ToBigEndianZero(w - 1);
      assert ToBigEndian(0, w) == ToBigEndian(0, w - 1) + [0];
    }
  }

  /** The value of a 4-byte two's-complement big-endian field (`!i`). */
  function SignedBigEndian32(s: seq<byte>): (r: int)
    requires |s| == 4
    ensures INT32_MIN <= r < INT32_LIMIT
    ensures r % UINT32_LIMIT == BigEndian(s)
  {
    Pow256Widths();
    var u := BigEndian(s);
    if u < INT32_LIMIT then u else u - UINT32_LIMIT
  }

  /** The 4-byte two's-complement big-endian encoding of v. */
  function ToSignedBigEndian32(v: int): (r: seq<byte>)
    requires INT32_MIN <= v < INT32_LIMIT
    ensures |r| == 4
  {
    Pow256Widths();
    ToBigEndian(if v >= 0 then v else v + UINT32_LIMIT, 4)
  }

  lemma SignedBigEndian32RoundTrip(v: int)
    requires INT32_MIN <= v < INT32_LIMIT
    ensures SignedBigEndian32(ToSignedBigEndian32(v)) == v
  {
    Pow256Widths();
  }

  /** What a blocking read of n bytes returns from a stream that still holds
      `avail` and then closes: n bytes, or all of them if fewer remain. */
  function ReadUpTo(avail: seq<byte>, n: nat): (r: seq<byte>)
    ensures |r| == (if n <= |avail| then n else |avail|)
    ensures r == avail[..|r|]
  {
    if n <= |avail| then avail[..n] else avail
  }
}
