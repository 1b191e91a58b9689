/** The byte-level pieces of the SCALE codec that the encoder emits: fixed-width
    little-endian unsigned integers (`u8` … `u128`) and the compact integer used
    as the length prefix of a string. Each encoder has a decoder beside it and a
    round-trip lemma connecting the two. */
module Scale {
  import opened Wrappers

  type Byte = b: int | 0 <= b < 256

  /** 256^w, the number of distinct values a w-byte integer can hold. */
  function Pow256(w: nat): (r: nat)
    ensures r >= 1
  {
    if w == 0 then 1 else 256 * Pow256(w - 1)
  }

  /** The w-byte little-endian representation of n (SCALE's fixed-width integers). */
  function LittleEndian(n: nat, w: nat): (r: seq<Byte>)
    requires n < Pow256(w)
    ensures |r| == w
  {
    if w == 0 then [] else [n % 256] + LittleEndian(n / 256, w - 1)
  }

  /** Reads a little-endian unsigned integer of any width. */
  function FromLittleEndian(bs: seq<Byte>): (r: nat)
    ensures r < Pow256(|bs|)
  {
    if bs == [] then 0
    else
      var rest := FromLittleEndian(bs[1..]);
      assert bs[0] + 256 * rest <= 255 + 256 * (Pow256(|bs| - 1) - 1);
      bs[0] + 256 * rest
  }

  /** Writing n in w bytes and reading it back gives n: the fixed-width encoding
      neither wraps nor truncates a value that fits. */
  lemma {:induction false} LittleEndianRoundTrip(n: nat, w: nat)
    requires n < Pow256(w)
    ensures FromLittleEndian(LittleEndian(n, w)) == n
  {
    if w > 0 {
      LittleEndianRoundTrip(n / 256, w - 1);
      assert LittleEndian(n, w)[1..] == LittleEndian(n / 256, w - 1);
    }
  }

  /** Every byte string of length w is the encoding of exactly one value below 256^w. */
  lemma {:induction false} LittleEndianOfDecoded(bs: seq<Byte>)
    ensures LittleEndian(FromLittleEndian(bs), |bs|) == bs
  {
    if bs != [] {
      LittleEndianOfDecoded(bs[1..]);
      var n := FromLittleEndian(bs);
      assert n % 256 == bs[0] && n / 256 == FromLittleEndian(bs[1..]);
    }
  }

  /** The largest length the compact prefix of a string can carry: the codec
      encodes a slice length as a `Compact<u32>`. */
  const CompactLimit: nat := 0x1_0000_0000

  /** SCALE compact encoding of a `u32`: the two low bits of the first byte select
      the mode — single byte `n<<2`, two bytes `n<<2|1`, four bytes `n<<2|2`, or
      the big-integer mode, whose header byte `0b11` (four following bytes) is
      followed by n in four little-endian bytes. */
  function CompactU32(n: nat): (r: seq<Byte>)
    requires n < CompactLimit
  {
    if n < 0x40 then [n * 4]
    else if n < 0x4000 then LittleEndian(n * 4 + 1, 2)
    else if n < 0x4000_0000 then LittleEndian(n * 4 + 2, 4)
    else [3] + LittleEndian(n, 4)
  }

  /** Reads a compact `u32` from the front of bs: its value and how many bytes it took. */
  function CompactDecode(bs: seq<Byte>): (r: Option<(nat, nat)>)
    ensures r.Some? ==> 1 <= r.value.1 <= |bs|
  {
    if |bs| == 0 then None
    else if bs[0] % 4 == 0 then Some((bs[0] / 4, 1))
    else if bs[0] % 4 == 1 then
      if |bs| < 2 then None else Some((FromLittleEndian(bs[..2]) / 4, 2))
    else if bs[0] % 4 == 2 then
      if |bs| < 4 then None else Some((FromLittleEndian(bs[..4]) / 4, 4))
    else if bs[0] == 3 && |bs| >= 5 then Some((FromLittleEndian(bs[1..5]), 5))
    else None
  }

  lemma LowBitsOfFirstByte(k: nat, m: nat, w: nat)
    requires m < 4 && w >= 1 && 4 * k + m < Pow256(w)
    ensures LittleEndian(4 * k + m, w)[0] % 4 == m
  {
    var x := 4 * k + m;
    assert LittleEndian(x, w)[0] == x % 256;
    assert x % 256 == 4 * (k % 64) + m;
  }

  lemma CompactTwoBytes(n: nat, rest: seq<Byte>)
    requires 0x40 <= n < 0x4000
    ensures CompactDecode(CompactU32(n) + rest) == Some((n, 2))
  {
    var c := CompactU32(n);
    LowBitsOfFirstByte(n, 1, 2);
    assert (c + rest)[..2] == c;
    LittleEndianRoundTrip(n * 4 + 1, 2);
  }

  lemma CompactFourBytes(n: nat, rest: seq<Byte>)
    requires 0x4000 <= n < 0x4000_0000
    ensures CompactDecode(CompactU32(n) + rest) == Some((n, 4))
  {
    var c := CompactU32(n);
    LowBitsOfFirstByte(n, 2, 4);
    assert (c + rest)[..4] == c;
    LittleEndianRoundTrip(n * 4 + 2, 4);
  }

  lemma CompactBigInteger(n: nat, rest: seq<Byte>)
    requires 0x4000_0000 <= n < CompactLimit
    ensures CompactDecode(CompactU32(n) + rest) == Some((n, 5))
  {
    var c := CompactU32(n);
    assert (c + rest)[1..5] == LittleEndian(n, 4);
    LittleEndianRoundTrip(n, 4);
  }

  /** The compact prefix decodes back to its length whatever follows it, and it
      takes 1, 2, 4 or 5 bytes by the four modes. */
  lemma CompactRoundTrip(n: nat, rest: seq<Byte>)
    requires n < CompactLimit
    ensures |CompactU32(n)| == (if n < 0x40 then 1 else if n < 0x4000 then 2 else if n < 0x4000_0000 then 4 else 5)
    ensures CompactDecode(CompactU32(n) + rest) == Some((n, |CompactU32(n)|))
  {
    if n < 0x40 {
      assert (CompactU32(n) + rest)[0] == 4 * n;
    } else if n < 0x4000 {
      CompactTwoBytes(n, rest);
    } else if n < 0x4000_0000 {
      CompactFourBytes(n, rest);
    } else {
      CompactBigInteger(n, rest);
    }
  }

}
