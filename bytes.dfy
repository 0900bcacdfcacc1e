/** Little-endian integers as the squashfs 4.0 superblock stores them on disk. */
module Bytes {

  type Byte = b: int | 0 <= b < 256

  const TwoTo32: nat := 0x1_0000_0000
  const TwoTo63: nat := 0x8000_0000_0000_0000
  const TwoTo64: nat := 0x1_0000_0000_0000_0000

  /** 256 to the power n: how many distinct values n bytes can hold (a helper for the field widths). */
  function Pow256(n: nat): (p: nat)
    ensures p >= 1
  {
    if n == 0 then 1 else 256 * Pow256(n - 1)
  }

  /** The widths the superblock fields use: 4 bytes for the magic, 8 for bytes_used. */
  lemma Pow256Widths()
    ensures Pow256(4) == TwoTo32 && Pow256(8) == TwoTo64
  {
    assert Pow256(1) == 256;
    assert Pow256(2) == 0x1_0000;
    assert Pow256(3) == 0x100_0000;
    assert Pow256(4) == 0x1_0000_0000;
    assert Pow256(5) == 0x100_0000_0000;
    assert Pow256(6) == 0x1_0000_0000_0000;
    assert Pow256(7) == 0x100_0000_0000_0000;
  }

  /** The value of s read least significant byte first. */
  function LittleEndian(s: seq<Byte>): (v: nat)
    ensures v < Pow256(|s|)
  {
    if s == [] then 0 else s[0] + 256 * LittleEndian(s[1..])
  }

  /** The n bytes that store v least significant byte first. */
  function ToLittleEndian(v: nat, n: nat): (s: seq<Byte>)
    requires v < Pow256(n)
    ensures |s| == n && LittleEndian(s) == v
  {
    if n == 0 then []
    else
      var s := [(v % 256) as Byte] + ToLittleEndian(v / 256, n - 1);
      assert s[1..] == ToLittleEndian(v / 256, n - 1);
      s
  }

  /** Encoding the decoded value gives the bytes back: a little-endian field of a
      given width has exactly one byte pattern per value. */
  lemma {:induction false} ToLittleEndianOfLittleEndian(s: seq<Byte>)
    ensures ToLittleEndian(LittleEndian(s), |s|) == s
  {
    if s != [] {
      var v := LittleEndian(s);
      assert v % 256 == s[0] && v / 256 == LittleEndian(s[1..]);
      ToLittleEndianOfLittleEndian(s[1..]);
      assert s == [s[0]] + s[1..];
    }
  }

  /** Two byte strings of one width with the same little-endian value are equal. */
  lemma LittleEndianInjective(a: seq<Byte>, b: seq<Byte>)
    requires |a| == |b| && LittleEndian(a) == LittleEndian(b)
    ensures a == b
  {
    ToLittleEndianOfLittleEndian(a);
    ToLittleEndianOfLittleEndian(b);
  }

  /** The value C's `long long` gives the 64-bit pattern u (two's complement). */
  function AsInt64(u: nat): (r: int)
    requires u < TwoTo64
    ensures -(TwoTo63 as int) <= r < TwoTo63
    ensures (u - r) % TwoTo64 == 0
    ensures r >= 0 <==> u < TwoTo63
  {
    if u < TwoTo63 then u else u - TwoTo64
  }
}
