/** The two squashfs 4.0 superblock fields the walker reads: the magic at byte 0
    and bytes_used at byte 40, both little-endian (hdr_read_magic,
    hdr_read_bytes_used). */
module Superblock {
  import opened Bytes
  import opened Posix

  /** SQUASHFS_MAGIC of <linux/magic.h>: the bytes "hsqs" read little-endian. */
  const SquashfsMagic: nat := 0x73717368
  /** SQFS_HDR_BYTES_USED: where bytes_used sits in the superblock. */
  const BytesUsedField: nat := 40
  /** sizeof(uint32_t) and sizeof(long long), the widths of the two fields. */
  const MagicSize: nat := 4
  const BytesUsedSize: nat := 8
  /** The superblock prefix the walker depends on: up to the end of bytes_used. */
  const HeaderSize: nat := 48

  /** The magic as it lies on disk, least significant byte first: "hsqs". */
  const MagicBytes: seq<Byte> := [0x68, 0x73, 0x71, 0x73]

  /** MagicBytes are the four bytes that encode the magic. */
  lemma MagicBytesEncodeMagic()
    ensures |MagicBytes| == MagicSize && LittleEndian(MagicBytes) == SquashfsMagic
    ensures MagicBytes == ToLittleEndian(SquashfsMagic, MagicSize)
  {
    Pow256Widths();
    ToLittleEndianOfLittleEndian(MagicBytes);
  }

  /** hdr_read_magic with the file position at pos: the little-endian 32-bit value
      of the four bytes there, or 0 when the read fails, meets end of file at
      once, or is short. */
  function MagicAt(dev: Device, pos: nat): (m: nat)
    ensures m < TwoTo32
    ensures m != 0 ==> pos !in dev.readFaults && pos + MagicSize <= |dev.data|
    ensures pos !in dev.readFaults && pos + MagicSize <= |dev.data| ==>
              m == LittleEndian(dev.data[pos..pos + MagicSize])
    ensures pos in dev.readFaults || pos + MagicSize > |dev.data| ==> m == 0
  {
    Pow256Widths();
    match ReadAt(dev, pos, MagicSize)
    case ReadFailed => 0
    case ReadBytes(s) =>
      if |s| == 0 then 0
      else if |s| != MagicSize then 0
      else LittleEndian(s)
  }

  /** hdr_read_bytes_used with the file position at pos: -1 when the read fails
      or is short, 0 when it meets end of file at once, otherwise the signed
      little-endian 64-bit value of the eight bytes there. */
  function BytesUsedAt(dev: Device, pos: nat): (u: int)
    ensures -(TwoTo63 as int) <= u < TwoTo63
    ensures pos in dev.readFaults ==> u == -1
    ensures pos !in dev.readFaults && pos >= |dev.data| ==> u == 0
    ensures pos !in dev.readFaults && pos < |dev.data| < pos + BytesUsedSize ==> u == -1
    ensures pos !in dev.readFaults && pos + BytesUsedSize <= |dev.data| ==>
              u == AsInt64(LittleEndian(dev.data[pos..pos + BytesUsedSize]))
  {
    Pow256Widths();
    match ReadAt(dev, pos, BytesUsedSize)
    case ReadFailed => -1
    case ReadBytes(s) =>
      if |s| == 0 then 0
      else if |s| != BytesUsedSize then -1
      else AsInt64(LittleEndian(s))
  }

  /** hdr_read_magic on a file descriptor: what MagicAt says of its position,
      which advances by the bytes read (all four whenever a magic was seen). */
  method ReadMagic(fd: FileDesc) returns (magic: nat)
    modifies fd
    ensures magic == MagicAt(fd.dev, old(fd.pos))
    ensures fd.pos == old(fd.pos) + Consumed(ReadAt(fd.dev, old(fd.pos), MagicSize))
    ensures magic != 0 ==> fd.pos == old(fd.pos) + MagicSize
  {
    Pow256Widths();
    var n, buf := fd.Read(MagicSize);
    if n == -1 {
      return 0;
    }
    if n == 0 {
      return 0;
    }
    if n != MagicSize {
      return 0;
    }
    magic := LittleEndian(buf);
  }

  /** hdr_read_bytes_used on a file descriptor: what BytesUsedAt says of its position. */
  method ReadBytesUsed(fd: FileDesc) returns (used: int)
    modifies fd
    ensures used == BytesUsedAt(fd.dev, old(fd.pos))
    ensures fd.pos == old(fd.pos) + Consumed(ReadAt(fd.dev, old(fd.pos), BytesUsedSize))
  {
    Pow256Widths();
    var n, buf := fd.Read(BytesUsedSize);
    if n == -1 {
      return -1;
    }
    if n == 0 {
      return 0;
    }
    if n != BytesUsedSize {
      return -1;
    }
    used := AsInt64(LittleEndian(buf));
  }

  /** The first HeaderSize bytes of a superblock that declares used bytes: the
      magic, the 36 bytes of other fields the walker skips, then bytes_used. */
  function EncodeHeader(used: nat, skipped: seq<Byte>): (h: seq<Byte>)
    requires used < TwoTo63 && |skipped| == BytesUsedField - MagicSize
    ensures |h| == HeaderSize
    ensures h[..MagicSize] == MagicBytes
    ensures h[BytesUsedField..HeaderSize] == ToLittleEndian(used, BytesUsedSize)
  {
    Pow256Widths();
    MagicBytes + skipped + ToLittleEndian(used, BytesUsedSize)
  }

  /** Reading back a header written by EncodeHeader gives the magic and the
      declared bytes_used, whatever the skipped fields hold. */
  lemma HeaderRoundTrip(dev: Device, pos: nat, used: nat, skipped: seq<Byte>)
    requires used < TwoTo63 && |skipped| == BytesUsedField - MagicSize
    requires pos + HeaderSize <= |dev.data|
    requires dev.data[pos..pos + HeaderSize] == EncodeHeader(used, skipped)
    requires pos !in dev.readFaults && pos + BytesUsedField !in dev.readFaults
    ensures MagicAt(dev, pos) == SquashfsMagic
    ensures BytesUsedAt(dev, pos + BytesUsedField) == used
  {
    var h := EncodeHeader(used, skipped);
    assert dev.data[pos..pos + MagicSize] == h[..MagicSize];
    assert dev.data[pos + BytesUsedField..pos + HeaderSize] == h[BytesUsedField..HeaderSize];
  }

  /** A four-byte field that is not the magic's byte pattern does not read as the magic. */
  lemma NotMagicBytes(dev: Device, pos: nat)
    requires pos + MagicSize <= |dev.data|
    requires dev.data[pos..pos + MagicSize] != MagicBytes
    ensures MagicAt(dev, pos) != SquashfsMagic
  {
    Pow256Widths();
    var s := dev.data[pos..pos + MagicSize];
    if MagicAt(dev, pos) == SquashfsMagic {
      ToLittleEndianOfLittleEndian(s);
    }
  }
}
