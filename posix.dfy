/** The file the walker inspects, seen through POSIX lseek and read. */
module Posix {
  import opened Bytes

  /** An opened image file: its bytes, and the absolute positions at which the
      operating system refuses an lseek or a read. */
  datatype Device = Device(data: seq<Byte>, seekFaults: set<int>, readFaults: set<int>)

  /** lseek to absolute position target fails: POSIX refuses a negative target,
      and the device may refuse others. Seeking past end of file is allowed. */
  predicate SeekFails(dev: Device, target: int)
  {
    target < 0 || target in dev.seekFaults
  }

  datatype ReadResult = ReadFailed | ReadBytes(bytes: seq<Byte>)

  /** How far a read moves the file position. */
  function Consumed(r: ReadResult): nat
  {
    match r
    case ReadFailed => 0
    case ReadBytes(s) => |s|
  }

  /** read(fd, buf, k) with the file position at pos: -1 where the device
      faults, otherwise the next k bytes, or as many as remain before end of file
      (none when pos is at or past it). */
  function ReadAt(dev: Device, pos: nat, k: nat): (r: ReadResult)
    ensures r.ReadFailed? <==> pos in dev.readFaults
    ensures r.ReadBytes? ==> |r.bytes| <= k
    ensures r.ReadBytes? && pos >= |dev.data| ==> r.bytes == []
    ensures r.ReadBytes? && pos < |dev.data| ==>
              pos + |r.bytes| <= |dev.data| && r.bytes == dev.data[pos..pos + |r.bytes|] &&
              (|r.bytes| == k || pos + |r.bytes| == |dev.data|)
  {
    if pos in dev.readFaults then ReadFailed
    else if pos >= |dev.data| then ReadBytes([])
    else if pos + k <= |dev.data| then ReadBytes(dev.data[pos..pos + k])
    else ReadBytes(dev.data[pos..])
  }

  datatype Whence = SeekSet | SeekCur

  /** A file descriptor open on a device: the device is fixed, the file position
      moves with every successful lseek and read. */
  class FileDesc {
    const dev: Device
    var pos: nat

    constructor (d: Device)
      ensures dev == d && pos == 0
    {
      dev := d;
      pos := 0;
    }

    /** lseek(fd, off, whence): the new position, or -1 with the position unchanged. */
    method Lseek(off: int, whence: Whence) returns (r: int)
      modifies this
      ensures var target := if whence == SeekSet then off else old(pos) + off;
              if SeekFails(dev, target) then r == -1 && pos == old(pos)
              else r == target && pos == target
    {
      var target := if whence == SeekSet then off else pos + off;
      if SeekFails(dev, target) {
        r := -1;
      } else {
        pos := target;
        r := target;
      }
    }

    /** read(fd, buf, k): the count n (-1 on failure) and the bytes read; the
        position advances by what was read. */
    method Read(k: nat) returns (n: int, buf: seq<Byte>)
      modifies this
      ensures var r := ReadAt(dev, old(pos), k);
              pos == old(pos) + Consumed(r) &&
              match r
              case ReadFailed => n == -1 && buf == []
              case ReadBytes(s) => n == |s| && buf == s
    {
      var r := ReadAt(dev, pos, k);
      match r {
        case ReadFailed =>
          n, buf := -1, [];
        case ReadBytes(s) =>
          n, buf := |s|, s;
          pos := pos + |s|;
      }
    }
  }
}
