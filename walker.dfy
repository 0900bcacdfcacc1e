/** The segment walker (foreach_sqfs): starting at an offset and a 1-based index,
    it reads a superblock, stops at the first position that holds no squashfs
    magic, prints what the command asks for, and moves on by the padded size. */
module Walker {
  import opened Bytes
  import opened Posix
  import opened Alignment
  import opened Superblock

  /** MAX_SQFS_NUM: the recursion guard; index MaxSegments + 1 is refused. */
  const MaxSegments: nat := 256

  /** A segment index: foreach_sqfs counts from 1. */
  type Index = i: int | i >= 1 witness 1

  /** The command enumeration; CmdError is what parse_cmd gives an unknown word. */
  datatype Cmd = CmdError | CmdList | CmdOffset | CmdSize | CmdUsed | CmdCount

  /** What foreach_sqfs finds at one candidate offset, in the order it looks:
      the seek to the offset refused, no magic there (end of file, a failed or
      short read, other bytes), the seek to bytes_used refused, bytes_used
      failed, short or negative, or a squashfs image declaring used bytes. */
  datatype Probe = SeekRefused | NoMagic | UsedSeekRefused | UsedUnusable | Squashfs(used: nat)

  /** foreach_sqfs at one offset of the file, the recursion guard aside. */
  function ProbeAt(dev: Device, offset: int): (p: Probe)
    ensures p == SeekRefused <==> SeekFails(dev, offset)
    ensures p == NoMagic <==> !SeekFails(dev, offset) && MagicAt(dev, offset) != SquashfsMagic
    ensures p.Squashfs? ==> offset >= 0 && MagicAt(dev, offset) == SquashfsMagic &&
                            p.used == BytesUsedAt(dev, offset + BytesUsedField)
  {
    if SeekFails(dev, offset) then SeekRefused
    else
      var magic := MagicAt(dev, offset);
      if magic == 0 || magic != SquashfsMagic then NoMagic
      // the magic read consumed four bytes; seeking 36 further lands on bytes_used
      else if SeekFails(dev, offset + BytesUsedField) then UsedSeekRefused
      else
        var used := BytesUsedAt(dev, offset + BytesUsedField);
        if used < 0 then UsedUnusable else Squashfs(used)
  }

  /** The file as the walker sees it: what probing each offset finds. */
  type Image = int -> Probe

  function ImageOf(dev: Device): Image
  {
    o => ProbeAt(dev, o)
  }

  /** img shows what probing dev finds, at every offset. */
  ghost predicate Shows(img: Image, dev: Device)
  {
    forall o {:trigger ProbeAt(dev, o)} :: img(o) == ProbeAt(dev, o)
  }

  lemma ImageOfShows(dev: Device)
    ensures Shows(ImageOf(dev), dev)
  {
  }

  /** A probe finds an image exactly where both seeks succeed, the four bytes
      at the offset are the magic and bytes_used is either beyond end of file
      (read as 0) or eight bytes holding a non-negative value. */
  lemma ProbeFindsSuperblock(dev: Device, offset: nat, used: nat)
    requires offset !in dev.readFaults && offset + BytesUsedField !in dev.readFaults
    ensures ProbeAt(dev, offset) == Squashfs(used) <==>
              !SeekFails(dev, offset) && !SeekFails(dev, offset + BytesUsedField) &&
              offset + MagicSize <= |dev.data| &&
              dev.data[offset..offset + MagicSize] == MagicBytes &&
              if offset + BytesUsedField >= |dev.data| then used == 0
              else offset + HeaderSize <= |dev.data| &&
                   LittleEndian(dev.data[offset + BytesUsedField..offset + HeaderSize]) == used < TwoTo63
  {
    Pow256Widths();
    var p := offset + BytesUsedField;
    if offset + MagicSize <= |dev.data| {
      var m := dev.data[offset..offset + MagicSize];
      ToLittleEndianOfLittleEndian(m);
    }
    if p + BytesUsedSize <= |dev.data| {
      assert offset + HeaderSize == p + BytesUsedSize;
    }
  }

  /** An image is only ever found at a position lseek accepts, so never before
      the start of the file. */
  lemma ImagesStartInFile(dev: Device, offset: int)
    requires ImageOf(dev)(offset).Squashfs?
    ensures offset >= 0 && offset !in dev.seekFaults
  {
  }

  /** One discovered filesystem: its index in the image, the offset of its
      superblock, its bytes_used and the pad that follows it. */
  datatype Segment = Segment(index: Index, offset: int, used: nat, pad: nat) {
    /** The padded size, what `size` reports. */
    function Size(): nat { used + pad }
    predicate WellFormed() { pad == CalcPad(used) }
  }

  /** What one step of the walk prints: the `list` line of print_sqfs_info
      (index, filesystem number, main or meta, whether in blocks, the amount and
      where it starts), or the single number of `offset`, `size` and `used`. */
  datatype Emission =
    | Info(index: int, fs: int, meta: bool, blocks: bool, amount: nat, at: int)
    | Number(value: int)

  /** print_sqfs_info for the num-th segment. */
  function SegmentInfo(used: nat, offset: int, num: Index, block: bool): (e: Emission)
    ensures e.Info? && e.index == num && e.blocks == block
  {
    var fs := if num % 2 != 0 then num / 2 else num / 2 - 1;
    var amount := if block then (if used / Align != 0 then used / Align else 1) else used;
    Info(num, fs + 1, num % 2 == 0, block, amount, if block then offset / Align else offset)
  }

  /** Segments come in pairs: odd num is filesystem (num + 1) / 2, the even num
      after it is that filesystem's meta image. In blocks, an image of less than
      one block shows as one block, a larger one as its whole blocks. */
  lemma SegmentInfoSpec(used: nat, offset: int, num: Index, block: bool)
    ensures var e := SegmentInfo(used, offset, num, block);
            e.Info? && e.index == num && e.blocks == block &&
            e.fs == (num + 1) / 2 && (e.meta <==> num % 2 == 0) &&
            (block ==> e.at == offset / Align && e.amount >= 1 &&
                       (used < Align ==> e.amount == 1) &&
                       (used >= Align ==> e.amount == used / Align)) &&
            (!block ==> e.amount == used && e.at == offset)
  {
    if used >= Align {
      assert used / Align >= 1;
    }
  }

  /** Indices 2k - 1 and 2k name the main and the meta image of filesystem k. */
  lemma MainAndMetaPair(k: nat, u1: nat, o1: int, u2: nat, o2: int, block: bool)
    requires k >= 1
    ensures var main, meta := SegmentInfo(u1, o1, 2 * k - 1, block), SegmentInfo(u2, o2, 2 * k, block);
            main.fs == k && meta.fs == k && !main.meta && meta.meta
  {
    SegmentInfoSpec(u1, o1, 2 * k - 1, block);
    SegmentInfoSpec(u2, o2, 2 * k, block);
  }

  /** What foreach_sqfs prints for one segment under cmd (its switch). */
  function Emit(cmd: Cmd, block: bool, seg: Segment): (out: seq<Emission>)
    ensures |out| <= 1
  {
    match cmd
    case CmdList => [SegmentInfo(seg.used, seg.offset, seg.index, block)]
    case CmdOffset => [Number(if block then seg.offset / Align else seg.offset)]
    case CmdSize => [Number(if block then seg.Size() / Align else seg.Size())]
    case CmdUsed => [Number(if block then seg.used / Align else seg.used)]
    case CmdCount => []
    case CmdError => []
  }

  /** One line at most per segment; none for `count`, whose line main prints,
      and none for a command the switch does not know. `list` prints the
      print_sqfs_info line, `offset`, `size` and `used` the segment's offset,
      padded size and bytes_used, in blocks with -b. */
  lemma EmitSpec(cmd: Cmd, block: bool, seg: Segment)
    ensures var out := Emit(cmd, block, seg);
            |out| <= 1 &&
            (out == [] <==> cmd == CmdCount || cmd == CmdError) &&
            (cmd == CmdList ==> out == [SegmentInfo(seg.used, seg.offset, seg.index, block)]) &&
            (cmd == CmdOffset ==> out == [Number(if block then seg.offset / Align else seg.offset)]) &&
            (cmd == CmdSize ==> out == [Number(if block then seg.Size() / Align else seg.Size())]) &&
            (cmd == CmdUsed ==> out == [Number(if block then seg.used / Align else seg.used)])
  {
  }

  /** The `list` line of a segment shows its bytes_used, not its padded size:
      in bytes without -b, in whole used blocks (at least one) with -b. */
  lemma ListShowsUsed(block: bool, seg: Segment)
    ensures Emit(CmdList, block, seg)[0].amount ==
              if !block then seg.used else if seg.used < Align then 1 else seg.used / Align
  {
    SegmentInfoSpec(seg.used, seg.offset, seg.index, block);
  }

  /** With -b, `offset`, `size` and `used` print the byte value divided by the block size. */
  lemma BlockModeDividesByteValue(cmd: Cmd, seg: Segment)
    requires cmd == CmdOffset || cmd == CmdSize || cmd == CmdUsed
    ensures Emit(cmd, true, seg) == [Number(Emit(cmd, false, seg)[0].value / Align)]
  {
  }

  /** `size -b` of a well-formed segment is one more than its whole used blocks. */
  lemma SizeInBlocks(seg: Segment)
    requires seg.WellFormed()
    ensures Emit(CmdSize, true, seg) == [Number(seg.used / Align + 1)]
  {
    PaddedBlocks(seg.used);
  }

  /** What the walk prints for seg: its lines when no filter is set or the
      filter names its index, otherwise nothing. */
  function Selected(cmd: Cmd, filter: int, block: bool, seg: Segment): (out: seq<Emission>)
    ensures |out| <= 1
    ensures filter != 0 && filter != seg.index ==> out == []
  {
    if filter == 0 || filter == seg.index then Emit(cmd, block, seg) else []
  }

  /** The measure the guard gives the walk: it falls with each step and stops at index MaxSegments + 1. */
  function StepsLeft(num: int): nat
  {
    if num <= MaxSegments then MaxSegments + 1 - num else 0
  }

  /** What foreach_sqfs returns and what it printed along the way. */
  datatype Walked = Walked(status: int, out: seq<Emission>)

  /** foreach_sqfs(fd, offset, num, cmd, filter) with the -b flag as block. The
      status is num - 1 plus the segments found when the walk meets a position
      without the magic, -1 when a seek to a segment fails or the guard trips,
      and 1 for any failure after a magic was seen. */
  function Walk(img: Image, offset: int, num: Index, cmd: Cmd, filter: int, block: bool): (w: Walked)
    ensures w.status == -1 || w.status == 1 || num - 1 <= w.status < MaxSegments
    ensures num > MaxSegments ==> w == Walked(-1, [])
    decreases StepsLeft(num)
  {
    var probe := img(offset);
    if probe.SeekRefused? then Walked(-1, [])
    else if num > MaxSegments then Walked(-1, [])
    else if probe.NoMagic? then Walked(num - 1, [])
    else if !probe.Squashfs? then Walked(1, [])
    else
      var used := probe.used;
      var pad := CalcPad(used);
      if cmd == CmdCount then
        if filter != 0 then Walked(1, [])
        else Walk(img, offset + used + pad, num + 1, cmd, filter, block)
      else
        var here := Selected(cmd, filter, block, Segment(num, offset, used, pad));
        var rest := Walk(img, offset + used + pad, num + 1, cmd, filter, block);
        Walked(rest.status, here + rest.out)
  }

  /** A helper for ForEachSegment, one unfolding of Walk: past a segment found
      at offset (with no `count` filter to refuse it), the lines for the
      segment, then the rest of the walk from the next padded boundary with the
      next index. */
  lemma WalkPastSegment(img: Image, offset: int, num: Index, cmd: Cmd, filter: int, block: bool,
                        used: nat, here: seq<Emission>, status: int, rest: seq<Emission>)
    requires num <= MaxSegments && img(offset) == Squashfs(used)
    requires !(cmd == CmdCount && filter != 0)
    requires here == if cmd == CmdCount then [] else Selected(cmd, filter, block, Segment(num, offset, used, CalcPad(used)))
    requires Walked(status, rest) == Walk(img, offset + used + CalcPad(used), num + 1, cmd, filter, block)
    ensures Walk(img, offset, num, cmd, filter, block) == Walked(status, here + rest)
  {
    if cmd == CmdCount {
      assert here + rest == rest;
    }
  }

  /** The header steps of foreach_sqfs with the file positioned at offset: read
      the magic, skip to bytes_used and read it. What it finds is ProbeAt. */
  method ReadSuperblock(fd: FileDesc, offset: int) returns (probe: Probe)
    requires fd.pos == offset && !SeekFails(fd.dev, offset)
    modifies fd
    ensures probe == ProbeAt(fd.dev, offset)
  {
    var magic := ReadMagic(fd);
    if magic == 0 || magic != SquashfsMagic {
      return NoMagic;
    }
    var r := fd.Lseek(BytesUsedField - MagicSize, SeekCur);
    if r == -1 {
      return UsedSeekRefused;
    }
    var used := ReadBytesUsed(fd);
    if used < 0 {
      return UsedUnusable;
    }
    return Squashfs(used);
  }

  /** foreach_sqfs on an open file descriptor: seek to the segment, check the
      guard, read the superblock, print, and recurse at the next padded
      boundary. It returns what Walk says of the file. */
  method ForEachSegment(fd: FileDesc, ghost img: Image, offset: int, num: Index, cmd: Cmd, filter: int, block: bool)
    returns (status: int, out: seq<Emission>)
    requires Shows(img, fd.dev)
    modifies fd
    ensures Walked(status, out) == Walk(img, offset, num, cmd, filter, block)
    decreases StepsLeft(num)
  {
    var r := fd.Lseek(offset, SeekSet);
    if r == -1 {
      assert img(offset) == ProbeAt(fd.dev, offset) == SeekRefused;
      return -1, [];
    }
    if num > MaxSegments {
      return -1, [];
    }
    var probe := ReadSuperblock(fd, offset);
    assert img(offset) == probe;
    if !probe.Squashfs? {
      return if probe.NoMagic? then num - 1 else 1, [];
    }
    var used := probe.used;
    var pad := CalcPad(used);
    if cmd == CmdCount && filter != 0 {
      return 1, [];
    }
    // `count` prints nothing per segment; the others print what the filter selects
    var here := if cmd == CmdCount then [] else Selected(cmd, filter, block, Segment(num, offset, used, pad));
    var rest;
    status, rest := ForEachSegment(fd, img, offset + used + pad, num + 1, cmd, filter, block);
    out := here + rest;
    WalkPastSegment(img, offset, num, cmd, filter, block, used, here, status, rest);
  }
}
