/** Flat images as the tool expects them: squashfs images laid back to back,
    each padded to the next block boundary, followed by bytes that hold no
    magic. What the walker finds in such a file. */
module Layout {
  import opened Bytes
  import opened Posix
  import opened Alignment
  import opened Superblock
  import opened Walker
  import opened Scanning

  /** The bytes_used field of a superblock at the start of b. */
  function UsedOf(b: seq<Byte>): nat
  {
    if |b| >= HeaderSize then LittleEndian(b[BytesUsedField..HeaderSize]) else 0
  }

  /** One padded squashfs image: a superblock with the magic and a
      non-negative bytes_used, and exactly that many bytes plus the pad. */
  predicate PaddedImage(b: seq<Byte>)
  {
    |b| >= HeaderSize &&
    b[..MagicSize] == MagicBytes &&
    UsedOf(b) < TwoTo63 &&
    |b| == UsedOf(b) + CalcPad(UsedOf(b))
  }

  predicate AllPadded(bs: seq<seq<Byte>>)
  {
    forall i :: 0 <= i < |bs| ==> PaddedImage(bs[i])
  }

  /** Bytes after the last image that the walker does not take for another:
      too short for a magic, or not starting with one. */
  predicate EndsScan(t: seq<Byte>)
  {
    |t| < MagicSize || t[..MagicSize] != MagicBytes
  }

  function Concat(bs: seq<seq<Byte>>): seq<Byte>
  {
    if bs == [] then [] else bs[0] + Concat(bs[1..])
  }

  /** The segment descriptors of images bs laid out from offset, numbered from num. */
  function Expected(bs: seq<seq<Byte>>, offset: int, num: Index): (segs: seq<Segment>)
    ensures |segs| == |bs|
  {
    if bs == [] then []
    else [Segment(num, offset, UsedOf(bs[0]), CalcPad(UsedOf(bs[0])))] + Expected(bs[1..], offset + |bs[0]|, num + 1)
  }

  /** On a device without faults, a padded image after prefix is found with its bytes_used. */
  lemma ProbeOfPadded(prefix: seq<Byte>, b: seq<Byte>, rest: seq<Byte>)
    requires PaddedImage(b)
    ensures ProbeAt(Device(prefix + b + rest, {}, {}), |prefix|) == Squashfs(UsedOf(b))
  {
    Pow256Widths();
    var dev := Device(prefix + b + rest, {}, {});
    var p := |prefix|;
    assert dev.data[p..p + MagicSize] == b[..MagicSize];
    assert dev.data[p + BytesUsedField..p + HeaderSize] == b[BytesUsedField..HeaderSize];
    ProbeFindsSuperblock(dev, p, UsedOf(b));
  }

  /** Bytes that end the scan are seen as a position without the magic. */
  lemma ProbeOfTrailer(prefix: seq<Byte>, t: seq<Byte>)
    requires EndsScan(t)
    ensures ProbeAt(Device(prefix + t, {}, {}), |prefix|) == NoMagic
  {
    var dev := Device(prefix + t, {}, {});
    var p := |prefix|;
    if |t| >= MagicSize {
      assert dev.data[p..p + MagicSize] == t[..MagicSize];
      NotMagicBytes(dev, p);
    }
  }

  /** The file seen with its first image split off, grouped two ways. */
  lemma ConcatSplit(prefix: seq<Byte>, bs: seq<seq<Byte>>, trailer: seq<Byte>)
    requires bs != []
    ensures prefix + Concat(bs) + trailer == prefix + bs[0] + (Concat(bs[1..]) + trailer)
    ensures prefix + Concat(bs) + trailer == prefix + bs[0] + Concat(bs[1..]) + trailer
  {
  }

  /** The first of the images after prefix is found there, and the rest of the
      file is the same layout with that image moved into the prefix. */
  lemma LayoutStep(img: Image, prefix: seq<Byte>, bs: seq<seq<Byte>>, trailer: seq<Byte>)
    requires bs != [] && AllPadded(bs)
    requires Shows(img, Device(prefix + Concat(bs) + trailer, {}, {}))
    ensures img(|prefix|) == Squashfs(UsedOf(bs[0]))
    ensures |prefix + bs[0]| == |prefix| + UsedOf(bs[0]) + CalcPad(UsedOf(bs[0]))
    ensures AllPadded(bs[1..])
    ensures Shows(img, Device(prefix + bs[0] + Concat(bs[1..]) + trailer, {}, {}))
  {
    ConcatSplit(prefix, bs, trailer);
    ProbeOfPadded(prefix, bs[0], Concat(bs[1..]) + trailer);
    assert PaddedImage(bs[0]);
    assert forall i :: 0 <= i < |bs| - 1 ==> bs[1..][i] == bs[i + 1];
  }

  /** Past the last image, the trailer is seen as a position without the magic. */
  lemma LayoutEnd(img: Image, prefix: seq<Byte>, trailer: seq<Byte>)
    requires EndsScan(trailer)
    requires Shows(img, Device(prefix + Concat([]) + trailer, {}, {}))
    ensures img(|prefix|) == NoMagic
  {
    assert prefix + Concat([]) + trailer == prefix + trailer;
    ProbeOfTrailer(prefix, trailer);
  }

  /** Scanning a fault-free file made of prefix, the padded images bs and a
      trailer, from the end of prefix with index num, when the guard leaves room
      for all of them: it finds the images in order, each with its offset and
      bytes_used, and stops at the trailer, or at the guard when the last image
      took index 256. */
  lemma {:induction false} ScanOfLayout(img: Image, prefix: seq<Byte>, bs: seq<seq<Byte>>, trailer: seq<Byte>, num: Index)
    requires AllPadded(bs) && EndsScan(trailer) && num + |bs| <= MaxSegments + 1
    requires Shows(img, Device(prefix + Concat(bs) + trailer, {}, {}))
    ensures ScanFrom(img, |prefix|, num).segments == Expected(bs, |prefix|, num)
    ensures ScanFrom(img, |prefix|, num).stop == if num + |bs| <= MaxSegments then NoMoreSegments else TooManySegments
    decreases |bs|
  {
    var p := |prefix|;
    if bs == [] {
      if num <= MaxSegments {
        LayoutEnd(img, prefix, trailer);
      } else {
        assert img(p) == ProbeAt(Device(prefix + Concat(bs) + trailer, {}, {}), p) != SeekRefused;
      }
    } else {
      LayoutStep(img, prefix, bs, trailer);
      var used := UsedOf(bs[0]);
      var next := p + used + CalcPad(used);
      ScanOfLayout(img, prefix + bs[0], bs[1..], trailer, num + 1);
      var rest := ScanFrom(img, next, num + 1);
      var seg := Segment(num, p, used, CalcPad(used));
      assert ScanFrom(img, p, num) == Scan([seg] + rest.segments, rest.stop);
      assert Expected(bs, p, num) == [seg] + Expected(bs[1..], next, num + 1);
    }
  }

  /** With more images than the guard allows, the scan stops at the guard
      after the 256th. */
  lemma {:induction false} ScanOfLongLayout(img: Image, prefix: seq<Byte>, bs: seq<seq<Byte>>, trailer: seq<Byte>, num: Index)
    requires AllPadded(bs) && num + |bs| > MaxSegments + 1
    requires Shows(img, Device(prefix + Concat(bs) + trailer, {}, {}))
    ensures |ScanFrom(img, |prefix|, num).segments| == StepsLeft(num)
    ensures ScanFrom(img, |prefix|, num).stop == TooManySegments
    decreases |bs|
  {
    var p := |prefix|;
    if num > MaxSegments {
      assert img(p) == ProbeAt(Device(prefix + Concat(bs) + trailer, {}, {}), p) != SeekRefused;
    } else {
      LayoutStep(img, prefix, bs, trailer);
      var used := UsedOf(bs[0]);
      var next := p + used + CalcPad(used);
      ScanOfLongLayout(img, prefix + bs[0], bs[1..], trailer, num + 1);
      var rest := ScanFrom(img, next, num + 1);
      assert ScanFrom(img, p, num) == Scan([Segment(num, p, used, CalcPad(used))] + rest.segments, rest.stop);
    }
  }

  /** A file is the same with nothing before it. */
  lemma EmptyPrefix(c: seq<Byte>, t: seq<Byte>)
    ensures [] + c + t == c + t
  {
  }

  /** The scan of such a file from offset 0 has the number of images as its
      status, or -1 once there are 256 of them or more, since the guard trips at
      257. This is the walk's status for every command except `count` with a
      filter (WalkIsReportOfScan). */
  lemma StatusOfLayout(img: Image, bs: seq<seq<Byte>>, trailer: seq<Byte>)
    requires AllPadded(bs) && EndsScan(trailer)
    requires Shows(img, Device(Concat(bs) + trailer, {}, {}))
    ensures StatusOf(ScanFrom(img, 0, 1), 1) == if |bs| < MaxSegments then |bs| else -1
  {
    EmptyPrefix(Concat(bs), trailer);
    if |bs| <= MaxSegments {
      ScanOfLayout(img, [], bs, trailer, 1);
    } else {
      ScanOfLongLayout(img, [], bs, trailer, 1);
    }
  }

  /** `count` on such a file prints that status and nothing per image. */
  lemma CountOfLayout(img: Image, bs: seq<seq<Byte>>, trailer: seq<Byte>, block: bool)
    requires AllPadded(bs) && EndsScan(trailer)
    requires Shows(img, Device(Concat(bs) + trailer, {}, {}))
    ensures Walk(img, 0, 1, CmdCount, 0, block) == Walked(if |bs| < MaxSegments then |bs| else -1, [])
  {
    StatusOfLayout(img, bs, trailer);
    CountOfScan(img, block);
  }

  /** `count` without filter from the start of a file returns the status of its scan. */
  lemma CountOfScan(img: Image, block: bool)
    ensures Walk(img, 0, 1, CmdCount, 0, block) == Walked(StatusOf(ScanFrom(img, 0, 1), 1), [])
  {
    CountIsScan(img, 0, 1, 0, block);
  }

  /** `list` without filter on such a file with fewer than 256 images prints one
      line per image, and reports their number. */
  lemma ListOfLayout(img: Image, bs: seq<seq<Byte>>, trailer: seq<Byte>, block: bool)
    requires AllPadded(bs) && EndsScan(trailer) && |bs| < MaxSegments
    requires Shows(img, Device(Concat(bs) + trailer, {}, {}))
    ensures Walk(img, 0, 1, CmdList, 0, block) == Walked(|bs|, Report(Expected(bs, 0, 1), CmdList, 0, block))
  {
    EmptyPrefix(Concat(bs), trailer);
    ScanOfLayout(img, [], bs, trailer, 1);
    PrintStatusIsScan(img, 0, 1, CmdList, 0, block);
    PrintIsReportOfScan(img, 0, 1, CmdList, 0, block);
  }

  /** An empty file holds no image: `count` prints 0. */
  lemma EmptyFileCountsZero(block: bool)
    ensures Walk(ImageOf(Device([], {}, {})), 0, 1, CmdCount, 0, block) == Walked(0, [])
  {
    ImageOfShows(Device([], {}, {}));
    assert Concat([]) + [] == [];
    CountOfLayout(ImageOf(Device([], {}, {})), [], [], block);
  }

  /** A file of just the four magic bytes is one image: bytes_used lies past end
      of file, reads as 0, and the image is padded by a whole block. */
  lemma MagicOnlyFile()
    ensures ScanFrom(ImageOf(Device(MagicBytes, {}, {})), 0, 1) ==
              Scan([Segment(1, 0, 0, Align)], NoMoreSegments)
  {
    Pow256Widths();
    var dev := Device(MagicBytes, {}, {});
    var img := ImageOf(dev);
    assert dev.data[0..MagicSize] == dev.data;
    assert MagicAt(dev, 0) == SquashfsMagic;
    assert BytesUsedAt(dev, BytesUsedField) == 0;
    assert img(0) == Squashfs(0);
    assert MagicAt(dev, Align) == 0;
    assert img(Align) == NoMagic;
  }

  /** A file whose bytes_used field is cut short ends the walk with status 1:
      the same status as a file holding exactly one image. */
  lemma TruncatedUsedField(skipped: seq<Byte>, partial: seq<Byte>, block: bool)
    requires |skipped| == BytesUsedField - MagicSize && 0 < |partial| < BytesUsedSize
    ensures ScanFrom(ImageOf(Device(MagicBytes + skipped + partial, {}, {})), 0, 1) ==
              Scan([], UsedUnreadable)
    ensures Walk(ImageOf(Device(MagicBytes + skipped + partial, {}, {})), 0, 1, CmdCount, 0, block) ==
              Walked(1, [])
  {
    Pow256Widths();
    var magic := MagicBytes;
    var dev := Device(magic + skipped + partial, {}, {});
    var img := ImageOf(dev);
    assert dev.data[0..MagicSize] == magic;
    assert MagicAt(dev, 0) == SquashfsMagic;
    assert BytesUsedAt(dev, BytesUsedField) == -1;
    assert img(0) == UsedUnusable;
  }
}
