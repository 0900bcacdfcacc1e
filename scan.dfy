/** The walk seen as a scan of the file: the run of segments it discovers and
    why it stopped, and what a command prints for that run. */
module Scanning {
  import opened Alignment
  import opened Walker

  /** Why a scan of the image ended. */
  datatype Stop =
    | NoMoreSegments    // a position without the magic
    | SeekFailed        // lseek to a segment start refused
    | TooManySegments   // index MaxSegments + 1 reached
    | UsedSeekFailed    // lseek to bytes_used refused after a magic
    | UsedUnreadable    // bytes_used failed, short, or negative

  /** The segments a walk discovers, in order, and why it stopped. */
  datatype Scan = Scan(segments: seq<Segment>, stop: Stop)

  /** The segments starting at offset, numbered from num, whatever the command. */
  function ScanFrom(img: Image, offset: int, num: Index): (sc: Scan)
    ensures |sc.segments| <= StepsLeft(num)
    decreases StepsLeft(num)
  {
    var probe := img(offset);
    if probe.SeekRefused? then Scan([], SeekFailed)
    else if num > MaxSegments then Scan([], TooManySegments)
    else if probe.NoMagic? then Scan([], NoMoreSegments)
    else if probe.UsedSeekRefused? then Scan([], UsedSeekFailed)
    else if probe.UsedUnusable? then Scan([], UsedUnreadable)
    else
      var used := probe.used;
      var pad := CalcPad(used);
      var rest := ScanFrom(img, offset + used + pad, num + 1);
      Scan([Segment(num, offset, used, pad)] + rest.segments, rest.stop)
  }

  /** The k-th segment has index num + k and is padded by calc_sqfs_pad. */
  predicate Numbered(segs: seq<Segment>, num: int)
  {
    forall k :: 0 <= k < |segs| ==> segs[k].index == num + k && segs[k].WellFormed()
  }

  /** A scan from num numbers its segments from num, each padded by calc_sqfs_pad. */
  lemma {:induction false} ScanNumbersSegments(img: Image, offset: int, num: Index)
    ensures Numbered(ScanFrom(img, offset, num).segments, num)
    decreases StepsLeft(num)
  {
    var probe := img(offset);
    if !probe.SeekRefused? && num <= MaxSegments && probe.Squashfs? {
      var used := probe.used;
      var pad := CalcPad(used);
      ScanNumbersSegments(img, offset + used + pad, num + 1);
      var rest := ScanFrom(img, offset + used + pad, num + 1).segments;
      var segs := ScanFrom(img, offset, num).segments;
      assert segs == [Segment(num, offset, used, pad)] + rest;
      forall k | 0 <= k < |segs|
        ensures segs[k].index == num + k && segs[k].WellFormed()
      {
        if k > 0 {
          assert segs[k] == rest[k - 1];
        }
      }
    }
  }

  /** The status a scan started at index num ends with. It is the status
      foreach_sqfs returns for every command except `count` with a filter
      (WalkIsReportOfScan). */
  function StatusOf(sc: Scan, num: Index): (status: int)
    ensures status < 0 <==> sc.stop == SeekFailed || sc.stop == TooManySegments
    ensures status < 0 ==> status == -1
    ensures sc.stop == UsedSeekFailed || sc.stop == UsedUnreadable ==> status == 1
    ensures sc.stop == NoMoreSegments ==> status == num - 1 + |sc.segments|
  {
    match sc.stop
    case NoMoreSegments => num + |sc.segments| - 1
    case SeekFailed => -1
    case TooManySegments => -1
    case UsedSeekFailed => 1
    case UsedUnreadable => 1
  }

  /** What a walk prints for the discovered segments: each selected one, in order. */
  function Report(segs: seq<Segment>, cmd: Cmd, filter: int, block: bool): seq<Emission>
  {
    if segs == [] then []
    else Selected(cmd, filter, block, segs[0]) + Report(segs[1..], cmd, filter, block)
  }

  /** One line per segment at most; exactly one each for a printing command
      without filter; none for `count` or an unknown command. */
  lemma {:induction false} ReportLength(segs: seq<Segment>, cmd: Cmd, filter: int, block: bool)
    ensures var out := Report(segs, cmd, filter, block);
            |out| <= |segs| &&
            (cmd == CmdCount || cmd == CmdError ==> out == []) &&
            (filter == 0 && cmd != CmdCount && cmd != CmdError ==> |out| == |segs|)
  {
    if segs != [] {
      EmitSpec(cmd, block, segs[0]);
      ReportLength(segs[1..], cmd, filter, block);
    }
  }

  /** A filter that names none of the segments prints nothing. */
  lemma {:induction false} ReportNoMatch(segs: seq<Segment>, cmd: Cmd, filter: int, block: bool)
    requires filter != 0
    requires forall k :: 0 <= k < |segs| ==> segs[k].index != filter
    ensures Report(segs, cmd, filter, block) == []
  {
    if segs != [] {
      assert segs[0].index != filter;
      forall k | 0 <= k < |segs| - 1
        ensures segs[1..][k].index != filter
      {
        assert segs[1..][k] == segs[k + 1];
      }
      ReportNoMatch(segs[1..], cmd, filter, block);
    }
  }

  /** Dropping the first of a numbered run leaves a run numbered from the next index. */
  lemma NumberedTail(segs: seq<Segment>, num: int)
    requires segs != [] && Numbered(segs, num)
    ensures Numbered(segs[1..], num + 1)
  {
    forall k | 0 <= k < |segs| - 1
      ensures segs[1..][k].index == num + 1 + k && segs[1..][k].WellFormed()
    {
      assert segs[1..][k] == segs[k + 1];
    }
  }

  /** With consecutive indices from num, a filter inside the run prints exactly
      the lines of the segment it names. */
  lemma {:induction false} ReportFilterPicks(segs: seq<Segment>, num: int, cmd: Cmd, filter: int, block: bool)
    requires Numbered(segs, num)
    requires filter != 0 && num <= filter < num + |segs|
    ensures Report(segs, cmd, filter, block) == Emit(cmd, block, segs[filter - num])
  {
    NumberedTail(segs, num);
    var tail := segs[1..];
    assert Report(segs, cmd, filter, block) ==
           Selected(cmd, filter, block, segs[0]) + Report(tail, cmd, filter, block);
    assert segs[0].index == num;
    if filter == num {
      assert forall k :: 0 <= k < |tail| ==> tail[k].index == num + 1 + k;
      ReportNoMatch(tail, cmd, filter, block);
      assert Report(segs, cmd, filter, block) == Emit(cmd, block, segs[0]) + [];
    } else {
      ReportFilterPicks(tail, num + 1, cmd, filter, block);
      assert tail[filter - (num + 1)] == segs[filter - num];
      assert Report(segs, cmd, filter, block) == [] + Emit(cmd, block, segs[filter - num]);
    }
  }

  /** The walk is the scan plus its report. A filter with `count` is refused at the
      first segment found, with status 1 and nothing printed; an image without
      segments is counted as usual. */
  lemma WalkIsReportOfScan(img: Image, offset: int, num: Index, cmd: Cmd, filter: int, block: bool)
    ensures var w, sc := Walk(img, offset, num, cmd, filter, block), ScanFrom(img, offset, num);
            if cmd == CmdCount && filter != 0 then
              w.out == [] && w.status == (if sc.segments != [] then 1 else StatusOf(sc, num))
            else
              w.status == StatusOf(sc, num) && w.out == Report(sc.segments, cmd, filter, block)
  {
    if cmd == CmdCount {
      CountIsScan(img, offset, num, filter, block);
      if filter == 0 {
        ReportLength(ScanFrom(img, offset, num).segments, cmd, filter, block);
      }
    } else {
      PrintStatusIsScan(img, offset, num, cmd, filter, block);
      PrintIsReportOfScan(img, offset, num, cmd, filter, block);
    }
  }

  /** The `count` half of WalkIsReportOfScan. */
  lemma {:induction false} CountIsScan(img: Image, offset: int, num: Index, filter: int, block: bool)
    ensures Walk(img, offset, num, CmdCount, filter, block).out == []
    ensures Walk(img, offset, num, CmdCount, filter, block).status ==
              if filter != 0 && ScanFrom(img, offset, num).segments != [] then 1
              else StatusOf(ScanFrom(img, offset, num), num)
    decreases StepsLeft(num)
  {
    var probe := img(offset);
    if !probe.SeekRefused? && num <= MaxSegments && probe.Squashfs? && filter == 0 {
      CountIsScan(img, offset + probe.used + CalcPad(probe.used), num + 1, filter, block);
    }
  }

  /** The status part of the printing half of WalkIsReportOfScan. */
  lemma {:induction false} PrintStatusIsScan(img: Image, offset: int, num: Index, cmd: Cmd, filter: int, block: bool)
    requires cmd != CmdCount
    ensures Walk(img, offset, num, cmd, filter, block).status == StatusOf(ScanFrom(img, offset, num), num)
    decreases StepsLeft(num)
  {
    var probe := img(offset);
    if !probe.SeekRefused? && num <= MaxSegments && probe.Squashfs? {
      var next := offset + probe.used + CalcPad(probe.used);
      PrintStatusIsScan(img, next, num + 1, cmd, filter, block);
    }
  }

  /** The output part of the printing half of WalkIsReportOfScan. */
  lemma {:induction false} PrintIsReportOfScan(img: Image, offset: int, num: Index, cmd: Cmd, filter: int, block: bool)
    requires cmd != CmdCount
    ensures Walk(img, offset, num, cmd, filter, block).out == Report(ScanFrom(img, offset, num).segments, cmd, filter, block)
    decreases StepsLeft(num)
  {
    var probe := img(offset);
    if !probe.SeekRefused? && num <= MaxSegments && probe.Squashfs? {
      var used := probe.used;
      var pad := CalcPad(used);
      PrintIsReportOfScan(img, offset + used + pad, num + 1, cmd, filter, block);
      var seg := Segment(num, offset, used, pad);
      var rest := ScanFrom(img, offset + used + pad, num + 1).segments;
      assert ScanFrom(img, offset, num).segments == [seg] + rest;
      assert ([seg] + rest)[1..] == rest;
    }
  }

  /** The total padded size of a run of segments. */
  function SizeSum(segs: seq<Segment>): nat
  {
    if segs == [] then 0 else segs[0].Size() + SizeSum(segs[1..])
  }

  /** Each segment begins where the padded sizes of those before it, laid out
      from offset, end. */
  predicate TilesFrom(segs: seq<Segment>, offset: int)
  {
    forall k :: 0 <= k < |segs| ==> segs[k].offset == offset + SizeSum(segs[..k])
  }

  /** The segments of a scan tile the file from its start offset. */
  lemma {:induction false} ScanTiles(img: Image, offset: int, num: Index)
    ensures TilesFrom(ScanFrom(img, offset, num).segments, offset)
    decreases StepsLeft(num)
  {
    var probe := img(offset);
    if !probe.SeekRefused? && num <= MaxSegments && probe.Squashfs? {
      var used := probe.used;
      var pad := CalcPad(used);
      var next := offset + used + pad;
      ScanTiles(img, next, num + 1);
      var seg := Segment(num, offset, used, pad);
      var rest := ScanFrom(img, next, num + 1).segments;
      var segs := ScanFrom(img, offset, num).segments;
      assert segs == [seg] + rest;
      forall k | 0 <= k < |segs|
        ensures segs[k].offset == offset + SizeSum(segs[..k])
      {
        if k == 0 {
          assert segs[..k] == [];
        } else {
          assert segs[..k][0] == seg;
          assert segs[..k][1..] == rest[..k - 1];
          assert SizeSum(segs[..k]) == seg.Size() + SizeSum(rest[..k - 1]);
          assert segs[k] == rest[k - 1];
          assert rest[k - 1].offset == next + SizeSum(rest[..k - 1]);
        }
      }
    }
  }

  /** Each segment of a run is an image at its own offset declaring its bytes_used. */
  predicate AllFound(img: Image, segs: seq<Segment>)
  {
    forall k :: 0 <= k < |segs| ==> img(segs[k].offset) == Squashfs(segs[k].used)
  }

  /** Every segment a scan reports is an image found at its offset, with the
      bytes_used read there. */
  lemma {:induction false} ScanFindsImages(img: Image, offset: int, num: Index)
    ensures AllFound(img, ScanFrom(img, offset, num).segments)
    decreases StepsLeft(num)
  {
    var probe := img(offset);
    if !probe.SeekRefused? && num <= MaxSegments && probe.Squashfs? {
      var used := probe.used;
      var pad := CalcPad(used);
      ScanFindsImages(img, offset + used + pad, num + 1);
      var rest := ScanFrom(img, offset + used + pad, num + 1).segments;
      var segs := ScanFrom(img, offset, num).segments;
      assert segs == [Segment(num, offset, used, pad)] + rest;
      forall k | 0 <= k < |segs|
        ensures img(segs[k].offset) == Squashfs(segs[k].used)
      {
        if k > 0 {
          assert segs[k] == rest[k - 1];
        }
      }
    }
  }

  /** Why a scan stops at a position holding probe, with num the index an image
      there would take: everything but an image the guard still admits ends it,
      in the order foreach_sqfs checks. */
  function StopFor(probe: Probe, num: int): Stop
    requires !(probe.Squashfs? && num <= MaxSegments)
  {
    if probe.SeekRefused? then SeekFailed
    else if num > MaxSegments then TooManySegments
    else if probe.NoMagic? then NoMoreSegments
    else if probe.UsedSeekRefused? then UsedSeekFailed
    else UsedUnreadable
  }

  /** A scan stops right after its run: the position past the last segment's
      pad holds no image the guard admits, and why the scan stopped is what that
      position holds, or the guard. */
  lemma {:induction false} ScanStopsAfterRun(img: Image, offset: int, num: Index)
    ensures img(offset + SizeSum(ScanFrom(img, offset, num).segments)).Squashfs? ==>
              num + |ScanFrom(img, offset, num).segments| > MaxSegments
    ensures ScanFrom(img, offset, num).stop ==
              StopFor(img(offset + SizeSum(ScanFrom(img, offset, num).segments)), num + |ScanFrom(img, offset, num).segments|)
    decreases StepsLeft(num)
  {
    var probe := img(offset);
    if !probe.SeekRefused? && num <= MaxSegments && probe.Squashfs? {
      var used := probe.used;
      var pad := CalcPad(used);
      var next := offset + used + pad;
      ScanStopsAfterRun(img, next, num + 1);
      var seg := Segment(num, offset, used, pad);
      var rest := ScanFrom(img, next, num + 1).segments;
      var segs := ScanFrom(img, offset, num).segments;
      assert segs == [seg] + rest;
      assert segs[1..] == rest;
      assert offset + SizeSum(segs) == next + SizeSum(rest);
    }
  }

  /** Adding one more segment adds its padded size. */
  lemma {:induction false} SizeSumSnoc(segs: seq<Segment>, k: nat)
    requires k < |segs|
    ensures SizeSum(segs[..k + 1]) == SizeSum(segs[..k]) + segs[k].Size()
  {
    if k > 0 {
      SizeSumSnoc(segs[1..], k - 1);
      assert segs[..k + 1][1..] == segs[1..][..k];
      assert segs[..k][1..] == segs[1..][..k - 1];
    }
  }

  /** Well-formed segments have a padded size that is a whole number of blocks. */
  lemma {:induction false} SizeSumAligned(segs: seq<Segment>)
    requires forall k :: 0 <= k < |segs| ==> segs[k].WellFormed()
    ensures SizeSum(segs) % Align == 0
  {
    if segs != [] {
      assert forall k :: 0 <= k < |segs| - 1 ==> segs[1..][k] == segs[k + 1];
      SizeSumAligned(segs[1..]);
      var a, b := segs[0].Size(), SizeSum(segs[1..]);
      assert a == Align * (a / Align) && b == Align * (b / Align);
      assert a + b == Align * (a / Align + b / Align);
    }
  }

  /** Every segment starts on a block boundary. */
  predicate StartsOnBlocks(segs: seq<Segment>)
  {
    forall k :: 0 <= k < |segs| ==> segs[k].offset >= 0 && segs[k].offset % Align == 0
  }

  /** Each segment ends exactly where the next one begins. */
  predicate Adjacent(segs: seq<Segment>)
  {
    forall k :: 0 <= k < |segs| - 1 ==> segs[k + 1].offset == segs[k].offset + segs[k].Size()
  }

  /** Offsets strictly increase along the run. */
  predicate Increasing(segs: seq<Segment>)
  {
    forall i, j :: 0 <= i < j < |segs| ==> segs[i].offset < segs[j].offset
  }

  /** Walking an image from its start: at most 256 segments are discovered,
      every segment starts on a block boundary, the next one starts exactly its
      padded size after it, and offsets strictly increase. */
  lemma ScanFromStart(img: Image)
    ensures |ScanFrom(img, 0, 1).segments| <= MaxSegments
    ensures StartsOnBlocks(ScanFrom(img, 0, 1).segments)
    ensures Adjacent(ScanFrom(img, 0, 1).segments)
    ensures Increasing(ScanFrom(img, 0, 1).segments)
  {
    var segs := ScanFrom(img, 0, 1).segments;
    ScanTiles(img, 0, 1);
    ScanNumbersSegments(img, 0, 1);
    StartsAligned(segs);
    AdjacentSegments(segs);
    OffsetsIncrease(segs);
  }

  /** Segments that tile from 0 and are well formed all start on a block boundary. */
  lemma StartsAligned(segs: seq<Segment>)
    requires TilesFrom(segs, 0) && Numbered(segs, 1)
    ensures StartsOnBlocks(segs)
  {
    forall k | 0 <= k < |segs|
      ensures segs[k].offset >= 0 && segs[k].offset % Align == 0
    {
      assert forall i :: 0 <= i < k ==> segs[..k][i] == segs[i];
      SizeSumAligned(segs[..k]);
    }
  }

  /** Segments that tile from 0 are adjacent: each ends where the next begins. */
  lemma AdjacentSegments(segs: seq<Segment>)
    requires TilesFrom(segs, 0)
    ensures Adjacent(segs)
  {
    forall k | 0 <= k < |segs| - 1
      ensures segs[k + 1].offset == segs[k].offset + segs[k].Size()
    {
      SizeSumSnoc(segs, k);
    }
  }

  /** Adjacent well-formed segments have strictly increasing offsets. */
  lemma OffsetsIncrease(segs: seq<Segment>)
    requires Adjacent(segs) && Numbered(segs, 1)
    ensures Increasing(segs)
  {
    forall i, j | 0 <= i < j < |segs|
      ensures segs[i].offset < segs[j].offset
    {
      OffsetGrows(segs, i, j);
    }
  }

  /** Offsets that grow by positive sizes from one segment to the next grow along the whole run. */
  lemma {:induction false} OffsetGrows(segs: seq<Segment>, i: nat, j: nat)
    requires i < j < |segs|
    requires Adjacent(segs) && Numbered(segs, 1)
    ensures segs[i].offset < segs[j].offset
    decreases j - i
  {
    assert segs[i].WellFormed();
    if i + 1 < j {
      OffsetGrows(segs, i + 1, j);
    }
  }

  /** -n with a printing command and an index among the segments found prints
      exactly that segment's lines. */
  lemma FilterInside(img: Image, cmd: Cmd, filter: int, block: bool)
    requires cmd != CmdCount
    requires 1 <= filter <= |ScanFrom(img, 0, 1).segments|
    ensures Walk(img, 0, 1, cmd, filter, block).out == Emit(cmd, block, ScanFrom(img, 0, 1).segments[filter - 1])
  {
    ScanNumbersSegments(img, 0, 1);
    PrintIsReportOfScan(img, 0, 1, cmd, filter, block);
    ReportFilterPicks(ScanFrom(img, 0, 1).segments, 1, cmd, filter, block);
  }

  /** -n with an index outside the segments found prints nothing. */
  lemma FilterOutside(img: Image, cmd: Cmd, filter: int, block: bool)
    requires filter != 0
    requires filter < 1 || filter > |ScanFrom(img, 0, 1).segments|
    ensures Walk(img, 0, 1, cmd, filter, block).out == []
  {
    var segs := ScanFrom(img, 0, 1).segments;
    if cmd == CmdCount {
      CountIsScan(img, 0, 1, filter, block);
    } else {
      ScanNumbersSegments(img, 0, 1);
      assert forall k :: 0 <= k < |segs| ==> segs[k].index == 1 + k;
      PrintIsReportOfScan(img, 0, 1, cmd, filter, block);
      ReportNoMatch(segs, cmd, filter, block);
    }
  }
}
