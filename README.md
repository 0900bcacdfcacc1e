# sqsq-image: the squashfs segment walker

`sqsq-image` inspects a flat image file made of squashfs 4.0 filesystems laid
back to back. Each filesystem is padded to the next 4096-byte boundary. The
images come in pairs: a filesystem, then its meta image. The tool runs one
command on the file:

- `list` (the default) shows one line per segment;
- `offset`, `size` and `used` print one number per segment;
- `count` prints how many segments there are.

`-n NUMBER` restricts the output to one segment. `-b` gives the numbers in
4096-byte blocks.

This Dafny project models the core of `sqsq-image.c`:

- **Header decoding.** `hdr_read_magic` reads the little-endian 32-bit magic.
  `hdr_read_bytes_used` reads the signed little-endian 64-bit `bytes_used` at
  byte 40. They are modelled twice. `Superblock.MagicAt` and
  `Superblock.BytesUsedAt` are functions of the file and a position.
  `Superblock.ReadMagic` and `Superblock.ReadBytesUsed` work on a file
  descriptor (`Posix.FileDesc`, a class whose `pos` moves with each `lseek`
  and `read`).
- **Padding.** `calc_sqfs_pad` is `Alignment.CalcPad`.
- **The walk.** `foreach_sqfs` is modelled twice:
  - `Walker.Walk` is a pure recursive function. It gives the status the walk
    returns and the lines it prints.
  - `Walker.ForEachSegment` is a recursive method that seeks and reads
    through a `FileDesc`. It is proved to give exactly what `Walk` gives.

  `Scanning.ScanFrom` is the walk with its output taken away: the run of
  segments it discovers and why it stopped. `Scanning.WalkIsReportOfScan`
  splits every walk into that scan plus what the command prints for it. The
  layout of a file built from padded images is described independently by
  `Layout.Expected`, and `Layout.ScanOfLayout` proves the scan finds it. The
  properties of the walk are proved about the scan: numbering, tiling, block
  alignment, increasing offsets, the filter, and the status.
- **Output.** The label and block arithmetic of `print_sqfs_info` and the
  switch over the commands are `Walker.SegmentInfo` and `Walker.Emit`. Printed
  lines are abstract `Emission` records, not text.
- **The command line and the result.** `parse_cmd`, the positional argument
  rule, and the result and exit logic of `main` are in module `Cli`.
  `Cli.RunMain` is a method that opens a file descriptor and calls
  `ForEachSegment`. It is proved equal to the function `Cli.Run`.
- **Layouts.** Module `Layout` builds files from padded images back to back.
  It proves what the tool reports for them: the count, the list, the empty
  file, a file holding only a magic, and a truncated `bytes_used`.

A file is a `Posix.Device`: its bytes, plus the positions at which the
operating system refuses an `lseek` or a `read`. `lseek` refuses negative
targets and allows positions past the end of file. A `read` returns as many of
the requested bytes as remain.

## Model

| member | source | states |
|---|---|---|
| Bytes.LittleEndian | sqsq-image.c:55-70 | The value of the bytes read least significant first is below 256^n for n bytes. |
| Bytes.ToLittleEndian | sqsq-image.c:67-70 | Encoding v in n bytes gives n bytes whose little-endian value is v. |
| Bytes.ToLittleEndianOfLittleEndian | sqsq-image.c:67-70 | Encoding the decoded value gives the same bytes back (one byte pattern per value). |
| Bytes.LittleEndianInjective | sqsq-image.c:67-70 | Two fields of one width with the same value hold the same bytes. |
| Bytes.AsInt64 | sqsq-image.c:75-93 | The `long long` read from a 64-bit pattern is in the signed 64-bit range. It is congruent to the pattern modulo 2^64 and non-negative exactly when the pattern is below 2^63. |
| Posix.ReadAt | sqsq-image.c:55 | A read fails exactly at a faulting position. Otherwise it returns at most k bytes: the file's own bytes from the position, all k or all that remain, and none at or past end of file. |
| Posix.FileDesc.constructor | sqsq-image.c:266 | A file opened on a device is positioned at 0. |
| Posix.FileDesc.Lseek | sqsq-image.c:132 | An absolute or relative seek returns the new position and moves there. A refused target returns -1 and leaves the position unchanged. |
| Posix.FileDesc.Read | sqsq-image.c:55 | Returns the count (-1 on failure) and the bytes `ReadAt` gives, and advances the position by that count. |
| Alignment.CalcPad | sqsq-image.c:96-103 | The pad is in [1, 4096] and ends the image on a block boundary. An image already on a boundary gets a whole block. |
| Alignment.PadIsLeastStepToBoundary | sqsq-image.c:96-103 | No shorter non-empty pad reaches a boundary. |
| Alignment.PaddedBlocks | sqsq-image.c:178-180 | The padded size is one block more than the whole blocks of `used`. |
| Superblock.MagicAt | sqsq-image.c:50-71 | The magic is the little-endian value of the 4 bytes at the position. It is 0 when the read fails, meets end of file or is short. |
| Superblock.BytesUsedAt | sqsq-image.c:73-94 | bytes_used is in the signed 64-bit range. It is -1 on a failed or short read and 0 on a read at end of file. Otherwise it is the signed value of the 8 bytes. |
| Superblock.ReadMagic | sqsq-image.c:50-71 | On a file descriptor, gives `MagicAt` of its position and advances by the bytes read (all four whenever a magic was seen). |
| Superblock.ReadBytesUsed | sqsq-image.c:73-94 | On a file descriptor, gives `BytesUsedAt` of its position and advances by the bytes read. |
| Superblock.MagicBytesEncodeMagic | sqsq-image.c:146 | The four bytes 68 73 71 73 ("hsqs") decode little-endian to the magic, and they are what encoding the magic in four bytes gives. |
| Superblock.EncodeHeader | sqsq-image.c:35 | A written header is 48 bytes, with the magic at 0 and bytes_used at 40. |
| Superblock.HeaderRoundTrip | sqsq-image.c:143-154 | On a device that does not fault on a read at the offset or at offset+40, reading back a written header gives the magic and the declared bytes_used, whatever the other fields hold. |
| Superblock.NotMagicBytes | sqsq-image.c:146-147 | Four bytes other than the magic's pattern do not read as the magic. |
| Walker.ProbeAt | sqsq-image.c:132-158 | Probing an offset finds a refused seek exactly when lseek refuses the offset. It finds no magic exactly when the seek succeeds and the magic read is anything but the squashfs magic. An image it finds has the magic at a non-negative offset and the bytes_used read at offset+40. |
| Walker.ProbeFindsSuperblock | sqsq-image.c:143-158 | On a device that does not fault on a read at the offset or at offset+40, a position holds an image of `used` bytes if and only if both seeks succeed, the magic bytes are there, and bytes_used is past end of file with used 0, or is 8 bytes holding a value below 2^63. |
| Walker.ImagesStartInFile | sqsq-image.c:132-135 | An image is only found at a position lseek accepts. |
| Walker.SegmentInfo | sqsq-image.c:105-122 | The list line of print_sqfs_info carries the segment's index and whether -b is in force. Its filesystem number, meta mark and amounts are stated by Walker.SegmentInfoSpec. |
| Walker.SegmentInfoSpec | sqsq-image.c:105-122 | The list line of segment num names filesystem (num+1)/2 and marks even num as meta. With -b it shows the start block and the whole used blocks, shown as 1 when less than one block. Without -b it shows bytes_used and the offset. |
| Walker.MainAndMetaPair | sqsq-image.c:109-114 | Indices 2k-1 and 2k are the main and the meta image of filesystem k. |
| Walker.Emit | sqsq-image.c:170-185 | The command switch prints at most one line per segment. What each command prints is stated by Walker.EmitSpec and Walker.ListShowsUsed. |
| Walker.EmitSpec | sqsq-image.c:169-186 | One line at most per segment, none exactly for `count` and the unknown command. `list` prints the print_sqfs_info line of the segment's bytes_used, offset and index. `offset` prints its offset, `size` its padded size used+pad and `used` its bytes_used, each divided by 4096 with -b. |
| Walker.ListShowsUsed | sqsq-image.c:116-120 | The `list` line shows bytes_used, not the padded size: in bytes without -b, and with -b in whole used blocks, shown as 1 below one block. |
| Walker.BlockModeDividesByteValue | sqsq-image.c:174-184 | With -b, `offset`, `size` and `used` print the byte value divided by 4096. |
| Walker.SizeInBlocks | sqsq-image.c:178-180 | `size -b` of a segment is its whole used blocks plus one. |
| Walker.Selected | sqsq-image.c:169 | A segment prints at most one line, and none when a filter is given that is not its index. |
| Walker.Walk | sqsq-image.c:124-190 | The status is -1, 1, or between num-1 and 255. Past the guard the walk returns -1 and prints nothing. |
| Walker.WalkPastSegment | sqsq-image.c:161-189 | Past a found segment, the walk is that segment's lines followed by the walk from the next padded boundary with the next index. |
| Walker.ReadSuperblock | sqsq-image.c:143-158 | Reading the magic, skipping to bytes_used and reading it on a file descriptor finds what `ProbeAt` says of the offset. |
| Walker.ForEachSegment | sqsq-image.c:124-190 | The walk over a file descriptor returns the status and lines of `Walk`. |
| Scanning.ScanFrom | sqsq-image.c:124-190 | A scan from index num finds at most 257-num segments. |
| Scanning.ScanNumbersSegments | sqsq-image.c:159-189 | The k-th segment found has index num+k and the pad of calc_sqfs_pad. |
| Scanning.StatusOf | sqsq-image.c:132-157 | The status is negative, and then -1, exactly when a seek to a segment failed or the guard tripped. It is 1 when the seek to bytes_used or its read failed, and num-1 plus the segments found when the scan met a position without the magic. |
| Scanning.ScanFindsImages | sqsq-image.c:137-158 | Every segment a scan reports lies where an image was found, at its own offset, and carries the bytes_used read there. |
| Scanning.ScanStopsAfterRun | sqsq-image.c:124-190 | The position after the last segment's pad holds no image the 256-segment guard still admits, and the scan's stop is what that position holds (seek refused, guard, no magic, bytes_used seek or read failing) in the order the loop checks them. |
| Scanning.ReportLength | sqsq-image.c:161-186 | At most one line per segment. `count` and the unknown command print none. A printing command without a filter prints one per segment. |
| Scanning.ReportNoMatch | sqsq-image.c:169 | A filter naming none of the segments prints nothing. |
| Scanning.ReportFilterPicks | sqsq-image.c:169 | A filter inside a consecutively numbered run prints exactly the lines of the segment it names. |
| Scanning.WalkIsReportOfScan | sqsq-image.c:124-190 | In general the status follows from why the scan stopped: num-1 plus the segments for no magic, -1 for a refused seek or the guard, 1 after a magic, and the lines are the report of the scan. With `count` and a filter, nothing is printed and the status is 1 as soon as one segment exists. |
| Scanning.CountIsScan | sqsq-image.c:161-167 | `count` prints nothing per segment. Its status is 1 with a filter and a segment found, otherwise the scan's status. |
| Scanning.PrintStatusIsScan | sqsq-image.c:146-147 | A printing command returns the status that follows from why the scan stopped. |
| Scanning.PrintIsReportOfScan | sqsq-image.c:169-189 | A printing command prints the report of the scanned segments, in order. |
| Scanning.ScanTiles | sqsq-image.c:189 | Each segment starts at the start offset plus the padded sizes of those before it. |
| Scanning.SizeSumSnoc | sqsq-image.c:189 | One more segment adds its padded size to the total. |
| Scanning.SizeSumAligned | sqsq-image.c:159-189 | The total padded size is a whole number of blocks. |
| Scanning.ScanFromStart | sqsq-image.c:124-190 | A walk from offset 0 finds at most 256 segments. Each starts on a block boundary, the next starts exactly its padded size after it, and offsets strictly increase. |
| Scanning.StartsAligned | sqsq-image.c:189 | Segments tiling from 0 all start on a block boundary. |
| Scanning.AdjacentSegments | sqsq-image.c:189 | Segments tiling from 0 end where the next begins. |
| Scanning.OffsetsIncrease | sqsq-image.c:189 | Adjacent padded segments have strictly increasing offsets. |
| Scanning.OffsetGrows | sqsq-image.c:189 | Any earlier segment of an adjacent run starts before any later one. |
| Scanning.FilterInside | sqsq-image.c:169 | `-n` with an index of a found segment prints exactly that segment's lines. |
| Scanning.FilterOutside | sqsq-image.c:169 | `-n` with an index of no found segment prints nothing. |
| Layout.ProbeOfPadded | sqsq-image.c:143-158 | A padded image in a fault-free file is found with its bytes_used. |
| Layout.ProbeOfTrailer | sqsq-image.c:143-147 | Bytes too short for a magic, or not the magic, end the walk. |
| Layout.ScanOfLayout | sqsq-image.c:124-190 | Padded images back to back are found in order with their offsets and bytes_used. The scan stops at the trailer, or at the guard when the last took index 256. |
| Layout.ScanOfLongLayout | sqsq-image.c:137-141 | With more images than the guard allows, the scan stops at the guard after index 256. |
| Layout.StatusOfLayout | sqsq-image.c:137-147 | Padded images back to back: the scan from offset 0 has their number as status, or -1 once there are 256 or more; this is the walk's status for every command except `count` with a filter (`WalkIsReportOfScan`). |
| Layout.CountOfLayout | sqsq-image.c:272-278 | `count` on padded images back to back returns their number, or -1 once there are 256 or more. |
| Layout.CountOfScan | sqsq-image.c:161-167 | `count` without a filter from offset 0 returns the status of the scan and prints nothing per segment. |
| Layout.ListOfLayout | sqsq-image.c:272-280 | `list` on fewer than 256 padded images prints one line per image and returns their number. |
| Layout.EmptyFileCountsZero | sqsq-image.c:143-147 | An empty file holds no segment: `count` returns 0. |
| Layout.MagicOnlyFile | sqsq-image.c:83-84 | A file of just the magic is one segment of 0 bytes padded by a whole block. bytes_used past end of file reads as 0. |
| Layout.TruncatedUsedField | sqsq-image.c:154-158 | A bytes_used field cut short ends the walk with status 1. |
| Cli.ParseCmd | sqsq-image.c:210-224 | A word parses to the command it names. Any other word gives the error value. |
| Cli.ParseCmdOfCommandWord | sqsq-image.c:210-224 | Every command word parses back to its command. |
| Cli.ParsePositional | sqsq-image.c:251-264 | No word is a usage error. One word is a file to `list`. With two or more, the first is the command and the second the file, and an unknown first word is refused. |
| Cli.ParsePositionalOfCommand | sqsq-image.c:251-259 | A command word, a file and any further words inspect that file with that command. |
| Cli.ListIsDefault | sqsq-image.c:260-261 | A lone file name runs exactly as `list` with that file. |
| Cli.ExitStatus | sqsq-image.c:285 | The exit status is 0 or 1, and 0 exactly when the walk returned 2 or more. |
| Cli.Finish | sqsq-image.c:272-285 | After the walk, main reports a search error on a negative status. Otherwise it prints the count for `count`, or the "Found" line for `list` without a filter. |
| Cli.Run | sqsq-image.c:251-285 | The exit status is 0 or 1. Without a file to inspect it is 1, with no segment line and no count. No word at all gives the usage text, and an unknown command word the invalid-operation message naming it. A file that does not open gives 1 and the open error. |
| Cli.RunMain | sqsq-image.c:251-285 | Opening the file and walking it through a file descriptor gives the outcome of `Run`. |
| Cli.ExitZeroIff | sqsq-image.c:251-285 | The program exits 0 exactly when a command runs on a file that opens, the scan from offset 0 ends normally after two segments or more, and `count` was not given a filter. |
| Cli.CountPrintsSegments | sqsq-image.c:277-278 | `count` on a file whose scan ends normally prints the number of segments and nothing per segment. |

## Left out

- Option parsing with getopt (`-h`, `-b`, `-n` and `atoi` of its argument) is not modelled. `Cli.Run` takes the resulting filter and block flag and the words after the options. The global `block` flag is a parameter throughout.
- The text of the messages on standard output and standard error is not modelled. The usage text and `perror` are left out, and printed lines are abstract `Emission` records. The diagnostics `foreach_sqfs` and the header readers print on failure are left out altogether. Main's own messages are the `Cli.Notice` values.
- `close` is left out, because its result is ignored.
- `open` is a lookup in a map from names to devices. A name that is not there is a failed open.
- Host byte order (`__bswap_32` and `__bswap_64` on big-endian hosts) is not modelled. The decode is little-endian directly, which is what both branches compute.
- Integers are unbounded. `off_t` overflow of `offset + used + pad` for huge bytes_used is not modelled, and neither is the `unsigned int` of the pad (always at most 4096).
- A `read` returns everything requested that remains in the file. Short reads in the middle of a file, which POSIX allows, are not modelled.
- Walker.ReadSuperblock and Walker.ForEachSegment do not state where the file position is left afterwards; main only closes the file after the walk.
- Walker.ForEachSegment takes a ghost parameter describing what probing each offset of the file finds. It is used only in the proof.
- The `count` refusal of a filter (line 163) happens only when the walk reaches a segment it would count. An image without any segment counts 0 with a filter given. The model follows the code.
- An image of exactly 256 segments makes the walk return -1 and exit 1, because the guard trips at index 257 before looking for a 257th magic. The model follows the code (Layout.CountOfLayout).
