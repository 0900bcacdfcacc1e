/** Padding of each squashfs image up to the 4096-byte boundary (calc_sqfs_pad). */
module Alignment {

  /** SQFS_ALIGN: every image in the flat file is padded to a multiple of this. */
  const Align: nat := 4096

  /** calc_sqfs_pad: the pad after an image of used bytes. It is never zero: an
      image that already ends on a boundary is followed by one whole empty block. */
  function CalcPad(used: nat): (pad: nat)
    ensures 1 <= pad <= Align
    ensures (used + pad) % Align == 0
    ensures used % Align == 0 ==> pad == Align
  {
    var tail := used % Align;
    assert used == Align * (used / Align) + tail;
    assert used + (Align - tail) == Align * (used / Align + 1);
    Align - tail
  }

  /** The pad is the least positive step from used to a boundary: no shorter
      non-empty pad reaches one. */
  lemma PadIsLeastStepToBoundary(used: nat, p: nat)
    requires 0 < p < CalcPad(used)
    ensures (used + p) % Align != 0
  {
    var q, tail := used / Align, used % Align;
    assert used + p == Align * q + (tail + p);
    assert 0 < tail + p < Align;
  }

  /** A padded image spans exactly one block more than the whole blocks of its
      used bytes, which is what `size -b` prints. */
  lemma PaddedBlocks(used: nat)
    ensures (used + CalcPad(used)) / Align == used / Align + 1
  {
    var q, tail := used / Align, used % Align;
    assert used + CalcPad(used) == Align * (q + 1);
  }
}
