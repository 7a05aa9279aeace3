/** The extent records of an inode's data fork, as `parse_buff_to_inode`
    reads them: 16-byte packed records (`xfs_bmbt_rec`) of a 1-bit flag, a
    54-bit file offset, a 52-bit start block and a 21-bit block count,
    stored big-endian from bit 127 down. The decoder first counts the
    records it will take, then unpacks that many. */
module XfsExtent {
  import opened XfsCommon
  import opened Bits
  import opened Bytes
  import opened XfsInodeH

  /** The masks the C applies after each read. */
  const STARTOFF_MASK: nat := 0x7FFF_FFFF_FFFF_FE00    // bits 9..62 of bytes 0..7
  const STARTBLOCK_MASK: nat := 0x07FF_FFFF_FFFF_FFE0  // bits 5..58 of bytes 6..13
  const BLOCKCOUNT_MASK: nat := 0x1F_FFFF              // bits 0..20 of bytes 13..15

  /** The byte offset of record j of the data fork. */
  function RecordOffset(j: nat): nat
  {
    INODE_CORE_BYTES + 16 * j
  }

  /** The record's block count: the 24 bits at byte 13 under the low mask. */
  function RecordBlockcount(e: Endian, buf: seq<byte>, off: nat): (r: u32)
    requires off + 16 <= |buf|
  {
    And(GetU24(e, buf, off + 13), BLOCKCOUNT_MASK)
  }

  /** One record unpacked as the C does it: the flag from the top bit of
      byte 0, the file offset from the 64 bits at byte 0, the start block
      from the 64 bits at byte 6, the count from the 24 bits at byte 13. */
  function UnpackExtent(e: Endian, buf: seq<byte>, off: nat): (x: Extent)
    requires off + 16 <= |buf|
  {
    var a := GetU64(e, buf, off);
    var b := GetU64(e, buf, off + 6);
    ShrAtMost(And(buf[off], 0x80), 7);
    ShrAtMost(And(a, STARTOFF_MASK), 9);
    ShrAtMost(And(b, STARTBLOCK_MASK), 5);
    Extent(Shr(And(buf[off], 0x80), 7),
           Shr(And(a, STARTOFF_MASK), 9),
           Shr(And(b, STARTBLOCK_MASK), 5),
           RecordBlockcount(e, buf, off))
  }

  // ---------------------------------------------------------------------
  // The record format

  // The field widths of the packed record, from the top bit down.
  const FLAG_BITS: nat := 1
  const STARTOFF_BITS: nat := 54
  const STARTBLOCK_BITS: nat := 52
  const BLOCKCOUNT_BITS: nat := 21
  const RECORD_BITS: nat := 128

  /** Whether every field fits its width in the packed record. */
  predicate FieldsFit(x: Extent)
  {
    && x.extentflag < Pow2(FLAG_BITS) && x.startoff < Pow2(STARTOFF_BITS)
    && x.startblock < Pow2(STARTBLOCK_BITS) && x.blockcount < Pow2(BLOCKCOUNT_BITS)
  }

  /** The 128-bit value of a record holding the given fields. */
  function PackExtent(x: Extent): nat
  {
    Shl(Shl(Shl(x.extentflag, STARTOFF_BITS) + x.startoff, STARTBLOCK_BITS) + x.startblock, BLOCKCOUNT_BITS)
      + x.blockcount
  }

  /** The fields a 128-bit record value holds, cut at bits 127, 73, 21 and 0. */
  function ExtentFields(v: nat): (x: Extent)
    ensures FieldsFit(x)
  {
    LowBitsBound(Shr(v, BLOCKCOUNT_BITS + STARTBLOCK_BITS + STARTOFF_BITS), FLAG_BITS);
    LowBitsBound(Shr(v, BLOCKCOUNT_BITS + STARTBLOCK_BITS), STARTOFF_BITS);
    LowBitsBound(Shr(v, BLOCKCOUNT_BITS), STARTBLOCK_BITS);
    LowBitsBound(v, BLOCKCOUNT_BITS);
    Pow2Monotone(FLAG_BITS, 8);
    Pow2Monotone(STARTOFF_BITS, 64);
    Pow2Monotone(STARTBLOCK_BITS, 64);
    Pow2Monotone(BLOCKCOUNT_BITS, 32);
    Pow2Values();
    Extent(LowBits(Shr(v, BLOCKCOUNT_BITS + STARTBLOCK_BITS + STARTOFF_BITS), FLAG_BITS),
           LowBits(Shr(v, BLOCKCOUNT_BITS + STARTBLOCK_BITS), STARTOFF_BITS),
           LowBits(Shr(v, BLOCKCOUNT_BITS), STARTBLOCK_BITS),
           LowBits(v, BLOCKCOUNT_BITS))
  }

  /** The value of the 16-byte record at `off`. */
  function RecordValue(buf: seq<byte>, off: nat): nat
    requires off + 16 <= |buf|
  {
    BeValue(buf[off..off + 16])
  }

  /** Four fields of widths a, b, c and d packed from the top down are cut
      apart again at their boundaries. */
  lemma PackSplit(f: nat, so: nat, sb: nat, bc: nat, a: nat, b: nat, c: nat, d: nat)
    requires f < Pow2(a) && so < Pow2(b) && sb < Pow2(c) && bc < Pow2(d)
    ensures var v := Shl(Shl(Shl(f, b) + so, c) + sb, d) + bc;
      && LowBits(v, d) == bc
      && LowBits(Shr(v, d), c) == sb
      && LowBits(Shr(v, d + c), b) == so
      && LowBits(Shr(v, d + c + b), a) == f
  {
    var z := Shl(f, b) + so;
    var y := Shl(z, c) + sb;
    var v := Shl(y, d) + bc;
    ShlAddBound(f, a, b, so);
    ShlAddBound(z, a + b, c, sb);
    SplitUnique(y, d, bc);
    SplitUnique(z, c, sb);
    ShrShr(v, d, c);
    SplitUnique(f, b, so);
    ShrShr(v, d + c, b);
    LowBitsOfSmall(f, a);
  }

  /** Packing fields that fit and cutting the value apart again gives the
      fields back. */
  lemma PackRoundTrip(x: Extent)
    requires FieldsFit(x)
    ensures ExtentFields(PackExtent(x)) == x
  {
    PackSplit(x.extentflag, x.startoff, x.startblock, x.blockcount,
      FLAG_BITS, STARTOFF_BITS, STARTBLOCK_BITS, BLOCKCOUNT_BITS);
  }

  /** A field below bit n is the same in a value and in its low n bits. */
  lemma FieldBelow(v: nat, n: nat, k: nat, w: nat)
    requires k + w <= n
    ensures LowBits(Shr(LowBits(v, n), k), w) == LowBits(Shr(v, k), w)
  {
    ShrOfLowBits(v, n, k);
    LowBitsOfLowBits(Shr(v, k), n - k, w);
  }

  /** The fields are cut from the low 128 bits of a value only. */
  lemma FieldsOfLowBits(v: nat)
    ensures ExtentFields(LowBits(v, RECORD_BITS)) == ExtentFields(v)
  {
    FieldBelow(v, RECORD_BITS, BLOCKCOUNT_BITS + STARTBLOCK_BITS + STARTOFF_BITS, FLAG_BITS);
    FieldBelow(v, RECORD_BITS, BLOCKCOUNT_BITS + STARTBLOCK_BITS, STARTOFF_BITS);
    FieldBelow(v, RECORD_BITS, BLOCKCOUNT_BITS, STARTBLOCK_BITS);
    LowBitsOfLowBits(v, RECORD_BITS, BLOCKCOUNT_BITS);
  }

  /** A field at the end of a byte string is its low bits, and what comes
      before it the rest. */
  lemma BeValueSplit(s: seq<byte>, t: seq<byte>)
    ensures Shr(BeValue(s + t), 8 * |t|) == BeValue(s)
    ensures LowBits(BeValue(s + t), 8 * |t|) == BeValue(t)
  {
    BeValueAppend(s, t);
    BeValueBound(t);
    SplitUnique(BeValue(s), 8 * |t|, BeValue(t));
  }

  /** The parts of a 16-byte big-endian record that the C reads. */
  lemma RecordParts(w: seq<byte>)
    requires |w| == 16
    ensures Shr(BeValue(w), 120) == w[0]
    ensures Shr(BeValue(w), 64) == BeValue(w[0..8])
    ensures LowBits(Shr(BeValue(w), 16), 64) == BeValue(w[6..14])
    ensures LowBits(BeValue(w), 24) == BeValue(w[13..16])
  {
    assert Shr(BeValue(w), 120) == w[0] by {
      assert w == w[0..1] + w[1..16];
      BeValueSplit(w[0..1], w[1..16]);
      assert w[0..1][..0] == [];
    }
    assert Shr(BeValue(w), 64) == BeValue(w[0..8]) by {
      assert w == w[0..8] + w[8..16];
      BeValueSplit(w[0..8], w[8..16]);
    }
    assert LowBits(Shr(BeValue(w), 16), 64) == BeValue(w[6..14]) by {
      assert w == w[0..14] + w[14..16];
      BeValueSplit(w[0..14], w[14..16]);
      assert w[0..14] == w[0..6] + w[6..14];
      BeValueSplit(w[0..6], w[6..14]);
    }
    assert LowBits(BeValue(w), 24) == BeValue(w[13..16]) by {
      assert w == w[0..13] + w[13..16];
      BeValueSplit(w[0..13], w[13..16]);
    }
  }

  /** The 54-bit mask `(1 << 54) - 1`. */
  lemma Mask54()
    ensures Pow2(54) - 1 == 0x3F_FFFF_FFFF_FFFF
  {
    Pow2Add(32, 22);
    Pow2Add(16, 6);
    Pow2Values();
  }

  lemma StartoffMask(a: nat)
    ensures Shr(And(a, STARTOFF_MASK), 9) == LowBits(Shr(a, 9), 54)
  {
    Mask54();
    assert Shl(0x3F_FFFF_FFFF_FFFF, 9) == STARTOFF_MASK;
    BitField(a, 9, 54);
  }

  lemma StartblockMask(b: nat)
    ensures Shr(And(b, STARTBLOCK_MASK), 5) == LowBits(Shr(b, 5), 54)
  {
    Mask54();
    assert Shl(0x3F_FFFF_FFFF_FFFF, 5) == STARTBLOCK_MASK;
    BitField(b, 5, 54);
  }

  lemma BlockcountMask(c: nat)
    ensures And(c, BLOCKCOUNT_MASK) == LowBits(c, 21)
  {
    Pow2Values();
    assert BLOCKCOUNT_MASK == Pow2(21) - 1;
    AndLowMask(c, 21);
  }

  lemma FlagMask(b0: nat)
    ensures Shr(And(b0, 0x80), 7) == LowBits(Shr(b0, 7), 1)
  {
    assert Shl(Pow2(1) - 1, 7) == 0x80;
    BitField(b0, 7, 1);
  }

  /** The mask-and-shift pairs the C uses are the bit fields they are
      meant to be. */
  lemma MaskFields(a: nat, b: nat, c: nat, b0: nat)
    ensures Shr(And(a, STARTOFF_MASK), 9) == LowBits(Shr(a, 9), 54)
    ensures Shr(And(b, STARTBLOCK_MASK), 5) == LowBits(Shr(b, 5), 54)
    ensures And(c, BLOCKCOUNT_MASK) == LowBits(c, 21)
    ensures Shr(And(b0, 0x80), 7) == LowBits(Shr(b0, 7), 1)
  {
    StartoffMask(a);
    StartblockMask(b);
    BlockcountMask(c);
    FlagMask(b0);
  }

  /** Under big-endian reads, the three C reads of the record at `off`
      are the parts of its 128-bit value. */
  lemma RecordReads(e: Endian, buf: seq<byte>, off: nat)
    requires e != Little && off + 16 <= |buf|
    ensures var v := RecordValue(buf, off);
      && Shr(v, 120) == buf[off]
      && GetU64(e, buf, off) == Shr(v, 64)
      && GetU64(e, buf, off + 6) == LowBits(Shr(v, 16), 64)
      && GetU24(e, buf, off + 13) == LowBits(v, 24)
  {
    var w := buf[off..off + 16];
    RecordParts(w);
    SliceOfSlice(buf, off, off + 16, 0, 8);
    SliceOfSlice(buf, off, off + 16, 6, 14);
    SliceOfSlice(buf, off, off + 16, 13, 16);
  }

  /** Under big-endian reads the flag, the file offset and the block count
      are the record's fields; the start block is its 52-bit field plus
      the low two bits of the file offset moved up to bits 52 and 53, since
      the C mask `0x07FFFFFFFFFFFFE0` keeps 54 bits where 52 belong. */
  lemma UnpackExtentFields(e: Endian, buf: seq<byte>, off: nat)
    requires e != Little && off + 16 <= |buf|
    ensures var x := UnpackExtent(e, buf, off);
      var f := ExtentFields(RecordValue(buf, off));
      && x.extentflag == f.extentflag && x.startoff == f.startoff && x.blockcount == f.blockcount
      && x.startblock == f.startblock + Shl(f.startoff % 4, STARTBLOCK_BITS)
  {
    var v := RecordValue(buf, off);
    RecordReads(e, buf, off);
    MaskFields(GetU64(e, buf, off), GetU64(e, buf, off + 6), GetU24(e, buf, off + 13), buf[off]);
    assert UnpackExtent(e, buf, off).extentflag == LowBits(Shr(v, 127), 1) by {
      ShrShr(v, 120, 7);
    }
    assert UnpackExtent(e, buf, off).startoff == LowBits(Shr(v, 73), 54) by {
      ShrShr(v, 64, 9);
    }
    assert UnpackExtent(e, buf, off).blockcount == LowBits(v, 21) by {
      LowBitsOfLowBits(v, 24, 21);
    }
    StartblockBits(v);
  }

  /** Bits 21..74 of a record value: the start block field, then the low
      two bits of the file offset field. */
  lemma StartblockBits(v: nat)
    ensures LowBits(Shr(LowBits(Shr(v, 16), 64), 5), 54)
         == LowBits(Shr(v, 21), 52) + Shl(LowBits(Shr(v, 73), 54) % 4, 52)
  {
    ShrOfLowBits(Shr(v, 16), 64, 5);
    ShrShr(v, 16, 5);
    LowBitsOfLowBits(Shr(v, 21), 59, 54);
    LowBitsSplit(Shr(v, 21), 52, 2);
    ShrShr(v, 21, 52);
    LowBitsOfLowBits(Shr(v, 73), 54, 2);
    ShrLowBitsDivMod(LowBits(Shr(v, 73), 54), 2);
  }

  /** The start block comes out right exactly when the file offset is a
      multiple of 4. */
  lemma StartblockQuirk(e: Endian, buf: seq<byte>, off: nat)
    requires e != Little && off + 16 <= |buf|
    ensures UnpackExtent(e, buf, off).startblock == ExtentFields(RecordValue(buf, off)).startblock
        <==> ExtentFields(RecordValue(buf, off)).startoff % 4 == 0
  {
    UnpackExtentFields(e, buf, off);
    var so := ExtentFields(RecordValue(buf, off)).startoff;
    if so % 4 != 0 {
      ShlPositive(so % 4, STARTBLOCK_BITS);
    } else {
      ShlZero(STARTBLOCK_BITS);
    }
  }

  /** Writing a record and unpacking it gives its fields back, but for the
      start block, which picks up the file offset's low two bits. */
  lemma ExtentRoundTrip(x: Extent)
    requires FieldsFit(x)
    ensures var y := UnpackExtent(Big, BeBytes(PackExtent(x), 16), 0);
      && y.extentflag == x.extentflag && y.startoff == x.startoff && y.blockcount == x.blockcount
      && y.startblock == x.startblock + Shl(x.startoff % 4, STARTBLOCK_BITS)
  {
    var buf := BeBytes(PackExtent(x), 16);
    PackRoundTrip(x);
    BeBytesValue(PackExtent(x), 16);
    FieldsOfLowBits(PackExtent(x));
    assert buf[0..16] == buf;
    UnpackExtentFields(Big, buf, 0);
  }

  /** The record with flag 0, file offset 1000, start block 50000 and 10
      blocks unpacks to exactly these fields. */
  lemma ExtentExample()
    ensures var x := Extent(0, 1000, 50000, 10);
      UnpackExtent(Big, BeBytes(PackExtent(x), 16), 0) == x
  {
    var x := Extent(0, 1000, 50000, 10);
    Pow2Monotone(16, BLOCKCOUNT_BITS);
    Pow2Monotone(16, STARTBLOCK_BITS);
    Pow2Monotone(16, STARTOFF_BITS);
    Pow2Values();
    ExtentRoundTrip(x);
    ShlZero(STARTBLOCK_BITS);
  }

  // ---------------------------------------------------------------------
  // Counting the records

  /** Bytes 8..15 of the record at `off`, the only part the C tests to
      find the end of the list. */
  function Sentinel(buf: seq<byte>, off: nat): seq<byte>
    requires off + 16 <= |buf|
  {
    buf[off + 8..off + 16]
  }

  /** The block counts of the first n records, summed in the C's 32-bit
      counter. */
  function PrefixSum(e: Endian, buf: seq<byte>, n: nat): u32
    requires RecordOffset(n) <= |buf|
  {
    if n == 0 then 0
    else (PrefixSum(e, buf, n - 1) + RecordBlockcount(e, buf, RecordOffset(n - 1))) % 0x1_0000_0000
  }

  /** Record j ends the count: the blocks counted before it already
      reach `nblocks` (whether or not the record is in the buffer), or
      it lies in the buffer and its bytes 8..15 are zero. */
  predicate Stops(e: Endian, buf: seq<byte>, nblocks: u64, j: nat)
    requires RecordOffset(j) <= |buf|
  {
    PrefixSum(e, buf, j) >= nblocks
    || (RecordOffset(j) + 16 <= |buf| && AllZero(Sentinel(buf, RecordOffset(j))))
  }

  /** The count from record j on, `sum` being the 32-bit block total so
      far. The loop condition tests bytes 8..15 of the record first and
      the block total second, but the count only depends on the bytes when
      the total is below `nblocks`; a record whose bytes 8..15 decide the
      count and do not fit in the buffer is `Truncated`. */
  function ScanFrom(e: Endian, buf: seq<byte>, nblocks: u64, j: nat, sum: u32): (r: Result<nat>)
    requires RecordOffset(j) <= |buf|
    ensures r.Ok? ==> j <= r.value && RecordOffset(r.value) <= |buf|
    ensures r.Err? ==> r.error == Truncated
    decreases |buf| - RecordOffset(j)
  {
    var off := RecordOffset(j);
    if sum >= nblocks then Ok(j)
    else if off + 16 > |buf| then Err(Truncated)
    else if AllZero(Sentinel(buf, off)) then Ok(j)
    else ScanFrom(e, buf, nblocks, j + 1, (sum + RecordBlockcount(e, buf, off)) % 0x1_0000_0000)
  }

  /** The number of records the decoder takes. */
  function ExtentCount(e: Endian, buf: seq<byte>, nblocks: u64): (r: Result<nat>)
    requires |buf| >= INODE_CORE_BYTES
    ensures r.Ok? ==> RecordOffset(r.value) <= |buf|
    ensures r.Err? ==> r.error == Truncated
  {
    ScanFrom(e, buf, nblocks, 0, 0)
  }

  /** The count loop: it steps from record to record, adding each block
      count, while the record's bytes 8..15 are not all zero and fewer
      than `nblocks` blocks have been counted. */
  method CountExtents(e: Endian, buf: seq<byte>, nblocks: u64) returns (r: Result<nat>)
    requires |buf| >= INODE_CORE_BYTES
    ensures r == ExtentCount(e, buf, nblocks)
  {
    var tmpoff := INODE_CORE_BYTES;
    var i := 0;
    var blockcount: u32 := 0;
    while blockcount < nblocks
      invariant tmpoff == RecordOffset(i) && tmpoff <= |buf|
      invariant ScanFrom(e, buf, nblocks, i, blockcount) == ExtentCount(e, buf, nblocks)
      decreases |buf| - tmpoff
    {
      if tmpoff + 16 > |buf| {
        return Err(Truncated);
      }
      if AllZero(buf[tmpoff + 8..tmpoff + 16]) {
        break;
      }
      ScanFromStep(e, buf, nblocks, i, blockcount);
      blockcount := (blockcount + RecordBlockcount(e, buf, tmpoff)) % 0x1_0000_0000;
      tmpoff := tmpoff + 16;
      i := i + 1;
    }
    return Ok(i);
  }

  /** A record that does not stop the scan hands it on to the next one. */
  lemma ScanFromStep(e: Endian, buf: seq<byte>, nblocks: u64, j: nat, sum: u32)
    requires RecordOffset(j) + 16 <= |buf|
    requires !AllZero(Sentinel(buf, RecordOffset(j))) && sum < nblocks
    ensures ScanFrom(e, buf, nblocks, j, sum)
         == ScanFrom(e, buf, nblocks, j + 1, (sum + RecordBlockcount(e, buf, RecordOffset(j))) % 0x1_0000_0000)
  {
  }

  /** A record that stops the scan is where it ends. */
  lemma ScanFromHere(e: Endian, buf: seq<byte>, nblocks: u64, j: nat)
    requires RecordOffset(j) <= |buf| && Stops(e, buf, nblocks, j)
    ensures ScanFrom(e, buf, nblocks, j, PrefixSum(e, buf, j)) == Ok(j)
  {
  }

  /** A record that does not stop the scan and does not fit fails it. */
  lemma ScanFromEnd(e: Endian, buf: seq<byte>, nblocks: u64, j: nat)
    requires RecordOffset(j) + 16 > |buf| && RecordOffset(j) <= |buf|
    requires !Stops(e, buf, nblocks, j)
    ensures ScanFrom(e, buf, nblocks, j, PrefixSum(e, buf, j)) == Err(Truncated)
  {
  }

  /** A record that does not stop the scan and fits hands it on with its
      block count added. */
  lemma ScanFromNext(e: Endian, buf: seq<byte>, nblocks: u64, j: nat)
    requires RecordOffset(j) + 16 <= |buf| && !Stops(e, buf, nblocks, j)
    ensures ScanFrom(e, buf, nblocks, j, PrefixSum(e, buf, j))
         == ScanFrom(e, buf, nblocks, j + 1, PrefixSum(e, buf, j + 1))
  {
    var sum := PrefixSum(e, buf, j);
    assert PrefixSum(e, buf, j + 1) == (sum + RecordBlockcount(e, buf, RecordOffset(j))) % 0x1_0000_0000;
    ScanFromStep(e, buf, nblocks, j, sum);
  }

  lemma {:induction false} ScanFromStops(e: Endian, buf: seq<byte>, nblocks: u64, j: nat)
    requires RecordOffset(j) <= |buf|
    ensures var r := ScanFrom(e, buf, nblocks, j, PrefixSum(e, buf, j));
      && (r.Ok? ==> Stops(e, buf, nblocks, r.value)
                    && forall i :: j <= i < r.value ==> !Stops(e, buf, nblocks, i))
      && (r.Err? ==> forall i :: j <= i && RecordOffset(i) <= |buf|
                                ==> !Stops(e, buf, nblocks, i))
    decreases |buf| - RecordOffset(j)
  {
    if Stops(e, buf, nblocks, j) {
      ScanFromHere(e, buf, nblocks, j);
    } else if RecordOffset(j) + 16 > |buf| {
      ScanFromEnd(e, buf, nblocks, j);
    } else {
      ScanFromNext(e, buf, nblocks, j);
      ScanFromStops(e, buf, nblocks, j + 1);
    }
  }

  /** The count is the first record that stops it: every record before
      it has nonzero bytes 8..15 and is reached with fewer than `nblocks`
      blocks counted, and the record itself is reached with `nblocks` or
      more, or has zero bytes 8..15. The count fails only when no record
      up to the end of the buffer stops it. */
  lemma ExtentCountExact(e: Endian, buf: seq<byte>, nblocks: u64)
    requires |buf| >= INODE_CORE_BYTES
    ensures var r := ExtentCount(e, buf, nblocks);
      && (r.Ok? ==> RecordOffset(r.value) <= |buf|
                    && Stops(e, buf, nblocks, r.value)
                    && forall i :: 0 <= i < r.value ==> !Stops(e, buf, nblocks, i))
      && (r.Err? ==> r.error == Truncated
                     && forall i :: RecordOffset(i) <= |buf|
                                    ==> !Stops(e, buf, nblocks, i))
  {
    ScanFromStops(e, buf, nblocks, 0);
  }

  /** Exactly one count fits that description: any record that stops the
      scan, with none stopping it before, is the count. */
  lemma ExtentCountUnique(e: Endian, buf: seq<byte>, nblocks: u64, n: nat)
    requires RecordOffset(n) <= |buf|
    requires Stops(e, buf, nblocks, n)
    requires forall i :: 0 <= i < n ==> !Stops(e, buf, nblocks, i)
    ensures ExtentCount(e, buf, nblocks) == Ok(n)
  {
    ExtentCountExact(e, buf, nblocks);
  }

  /** Once the blocks counted reach `nblocks` the count is settled, even
      when the next record would lie past the end of the buffer: a single
      record of `nblocks` blocks that ends the buffer is counted. */
  lemma CountSettledAtEnd(e: Endian, buf: seq<byte>, nblocks: u64)
    requires |buf| == RecordOffset(1) && 0 < nblocks
    requires !AllZero(Sentinel(buf, RecordOffset(0)))
    requires RecordBlockcount(e, buf, RecordOffset(0)) == nblocks
    ensures ExtentCount(e, buf, nblocks) == Ok(1)
  {
    assert PrefixSum(e, buf, 1) == nblocks;
    ExtentCountUnique(e, buf, nblocks, 1);
  }

  // ---------------------------------------------------------------------
  // Unpacking the records

  /** The first n records, unpacked. */
  function UnpackedExtents(e: Endian, buf: seq<byte>, n: nat): (xs: seq<Extent>)
    requires RecordOffset(n) <= |buf|
    ensures |xs| == n
    ensures forall j :: 0 <= j < n ==> xs[j] == UnpackExtent(e, buf, RecordOffset(j))
  {
    if n == 0 then [] else UnpackedExtents(e, buf, n - 1) + [UnpackExtent(e, buf, RecordOffset(n - 1))]
  }

  /** One record read field by field as the fill loop does: the flag and
      the file offset from byte 0, the start block 6 bytes on, the count 7
      bytes further; the cursor ends 3 bytes after that, on the next record. */
  method ReadExtent(e: Endian, buf: seq<byte>, start: nat) returns (ext: Extent, off: nat)
    requires start + 16 <= |buf|
    ensures ext == UnpackExtent(e, buf, start)
    ensures off == start + 16
  {
    off := start;
    var a := GetU64(e, buf, off);
    ShrAtMost(And(buf[off], 0x80), 7);
    ShrAtMost(And(a, STARTOFF_MASK), 9);
    var flag := Shr(And(buf[off], 0x80), 7);
    var startoff := Shr(And(a, STARTOFF_MASK), 9);
    off := off + 6;
    var b := GetU64(e, buf, off);
    ShrAtMost(And(b, STARTBLOCK_MASK), 5);
    var startblock := Shr(And(b, STARTBLOCK_MASK), 5);
    off := off + 7;
    var blockcount := And(GetU24(e, buf, off), BLOCKCOUNT_MASK);
    off := off + 3;
    ext := Extent(flag, startoff, startblock, blockcount);
  }

  /** The fill loop: an array of n records, unpacked one after another. */
  method UnpackExtents(e: Endian, buf: seq<byte>, n: nat) returns (exts: array<Extent>)
    requires RecordOffset(n) <= |buf|
    ensures fresh(exts)
    ensures exts[..] == UnpackedExtents(e, buf, n)
  {
    exts := new Extent[n](_ => Extent(0, 0, 0, 0));
    var off := INODE_CORE_BYTES;
    var tmpi := 0;
    while tmpi < n
      invariant 0 <= tmpi <= n && off == RecordOffset(tmpi)
      invariant forall j :: 0 <= j < tmpi ==> exts[j] == UnpackExtent(e, buf, RecordOffset(j))
    {
      var ext;
      ext, off := ReadExtent(e, buf, off);
      exts[tmpi] := ext;
      tmpi := tmpi + 1;
    }
  }
}
