/** `get_inode_offset_by_ino` and `get_block_offset_by_blknum`: turning an
    inode number or a filesystem block number into a byte offset on the
    device, using the geometry of the superblock. The two globals the C
    reads, the inode cluster size (8192) and the inode alignment mask (3),
    are parameters here. */
module XfsAddress {
  import opened XfsCommon
  import opened Bits
  import opened Sb
  import opened XfsInodeH

  /** The values of the two tunables as the C initialises them. */
  const DEFAULT_INODE_CLUSTER_SIZE: u32 := 8192
  const DEFAULT_INOALIGN_MASK: u32 := 3

  /** The shift counts the inode translation uses are all in the range
      where the C shifts are defined; in the cluster branch, the number of
      blocks per cluster it divides by is not zero. */
  predicate InodeShiftsDefined(sb: Superblock, clusterSize: u32, alignMask: u32)
  {
    && sb.blocklog >= BBSHIFT
    && AginoBits(sb) < 64
    && sb.inopblog < 32
    && (clusterSize > sb.blocksize && alignMask != 0 ==>
          sb.blocklog < 32 && Shr(clusterSize, sb.blocklog) > 0)
  }

  /** Whether the cluster adjustment applies. */
  predicate ClusterBranch(sb: Superblock, clusterSize: u32, alignMask: u32)
  {
    clusterSize > sb.blocksize && alignMask != 0
  }

  /** The block an inode's cluster starts at, `cluster_agbno`: within the
      aligned chunk holding block agbno, the largest multiple of the blocks
      per cluster not above agbno's place in it. */
  function ClusterAgbno(agbno: u32, blocksPerCluster: nat, alignMask: u32): (r: u32)
    requires blocksPerCluster > 0
    ensures r <= agbno
    ensures agbno - r < blocksPerCluster
  {
    var offsetAgbno := And(agbno, alignMask);
    var chunkAgbno := agbno - offsetAgbno;
    DivMulBelow(offsetAgbno, blocksPerCluster);
    chunkAgbno + (offsetAgbno / blocksPerCluster) * blocksPerCluster
  }

  /** `get_inode_offset_by_ino`: the byte offset of inode `ino`, or an error
      when the group, block or slot it names lies outside the geometry or
      the inode number does not survive the split into group coordinates. */
  function InodeOffset(sb: Superblock, ino: u64, clusterSize: u32, alignMask: u32): (r: Result<nat>)
    requires InodeShiftsDefined(sb, clusterSize, alignMask)
    ensures r.Err? ==> r.error == OutOfRange
    ensures r.Err? <==>
      var agino := InoToAgino(sb, ino);
      || InoToAgno(sb, ino) >= sb.agcount
      || AginoToAgbno(sb, agino) >= sb.agblocks
      || AginoToOffset(sb, agino) >= sb.inopblock
      || AginoToIno(sb, InoToAgno(sb, ino), agino) != ino
  {
    var agno := InoToAgno(sb, ino);
    var agino := InoToAgino(sb, ino);
    var agbno := AginoToAgbno(sb, agino);
    var offset := AginoToOffset(sb, agino);
    if agno >= sb.agcount || agbno >= sb.agblocks || offset >= sb.inopblock
       || AginoToIno(sb, agno, agino) != ino then
      Err(OutOfRange)
    else if ClusterBranch(sb, clusterSize, alignMask) then
      var blocksPerCluster := Shr(clusterSize, sb.blocklog);
      var clusterAgbno := ClusterAgbno(agbno, blocksPerCluster, alignMask);
      var slot := offset + ((agbno - clusterAgbno) * sb.inopblock) % 0x1_0000_0000;
      Ok(Shl(AgbToDaddr(sb, agno, clusterAgbno), BBSHIFT) + Shl(slot, sb.inodelog))
    else
      Ok(Shl(AgbToDaddr(sb, agno, agbno), BBSHIFT) + Shl(offset, sb.inodelog))
  }

  lemma DivMulBelow(x: nat, d: nat)
    requires d > 0
    ensures (x / d) * d <= x && x - (x / d) * d < d
  {
  }

  /** `get_block_offset_by_blknum`: the byte offset of filesystem block
      `blknum`, or an error when its group or group-relative block lies
      outside the geometry. */
  function BlockOffset(sb: Superblock, blknum: u64): (r: Result<nat>)
    requires sb.blocklog >= BBSHIFT && sb.agblklog < 32
    ensures r.Err? ==> r.error == OutOfRange
    ensures r.Err? <==> FsbToAgno(sb, blknum) >= sb.agcount || FsbToAgbno(sb, blknum) >= sb.agblocks
  {
    var agno := FsbToAgno(sb, blknum);
    var agbno := FsbToAgbno(sb, blknum);
    if agno >= sb.agcount || agbno >= sb.agblocks then Err(OutOfRange)
    else Ok(Shl(AgbToDaddr(sb, agno, agbno), BBSHIFT))
  }

  // ---------------------------------------------------------------------
  // Block translation

  /** A block's offset is its group's first block plus its place in the
      group, times the block size: always a whole number of blocks. */
  lemma BlockOffsetValue(sb: Superblock, blknum: u64)
    requires sb.blocklog >= BBSHIFT && sb.agblklog < 32
    requires BlockOffset(sb, blknum).Ok?
    ensures BlockOffset(sb, blknum).value
         == (FsbToAgno(sb, blknum) * sb.agblocks + FsbToAgbno(sb, blknum)) * Pow2(sb.blocklog)
    ensures BlockOffset(sb, blknum).value % Pow2(sb.blocklog) == 0
  {
    var x := FsbToAgno(sb, blknum) * sb.agblocks + FsbToAgbno(sb, blknum);
    DaddrInBytes(sb, FsbToAgno(sb, blknum), FsbToAgbno(sb, blknum));
    MulMod(x, Pow2(sb.blocklog));
  }

  lemma MulMod(x: nat, d: nat)
    requires d > 0
    ensures (x * d) % d == 0
  {
    DivModUnique(x * d, d, x, 0);
  }

  /** Every block of every group is reached: block agbno of group agno,
      written as `agno << agblklog | agbno`, translates to its offset. */
  lemma BlockOffsetComplete(sb: Superblock, agno: u32, agbno: u32)
    requires sb.blocklog >= BBSHIFT && sb.agblklog < 32
    requires agno < sb.agcount && agbno < sb.agblocks && agbno < Pow2(sb.agblklog)
    requires Shl(agno, sb.agblklog) + agbno < 0x1_0000_0000_0000_0000
    ensures var blknum: u64 := Shl(agno, sb.agblklog) + agbno;
      BlockOffset(sb, blknum) == Ok((agno * sb.agblocks + agbno) * Pow2(sb.blocklog))
  {
    var k := sb.agblklog;
    var blknum: u64 := Shl(agno, k) + agbno;
    SplitUnique(agno, k, agbno);
    ModOfSmall(agno, 0x1_0000_0000);
    AndLowMask(blknum, k);
    DaddrInBytes(sb, agno, agbno);
  }

  /** The group number is truncated to 32 bits, so block numbers that
      differ only above bit agblklog + 32 translate alike. */
  lemma BlockNumberAliasing(sb: Superblock, blknum: u64, m: nat)
    requires sb.blocklog >= BBSHIFT && sb.agblklog < 32
    requires blknum + Shl(m * 0x1_0000_0000, sb.agblklog) < 0x1_0000_0000_0000_0000
    ensures BlockOffset(sb, blknum + Shl(m * 0x1_0000_0000, sb.agblklog)) == BlockOffset(sb, blknum)
  {
    var k := sb.agblklog;
    var other: u64 := blknum + Shl(m * 0x1_0000_0000, k);
    AliasSplit(blknum, m * 0x1_0000_0000, k);
    assert FsbToAgno(sb, other) == FsbToAgno(sb, blknum) by {
      ModShift(Shr(blknum, k), m);
    }
    assert FsbToAgbno(sb, other) == FsbToAgbno(sb, blknum) by {
      AndLowMask(blknum, k);
      AndLowMask(other, k);
    }
  }

  /** Adding a multiple of 2^k adds to the part above bit k and leaves the
      bits below it alone. */
  lemma AliasSplit(x: nat, d: nat, k: nat)
    ensures Shr(x + Shl(d, k), k) == Shr(x, k) + d
    ensures LowBits(x + Shl(d, k), k) == LowBits(x, k)
  {
    var hi, lo := Shr(x, k), LowBits(x, k);
    SplitJoin(x, k);
    LowBitsBound(x, k);
    ShlAdd(hi, d, k);
    SplitUnique(hi + d, k, lo);
  }

  lemma ModShift(x: nat, m: nat)
    ensures (x + m * 0x1_0000_0000) % 0x1_0000_0000 == x % 0x1_0000_0000
  {
  }

  // ---------------------------------------------------------------------
  // Inode translation

  /** The inode's byte offset is that of the first block of its cluster
      (or of its own block, outside the cluster branch) plus its slot,
      counted from that block, times the inode size. */
  lemma InodeOffsetValue(sb: Superblock, ino: u64, clusterSize: u32, alignMask: u32)
    requires InodeShiftsDefined(sb, clusterSize, alignMask)
    requires InodeOffset(sb, ino, clusterSize, alignMask).Ok?
    ensures var agno := InoToAgno(sb, ino);
      var agino := InoToAgino(sb, ino);
      var agbno := AginoToAgbno(sb, agino);
      var offset := AginoToOffset(sb, agino);
      if ClusterBranch(sb, clusterSize, alignMask) then
        var c := ClusterAgbno(agbno, Shr(clusterSize, sb.blocklog), alignMask);
        InodeOffset(sb, ino, clusterSize, alignMask).value
        == (agno * sb.agblocks + c) * Pow2(sb.blocklog)
           + (offset + ((agbno - c) * sb.inopblock) % 0x1_0000_0000) * Pow2(sb.inodelog)
      else
        InodeOffset(sb, ino, clusterSize, alignMask).value
        == (agno * sb.agblocks + agbno) * Pow2(sb.blocklog) + offset * Pow2(sb.inodelog)
  {
    var agno := InoToAgno(sb, ino);
    var agino := InoToAgino(sb, ino);
    var agbno := AginoToAgbno(sb, agino);
    var offset := AginoToOffset(sb, agino);
    if ClusterBranch(sb, clusterSize, alignMask) {
      var c := ClusterAgbno(agbno, Shr(clusterSize, sb.blocklog), alignMask);
      DaddrInBytes(sb, agno, c);
      ShlIsMul(offset + ((agbno - c) * sb.inopblock) % 0x1_0000_0000, sb.inodelog);
    } else {
      DaddrInBytes(sb, agno, agbno);
      ShlIsMul(offset, sb.inodelog);
    }
  }

  /** When a block holds exactly inopblock inodes of 2^inodelog bytes, the
      cluster adjustment moves the base back by whole blocks and the slot
      forward by the same number of inodes: the byte offset is the plain
      one, block agbno of group agno plus the slot. */
  lemma ClusterAdjustmentNeutral(sb: Superblock, ino: u64, clusterSize: u32, alignMask: u32)
    requires InodeShiftsDefined(sb, clusterSize, alignMask)
    requires InodeOffset(sb, ino, clusterSize, alignMask).Ok?
    requires sb.inopblock * Pow2(sb.inodelog) == Pow2(sb.blocklog)
    ensures var agno := InoToAgno(sb, ino);
      var agino := InoToAgino(sb, ino);
      InodeOffset(sb, ino, clusterSize, alignMask).value
      == (agno * sb.agblocks + AginoToAgbno(sb, agino)) * Pow2(sb.blocklog)
         + AginoToOffset(sb, agino) * Pow2(sb.inodelog)
  {
    InodeOffsetValue(sb, ino, clusterSize, alignMask);
    if ClusterBranch(sb, clusterSize, alignMask) {
      var agbno := AginoToAgbno(sb, InoToAgino(sb, ino));
      var bpc := Shr(clusterSize, sb.blocklog);
      var c := ClusterAgbno(agbno, bpc, alignMask);
      SlotShiftFits(agbno - c, clusterSize, sb.blocklog, sb.inopblock, Pow2(sb.inodelog));
      NeutralArithmetic(InodeOffset(sb, ino, clusterSize, alignMask).value,
        InoToAgno(sb, ino) * sb.agblocks, agbno, c, AginoToOffset(sb, InoToAgino(sb, ino)),
        sb.inopblock, Pow2(sb.inodelog), Pow2(sb.blocklog));
    }
  }

  /** Fewer than a cluster's blocks of inodes, counted in inodes, fit in
      32 bits: the slot shift in the cluster branch never wraps when the
      inodes fill their blocks. */
  lemma SlotShiftFits(d: nat, clusterSize: u32, blocklog: nat, ipb: nat, isz: nat)
    requires d < Shr(clusterSize, blocklog)
    requires ipb * isz == Pow2(blocklog) && isz >= 1
    ensures 0 <= d * ipb < 0x1_0000_0000
  {
    var bpc := Shr(clusterSize, blocklog);
    var bsz := Pow2(blocklog);
    assert bpc * bsz <= clusterSize by {
      SplitJoin(clusterSize, blocklog);
      ShlIsMul(bpc, blocklog);
    }
    assert d * bsz < bpc * bsz by {
      MulStrict(d, bpc, bsz);
    }
    assert d * ipb <= d * bsz by {
      assert d * bsz == (d * ipb) * isz;
      MulAtLeastSelf(d * ipb, isz);
    }
  }

  lemma MulAtLeastSelf(x: nat, k: nat)
    requires k >= 1
    ensures x <= x * k
  {
  }

  lemma MulStrict(a: nat, b: nat, c: nat)
    requires a < b && c > 0
    ensures a * c < b * c
  {
  }

  lemma NeutralArithmetic(v: int, base: int, agbno: int, c: int, offset: int, ipb: int, isz: int, bsz: int)
    requires 0 <= (agbno - c) * ipb < 0x1_0000_0000 && ipb * isz == bsz
    requires v == (base + c) * bsz + (offset + ((agbno - c) * ipb) % 0x1_0000_0000) * isz
    ensures v == (base + agbno) * bsz + offset * isz
  {
    var d := agbno - c;
    ModOfSmall(d * ipb, 0x1_0000_0000);
    calc {
      (offset + d * ipb) * isz;
      offset * isz + d * (ipb * isz);
      offset * isz + d * bsz;
    }
  }

  /** Under the documented geometry (block = 2^blocklog bytes holding
      inopblock inodes of 2^inodelog bytes), an accepted inode lies inside
      block agbno of group agno, at its slot: the quotient by the block
      size is the absolute block and the remainder the slot times the
      inode size. */
  lemma InodeInItsBlock(sb: Superblock, ino: u64, clusterSize: u32, alignMask: u32)
    requires InodeShiftsDefined(sb, clusterSize, alignMask)
    requires InodeOffset(sb, ino, clusterSize, alignMask).Ok?
    requires ConsistentGeometry(sb) && sb.inopblock * sb.inodesize == sb.blocksize
    ensures var agino := InoToAgino(sb, ino);
      var v := InodeOffset(sb, ino, clusterSize, alignMask).value;
      && v / sb.blocksize == InoToAgno(sb, ino) * sb.agblocks + AginoToAgbno(sb, agino)
      && v % sb.blocksize == AginoToOffset(sb, agino) * sb.inodesize
  {
    ClusterAdjustmentNeutral(sb, ino, clusterSize, alignMask);
    var agino := InoToAgino(sb, ino);
    QuotientAndSlot(InodeOffset(sb, ino, clusterSize, alignMask).value,
      InoToAgno(sb, ino) * sb.agblocks + AginoToAgbno(sb, agino), AginoToOffset(sb, agino),
      sb.inopblock, Pow2(sb.inodelog), Pow2(sb.blocklog), sb.inodesize, sb.blocksize);
  }

  lemma QuotientAndSlot(v: int, q: int, slot: int, ipb: int, p: int, b: int, isz: int, bsz: int)
    requires v == q * b + slot * p && p == isz && b == bsz
    requires 0 <= slot < ipb && isz >= 1 && ipb * isz == bsz
    ensures v / bsz == q && v % bsz == slot * isz
  {
    MulStrict(slot, ipb, isz);
    DivModUnique(v, bsz, q, slot * isz);
  }

  /** Group-relative inode number of slot `offset` of block `agbno`, and
      its split back into the two. */
  lemma AginoOfCoordinates(sb: Superblock, agbno: nat, offset: nat)
    requires AginoBits(sb) <= 32 && sb.inopblog < 32
    requires agbno < Pow2(sb.agblklog) && offset < Pow2(sb.inopblog)
    ensures var agino := Shl(agbno, sb.inopblog) + offset;
      && agino < Pow2(AginoBits(sb)) && agino < 0x1_0000_0000
      && AginoToAgbno(sb, agino) == agbno
      && AginoToOffset(sb, agino) == offset
  {
    var k := sb.inopblog;
    var agino := Shl(agbno, k) + offset;
    assert agino < Pow2(AginoBits(sb)) by {
      ShlAddBound(agbno, sb.agblklog, k, offset);
    }
    assert Pow2(AginoBits(sb)) <= 0x1_0000_0000 by {
      Pow2Values();
      Pow2Monotone(AginoBits(sb), 32);
    }
    assert AginoToAgbno(sb, agino) == agbno by {
      SplitUnique(agbno, k, offset);
    }
    assert AginoToOffset(sb, agino) == offset by {
      SplitUnique(agbno, k, offset);
      InoMaskLow(k);
      AndLowMask(agino, k);
    }
  }

  /** Inode number of group `agno` and group-relative number `agino`, and
      its split back into the two. */
  lemma InoOfCoordinates(sb: Superblock, agno: u32, agino: u32)
    requires AginoBits(sb) <= 32 && agino < Pow2(AginoBits(sb))
    ensures var ino := AginoToIno(sb, agno, agino);
      InoToAgno(sb, ino) == agno && InoToAgino(sb, ino) == agino
  {
    var bits := AginoBits(sb);
    var ino := AginoToIno(sb, agno, agino);
    InoJoin(sb, agno, agino);
    assert InoToAgno(sb, ino) == agno by {
      SplitUnique(agno, bits, agino);
      ModOfSmall(agno, 0x1_0000_0000);
    }
    InoToAginoLow(sb, ino);
    SplitUnique(agno, bits, agino);
  }

  /** Completeness: slot `offset` of block `agbno` of group `agno`, for
      coordinates inside the geometry, is an inode number the translation
      accepts. */
  lemma InodeOffsetComplete(sb: Superblock, clusterSize: u32, alignMask: u32, agno: u32, agbno: u32, offset: u32)
    requires InodeShiftsDefined(sb, clusterSize, alignMask) && AginoBits(sb) <= 32
    requires agno < sb.agcount && agbno < sb.agblocks && offset < sb.inopblock
    requires agbno < Pow2(sb.agblklog) && offset < Pow2(sb.inopblog)
    ensures var agino := Shl(agbno, sb.inopblog) + offset;
      && agino < 0x1_0000_0000
      && InodeOffset(sb, AginoToIno(sb, agno, agino), clusterSize, alignMask).Ok?
  {
    AginoOfCoordinates(sb, agbno, offset);
    InoOfCoordinates(sb, agno, Shl(agbno, sb.inopblog) + offset);
  }

  /** The worked example: 8 blocks per group, 4096-byte blocks holding 4
      inodes of 512 bytes (so agblklog 3, inopblog 2), no cluster
      alignment. Inode 87 is slot 3 of block 5 of group 2: AG-relative block
      2*8+5 = 21 is sector 168, byte 86016, plus 3*512. */
  lemma Inode87Offset(sb: Superblock)
    requires sb.agblklog == 3 && sb.inopblog == 2 && sb.agblocks == 8 && sb.agcount > 2
    requires sb.blocklog == 12 && sb.blocksize == 4096 && sb.inodelog == 9 && sb.inopblock == 4
    ensures InodeShiftsDefined(sb, DEFAULT_INODE_CLUSTER_SIZE, 0)
    ensures InodeOffset(sb, 87, DEFAULT_INODE_CLUSTER_SIZE, 0) == Ok(87552)
  {
    Inode87Example(sb);
    assert Shl(21, 3) == 168;
    assert Shl(168, 9) == 86016;
    assert Shl(3, 9) == 1536;
  }

  /** The same inode with the C's tunables (cluster 8192 bytes, mask 3):
      blocks 4 and 5 form one cluster, so the offset is taken from block 4
      with the slot moved on by one block's 4 inodes, slot 7. Since 4
      inodes of 512 bytes fill only half a 4096-byte block, this is not
      the offset of the plain formula. */
  lemma Inode87OffsetClustered(sb: Superblock, ino: u64)
    requires sb.agblklog == 3 && sb.inopblog == 2 && sb.agblocks == 8 && sb.agcount > 2
    requires sb.blocklog == 12 && sb.blocksize == 4096 && sb.inodelog == 9 && sb.inopblock == 4
    requires ino == 87
    ensures InodeShiftsDefined(sb, DEFAULT_INODE_CLUSTER_SIZE, DEFAULT_INOALIGN_MASK)
    ensures InodeOffset(sb, ino, DEFAULT_INODE_CLUSTER_SIZE, DEFAULT_INOALIGN_MASK) == Ok(85504)
  {
    ClusteredGeometry(sb);
    Inode87Accepted(sb, ino);
    InodeOffsetValue(sb, ino, DEFAULT_INODE_CLUSTER_SIZE, DEFAULT_INOALIGN_MASK);
    var c := ClusterAgbno(5, Shr(DEFAULT_INODE_CLUSTER_SIZE, sb.blocklog), DEFAULT_INOALIGN_MASK);
    ClusteredArithmetic(InodeOffset(sb, ino, DEFAULT_INODE_CLUSTER_SIZE, DEFAULT_INOALIGN_MASK).value,
      sb.agblocks, c, sb.inopblock, Pow2(sb.blocklog), Pow2(sb.inodelog));
  }

  lemma ClusteredArithmetic(v: int, agblocks: int, c: int, ipb: int, bsz: int, isz: int)
    requires agblocks == 8 && c == 4 && ipb == 4 && bsz == 4096 && isz == 512
    requires v == (2 * agblocks + c) * bsz + (3 + ((5 - c) * ipb) % 0x1_0000_0000) * isz
    ensures v == 85504
  {
  }

  /** Inode 87 of the worked example is accepted under the C's tunables:
      slot 3 of block 5 of group 2. */
  lemma Inode87Accepted(sb: Superblock, ino: u64)
    requires sb.agblklog == 3 && sb.inopblog == 2 && sb.agblocks == 8 && sb.agcount > 2
    requires sb.blocklog == 12 && sb.inopblock == 4 && ino == 87
    requires InodeShiftsDefined(sb, DEFAULT_INODE_CLUSTER_SIZE, DEFAULT_INOALIGN_MASK)
    ensures InoToAgno(sb, ino) == 2 && AginoToAgbno(sb, InoToAgino(sb, ino)) == 5
    ensures AginoToOffset(sb, InoToAgino(sb, ino)) == 3
    ensures InodeOffset(sb, ino, DEFAULT_INODE_CLUSTER_SIZE, DEFAULT_INOALIGN_MASK).Ok?
  {
    Inode87Example(sb);
  }

  /** The geometry of the worked example under the C's tunables: two
      blocks per cluster, and block 5 in the cluster starting at block 4. */
  lemma ClusteredGeometry(sb: Superblock)
    requires sb.agblklog == 3 && sb.inopblog == 2 && sb.blocklog == 12 && sb.blocksize == 4096
    requires sb.inodelog == 9
    ensures InodeShiftsDefined(sb, DEFAULT_INODE_CLUSTER_SIZE, DEFAULT_INOALIGN_MASK)
    ensures ClusterBranch(sb, DEFAULT_INODE_CLUSTER_SIZE, DEFAULT_INOALIGN_MASK)
    ensures ClusterAgbno(5, Shr(DEFAULT_INODE_CLUSTER_SIZE, sb.blocklog), DEFAULT_INOALIGN_MASK) == 4
    ensures Pow2(sb.blocklog) == 4096 && Pow2(sb.inodelog) == 512
  {
    assert Shr(8192, 12) == 2;
    assert And(5, 3) == 1;
    Pow2Values();
    Pow2Add(8, 4);
    Pow2Add(8, 1);
  }
}
