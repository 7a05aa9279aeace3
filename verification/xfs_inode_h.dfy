/** The declarations of include/xfs_inode.h: the magic numbers, the data
    fork formats, the decoded records (extents, short-form and block
    directory entries, the inode) and the address macros that split inode
    and block numbers into allocation-group coordinates. */
module XfsInodeH {
  import opened XfsCommon
  import opened Bits
  import opened Sb

  const XFS_INODE_MAGIC: u16 := 0x494e             // 'IN'
  const XFS_DIR3_BLOCK_MAGIC: u32 := 0x58444233    // 'XDB3': single-block directories
  const XFS_DIR3_DATA_MAGIC: u32 := 0x58444433     // 'XDD3': multi-block directories

  // The data fork formats, in enum order.
  const XFS_DINODE_FMT_DEV: u8 := 0
  const XFS_DINODE_FMT_LOCAL: u8 := 1
  const XFS_DINODE_FMT_EXTENTS: u8 := 2
  const XFS_DINODE_FMT_BTREE: u8 := 3
  const XFS_DINODE_FMT_UUID: u8 := 4

  // The file types a directory entry records.
  const DIR_SUB_FILE: u8 := 1
  const DIR_SUB_DIR: u8 := 2
  const DIR_SUB_LNK: u8 := 7

  /** 512-byte basic blocks (sectors). */
  const BBSHIFT: nat := 9

  /** One packed extent record: 1 + 54 + 52 + 21 = 128 bits. */
  const EXTENT_RECORD_BYTES: nat := 16

  /** The size of the on-disk inode core a v3 inode starts with; the data
      fork follows it. */
  const INODE_CORE_BYTES: nat := 176

  /** The size of the block directory header; entries follow it. */
  const DIR3_DATA_HDR_BYTES: nat := 64

  // ---------------------------------------------------------------------
  // Decoded records

  /** `ext_info_t` */
  datatype Extent = Extent(extentflag: u8, startoff: u64, startblock: u64, blockcount: u32)

  /** `inline_list_t`: one entry of a short-form (inline) directory. */
  datatype LocalEntry = LocalEntry(namelen: u8, offset: u16, name: seq<byte>, filetype: u8, inumber: u32)

  /** `xfs_dir3_entry_t`: one entry of a block directory. */
  datatype DirEntry = DirEntry(inumber: u64, namelen: u8, name: seq<byte>, filetype: u8, tag: u16)

  datatype Timestamp = Timestamp(sec: u32, nsec: u32)

  /** `xfs_dir2_data_free_t` */
  datatype DataFree = DataFree(offset: u16, length: u16)

  /** `xfs_dir3_data_hdr_t`, with its block header flattened in. */
  datatype DirHeader = DirHeader(
    magic: u32, crc: u32, blkno: u64, lsn: u64, uuid: string, owner: u64,
    bestFree: seq<DataFree>)

  /** `xfs_dir_ext_t`: a decoded directory block. `subcount` is `|entries|`. */
  datatype DirBlock = DirBlock(hdr: DirHeader, entries: seq<DirEntry>)

  /** What `parse_buff_to_inode` fills in after the core, by format. */
  datatype DataFork =
    | LocalDir(count: u8, i8count: u8, parent: u32, list: seq<LocalEntry>)  // `u3` and `list`
    | ExtentList(exts: seq<Extent>)                                          // `exts`, `extcount`
    | Symlink(path: seq<byte>)                                               // `lnk_path`
    | Empty                                                                  // size 0
    | NotDecoded                                                             // any other data fork

  /** The decoded fields of `xfs_inode_t`; `type` and `mode` are the two
      parts of the 16-bit mode word. */
  datatype InodeCore = InodeCore(
    magic: u16, itype: u16, mode: u16, version: u8, format: u8, onlink: u16,
    uid: u32, gid: u32, nlink: u32, projid_lo: u16, projid_hi: u16, flushiter: u16,
    atime: Timestamp, mtime: Timestamp, ctime: Timestamp,
    size: u64, nblocks: u64, extsize: u32, nextents: u32, anextents: u16,
    forkoff: u8, aformat: u8, dmevmask: u32, dmstate: u16, flags: u16, gen: u32,
    next_unlinked: u32, crc: u32, changecount: u64, lsn: u64, flags2: u64,
    cowextsize: u32, crtime: Timestamp, ino: u64, uuid: string)

  datatype Inode = Inode(core: InodeCore, fork: DataFork)

  // ---------------------------------------------------------------------
  // Address macros. Each takes the superblock the C passes as `sb`; the
  // requires clauses keep every shift count in the range where the C
  // shift is defined.

  /** `XFS_FSB_TO_AGNO`: the allocation group of a filesystem block number. */
  function FsbToAgno(sb: Superblock, fsbno: u64): u32
  {
    Shr(fsbno, sb.agblklog) % 0x1_0000_0000
  }

  /** `XFS_FSB_TO_AGBNO`: the block within its allocation group. */
  function FsbToAgbno(sb: Superblock, fsbno: u64): (r: u32)
    requires sb.agblklog < 32
  {
    Pow2Monotone(sb.agblklog, 32);
    Pow2Values();
    And(fsbno, Pow2(sb.agblklog) - 1)
  }

  /** `XFS_FSB_TO_BB`: a block count in 512-byte basic blocks. */
  function FsbToBB(sb: Superblock, fsbno: nat): nat
    requires sb.blocklog >= BBSHIFT
  {
    Shl(fsbno, sb.blocklog - BBSHIFT)
  }

  /** `XFS_AGB_TO_DADDR`: the disk address, in basic blocks, of block
      `agbno` of allocation group `agno`. */
  function AgbToDaddr(sb: Superblock, agno: u32, agbno: u32): nat
    requires sb.blocklog >= BBSHIFT
  {
    FsbToBB(sb, agno * sb.agblocks + agbno)
  }

  /** `XFS_INO_MASK(k)`: the low k bits as a 32-bit mask. */
  function InoMask(k: nat): u32
    requires k < 64
  {
    Pow2Values();
    (Pow2(k) - 1) % 0x1_0000_0000
  }

  /** For k up to 32 the mask is the whole of the low k bits. */
  lemma InoMaskLow(k: nat)
    requires k <= 32
    ensures InoMask(k) == Pow2(k) - 1
  {
    Pow2Values();
    Pow2Monotone(k, 32);
  }

  /** `XFS_INO_AGINO_BITS`: the bits of an inode number below its group number. */
  function AginoBits(sb: Superblock): nat
  {
    sb.agblklog + sb.inopblog
  }

  /** `XFS_INO_TO_AGNO` */
  function InoToAgno(sb: Superblock, i: u64): u32
  {
    Shr(i, AginoBits(sb)) % 0x1_0000_0000
  }

  /** `XFS_INO_TO_AGINO`: the inode number within its allocation group. */
  function InoToAgino(sb: Superblock, i: u64): u32
    requires AginoBits(sb) < 64
  {
    And(i % 0x1_0000_0000, InoMask(AginoBits(sb)))
  }

  /** `XFS_INO_TO_AGBNO` */
  function InoToAgbno(sb: Superblock, i: u64): u32
    requires sb.inopblog < 32 && sb.agblklog < 64
  {
    And(Shr(i % 0x1_0000_0000, sb.inopblog), InoMask(sb.agblklog))
  }

  /** `XFS_AGINO_TO_INO`: an inode number from group and group-relative number. */
  function AginoToIno(sb: Superblock, a: u32, i: u32): u64
    requires AginoBits(sb) < 64
  {
    Pow2Values();
    OrBound(Shl(a, AginoBits(sb)) % 0x1_0000_0000_0000_0000, i, 64);
    Or(Shl(a, AginoBits(sb)) % 0x1_0000_0000_0000_0000, i)
  }

  /** `XFS_AGINO_TO_AGBNO` */
  function AginoToAgbno(sb: Superblock, i: u32): u32
    requires sb.inopblog < 32
  {
    ShrAtMost(i, sb.inopblog);
    Shr(i, sb.inopblog)
  }

  /** `XFS_AGINO_TO_OFFSET`: the slot of an inode within its block. */
  function AginoToOffset(sb: Superblock, i: u32): u32
    requires sb.inopblog < 64
  {
    And(i, InoMask(sb.inopblog))
  }

  // ---------------------------------------------------------------------
  // Properties of the macros

  /** Splitting an inode number into group and group-relative number and
      joining them again gives the number back exactly when the group
      number fits the 32 bits it is truncated to. */
  lemma InoSplitJoin(sb: Superblock, ino: u64)
    requires AginoBits(sb) <= 32
    ensures AginoToIno(sb, InoToAgno(sb, ino), InoToAgino(sb, ino)) == ino
        <==> Shr(ino, AginoBits(sb)) < 0x1_0000_0000
  {
    var k := AginoBits(sb);
    var hi := Shr(ino, k);
    var agno := InoToAgno(sb, ino);
    var agino := InoToAgino(sb, ino);
    InoToAginoLow(sb, ino);
    assert agino < Pow2(k) by {
      LowBitsBound(ino, k);
    }
    var joined := Shl(agno, k) + agino;
    InoJoin(sb, agno, agino);
    assert Shr(joined, k) == agno by {
      SplitUnique(agno, k, agino);
    }
    assert Shl(hi, k) + agino == ino by {
      SplitJoin(ino, k);
    }
    if hi < 0x1_0000_0000 {
      ModOfSmall(hi, 0x1_0000_0000);
    }
  }

  /** The group-relative number is the low bits of the inode number. */
  lemma InoToAginoLow(sb: Superblock, ino: u64)
    requires AginoBits(sb) <= 32
    ensures InoToAgino(sb, ino) == LowBits(ino, AginoBits(sb))
  {
    var k := AginoBits(sb);
    var low := ino % 0x1_0000_0000;
    assert low == LowBits(ino, 32) by {
      Pow2Values();
      ShrLowBitsDivMod(ino, 32);
    }
    assert InoToAgino(sb, ino) == LowBits(low, k) by {
      InoMaskLow(k);
      AndLowMask(low, k);
    }
    LowBitsOfLowBits(ino, 32, k);
  }

  /** With the group number shifted clear of it, the OR of the two parts
      of an inode number is their sum. */
  lemma InoJoin(sb: Superblock, agno: u32, agino: u32)
    requires AginoBits(sb) <= 32 && agino < Pow2(AginoBits(sb))
    ensures AginoToIno(sb, agno, agino) == Shl(agno, AginoBits(sb)) + agino
  {
    var bits := AginoBits(sb);
    Pow2Values();
    ShlBound(agno, 32, bits);
    Pow2Monotone(32 + bits, 64);
    ModOfSmall(Shl(agno, bits), 0x1_0000_0000_0000_0000);
    OrDisjoint(agno, bits, agino);
  }

  /** A group-relative inode number is its block shifted past the slot
      bits, OR the slot, and the slot is below the inodes per block. */
  lemma AginoSplit(sb: Superblock, agino: u32)
    requires sb.inopblog < 32
    ensures AginoToOffset(sb, agino) < Pow2(sb.inopblog)
    ensures agino == Or(Shl(AginoToAgbno(sb, agino), sb.inopblog), AginoToOffset(sb, agino))
  {
    var k := sb.inopblog;
    Pow2Values();
    Pow2Monotone(k, 32);
    assert InoMask(k) == Pow2(k) - 1;
    AndLowMask(agino, k);
    LowBitsBound(agino, k);
    OrDisjoint(Shr(agino, k), k, LowBits(agino, k));
    SplitJoin(agino, k);
  }

  /** A block number is its group shifted past the group-relative bits,
      OR the group-relative block, when the group fits in 32 bits. */
  lemma FsbSplit(sb: Superblock, fsbno: u64)
    requires sb.agblklog < 32
    requires Shr(fsbno, sb.agblklog) < 0x1_0000_0000
    ensures FsbToAgbno(sb, fsbno) < Pow2(sb.agblklog)
    ensures fsbno == Or(Shl(FsbToAgno(sb, fsbno), sb.agblklog), FsbToAgbno(sb, fsbno))
  {
    var k := sb.agblklog;
    assert FsbToAgno(sb, fsbno) == Shr(fsbno, k) by {
      ModOfSmall(Shr(fsbno, k), 0x1_0000_0000);
    }
    assert FsbToAgbno(sb, fsbno) == LowBits(fsbno, k) by {
      AndLowMask(fsbno, k);
    }
    LowBitsBound(fsbno, k);
    OrDisjoint(Shr(fsbno, k), k, LowBits(fsbno, k));
    SplitJoin(fsbno, k);
  }

  /** The disk address counts 512-byte sectors: shifted by `BBSHIFT` it is
      the byte offset of the block, whose size is 2^blocklog. */
  lemma DaddrInBytes(sb: Superblock, agno: u32, agbno: u32)
    requires sb.blocklog >= BBSHIFT
    ensures Shl(AgbToDaddr(sb, agno, agbno), BBSHIFT) == (agno * sb.agblocks + agbno) * Pow2(sb.blocklog)
  {
    var x := agno * sb.agblocks + agbno;
    ShlShl(x, sb.blocklog - BBSHIFT, BBSHIFT);
    ShlIsMul(x, sb.blocklog);
  }

  /** The worked example: with 8 blocks per group (agblklog 3) and 4 inodes
      per block (inopblog 2), inode 87 is slot 3 of block 5 of group 2,
      group-relative number 23, and joins back to 87. */
  lemma Inode87Example(sb: Superblock)
    requires sb.agblklog == 3 && sb.inopblog == 2
    ensures InoToAgno(sb, 87) == 2 && InoToAgino(sb, 87) == 23
    ensures AginoToAgbno(sb, 23) == 5 && AginoToOffset(sb, 23) == 3
    ensures InoToAgbno(sb, 87) == 5
    ensures AginoToIno(sb, 2, 23) == 87
  {
    assert InoMask(5) == 31 && InoMask(3) == 7 && InoMask(2) == 3;
    assert Shl(2, 5) == 64;
  }

  /** The format tests are bit tests: `format & LOCAL` holds for LOCAL and
      for BTREE, `format & EXTENTS` for EXTENTS and for BTREE, and neither
      for DEV or UUID. */
  lemma FormatBitTests(format: u8)
    requires format <= XFS_DINODE_FMT_UUID
    ensures And(format, XFS_DINODE_FMT_LOCAL) != 0
        <==> format == XFS_DINODE_FMT_LOCAL || format == XFS_DINODE_FMT_BTREE
    ensures And(format, XFS_DINODE_FMT_EXTENTS) != 0
        <==> format == XFS_DINODE_FMT_EXTENTS || format == XFS_DINODE_FMT_BTREE
  {
    assert And(0, 1) == 0 && And(1, 1) == 1 && And(2, 1) == 0 && And(3, 1) == 1 && And(4, 1) == 0;
    assert And(0, 2) == 0 && And(1, 2) == 0 && And(2, 2) == 2 && And(3, 2) == 2 && And(4, 2) == 0;
  }

  // ---------------------------------------------------------------------
  // Directory entry size

  /** The bytes a block directory entry with an n-byte name occupies:
      `(19 + n) & 0xFFF8`, header, name, file type, padding and tag. */
  function EntrySize(namelen: u8): nat
  {
    And(19 + namelen, 0xFFF8)
  }

  /** The entry size is the 12 + n bytes of inode number, length byte, name,
      file type and tag rounded up to a multiple of 8; the padding
      `((19+n)&0xFFF8) - (12+n)` is 0 to 7 bytes. */
  lemma EntrySizeRoundsUp(namelen: u8)
    ensures EntrySize(namelen) % 8 == 0
    ensures 12 + namelen <= EntrySize(namelen) < 12 + namelen + 8
  {
    var x: nat := 19 + namelen;
    var q := Shr(x, 3);
    assert EntrySize(namelen) == Shl(q, 3) by {
      assert 0xFFF8 == Shl(0x1FFF, 3);
      AndShiftedMask(x, 0x1FFF, 3);
      assert 0x1FFF == Pow2(13) - 1;
      AndLowMask(q, 13);
      Pow2Values();
      ShrBound(x, 16, 3);
      LowBitsOfSmall(q, 13);
    }
    assert Shl(q, 3) == 8 * q by {
      ShlIsMul(q, 3);
    }
    assert q == x / 8 by {
      ShrLowBitsDivMod(x, 3);
    }
  }
}
