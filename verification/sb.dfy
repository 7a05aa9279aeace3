/** The XFS superblock as the decoder delivers it (`xfs_dsb_t`, include/sb.h).
    The fields keep the declared order, which is the order they are read
    in. The two UUIDs are held as the 36-character strings they are printed
    to, not as their 16 on-disk bytes, so this record is not the on-disk
    image; `bad_features2`, declared only to pad the structure, has no
    field here because nothing is ever stored in it. */
module Sb {
  import opened XfsCommon
  import opened Bits

  /** 'XFSB' */
  const XFS_SB_MAGIC: u32 := 0x58465342

  datatype Superblock = Superblock(
    magicnum: u32,            // XFS_SB_MAGIC
    blocksize: u32,           // logical block size, bytes
    dblocks: u64,             // number of data blocks
    rblocks: u64,             // number of realtime blocks
    rextents: u64,            // number of realtime extents
    uuid: string,             // user-visible file system unique id
    logstart: u64,            // starting block of the log if internal
    rootino: u64,             // root inode number
    rbmino: u64,              // bitmap inode for realtime extents
    rsumino: u64,             // summary inode for the realtime bitmap
    rextsize: u32,            // realtime extent size, blocks
    agblocks: u32,            // size of an allocation group, blocks
    agcount: u32,             // number of allocation groups
    rbmblocks: u32,           // number of realtime bitmap blocks
    logblocks: u32,           // number of log blocks
    versionnum: u16,          // header version
    sectsize: u16,            // volume sector size, bytes
    inodesize: u16,           // inode size, bytes
    inopblock: u16,           // inodes per block
    fname: seq<byte>,         // file system name, the 12-byte array
    blocklog: u8,             // log2 of blocksize
    sectlog: u8,              // log2 of sectsize
    inodelog: u8,             // log2 of inodesize
    inopblog: u8,             // log2 of inopblock
    agblklog: u8,             // log2 of agblocks, rounded up
    rextslog: u8,             // log2 of rextents
    inprogress: u8,           // mkfs is in progress
    imax_pct: u8,             // maximum percentage of space for inodes
    icount: u64,              // allocated inodes
    ifree: u64,               // free inodes
    fdblocks: u64,            // free data blocks
    frextents: u64,           // free realtime extents
    uquotino: u64,            // user quota inode
    gquotino: u64,            // group quota inode
    qflags: u16,              // quota flags
    flags: u8,                // miscellaneous flags
    shared_vn: u8,            // shared version number
    inoalignmt: u32,          // inode chunk alignment, blocks
    unit: u32,                // stripe or raid unit
    width: u32,               // stripe or raid width
    dirblklog: u8,            // log2 of the directory block size, in blocks
    logsectlog: u8,           // log2 of the log sector size
    logsectsize: u16,         // log sector size, bytes
    logsunit: u32,            // log stripe unit
    features2: u32,           // additional feature bits
    features_compat: u32,
    features_ro_compat: u32,
    features_incompat: u32,
    features_log_incompat: u32,
    crc: u32,                 // superblock crc, declared little-endian
    spino_align: u32,         // sparse inode chunk alignment
    pquotino: u64,            // project quota inode
    lsn: u64,                 // last write sequence
    meta_uuid: string         // metadata file system unique id
  )

  /** What the header documents about the geometry fields: each log field
      is the base-2 logarithm of its count, and agblklog is that of
      agblocks rounded up. The decoder copies these fields as they are on
      disk and checks none of it; the address lemmas assume it where they
      need it. */
  predicate ConsistentGeometry(sb: Superblock)
  {
    && sb.blocksize == Pow2(sb.blocklog)
    && sb.inodesize == Pow2(sb.inodelog)
    && sb.inopblock == Pow2(sb.inopblog)
    && sb.agblocks <= Pow2(sb.agblklog)
  }
}
