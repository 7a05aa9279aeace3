# XFS metadata decoders

A model of the part of a small XFS reader that turns raw on-disk bytes
into records. It covers four parts:

- the superblock in sector 0 (`parse_buff_to_superblock`);
- v3 inodes with their data forks (`parse_buff_to_inode`): the 176-byte
  core, short-form directories, extent lists and symbolic link targets;
- single- and multi-block directory blocks (`parse_buff_to_dir_ext`);
- the translation of inode numbers and filesystem block numbers into
  byte offsets on the device (`get_inode_offset_by_ino`,
  `get_block_offset_by_blknum`), together with the address macros of
  `include/xfs_inode.h` that split those numbers into allocation-group
  coordinates.

The modules follow the source files:

- `XfsCommon`: the fixed-width field types and the decoders' `Result`.
- `Bits`: the C's `&`, `|`, `<<` and `>>`, defined bitwise on naturals.
- `Bytes`: the `xfs_getu16/24/32/64` readers under a byte order, the
  `strncpy` copies and the `%08X-%04X-...` UUID printing.
- `Sb`: the superblock record of `include/sb.h`.
- `XfsInodeH`: the constants, records and address macros of
  `include/xfs_inode.h`.
- `XfsSb`: the superblock decoder.
- `XfsAddress`: the two offset functions.
- `XfsExtent`: the packed 128-bit extent records.
- `XfsInode`: the inode decoder.
- `XfsDir`: the directory block decoder.

**Decoders.** Every decoder is a function returning
`Ok(record)` or `Err(reason)`. The C returns 1 for every one of these
reasons; the model keeps them apart. The imperative decoders are also
written as methods with the C's loops, each proved equal to its
function:

- the count-then-fill loops of the extent list and the directory block,
  which fill fresh arrays;
- the entry loop of the short-form directory.

**Byte order and buffer length.** The byte order is a parameter
(`Unknown`, `Little` or `Big`), as the caller's probe supplies it. The
buffer length is the length of the byte sequence.

**Reads past the end.** Where the C would read past the end of its
buffer, the model returns `Truncated`. This applies to:

- an extent scan that reaches the end of the buffer before it meets a zero record or counts `nblocks` blocks;
- a directory scan that runs off the block;
- short-form entries longer than the inode buffer;
- an unterminated link target.

Every in-bounds decision is taken exactly as the C takes it. Once the
extent scan has counted `nblocks` blocks, its loop ends whatever the
next record holds, so the model stops there without reading that record,
even when it would lie past the end of the buffer.

**Where the header declaration and the code disagree.**

- `sb_crc` is declared little-endian in `include/sb.h:75`, but
  `libxfs/xfs_sb.c:176` reads it with the caller's byte order like every
  other field. The model follows the code.
- `sb_bad_features2` is declared as a field, but the decoder steps over
  its four bytes (`libxfs/xfs_sb.c:164-165`). The model follows the code
  and proves those bytes are never looked at.

## Model

| member | source | states |
|---|---|---|
| XfsSb.DecodeSuperblock | libxfs/xfs_sb.c:3-206 | fails exactly for an unknown byte order (UnknownEndian) or a first word other than 'XFSB' (BadMagic carrying the word read); on success the magic is 'XFSB', both UUIDs are 36-character UUID strings and the name is 12 bytes |
| XfsSb.DecodeReadsOnlyPrefix | libxfs/xfs_sb.c:18-202 | two sectors that agree on bytes 0..263 decode to the same result: nothing beyond the last field read matters |
| XfsSb.GeometryOffsets | libxfs/xfs_sb.c:28-116 | block size, data blocks, root inode, AG blocks, AG count, sector/inode sizes, inodes per block and every log2 field are the words at their on-disk offsets (4, 8, 56, 84, 88, 102, 104, 106, 120..125, 192, 193) |
| XfsSb.LogFieldsUnchecked | libxfs/xfs_sb.c:27-202 | once the magic is accepted, changing any later byte never makes the decode fail: no field is validated |
| XfsSb.UuidPrintsItsBytes | libxfs/xfs_sb.c:40-55 | the printed `sb_uuid` parses back to the 32-bit, two 16-bit and eight single-byte groups read at offset 32 |
| XfsSb.MetaUuidPrintsItsBytes | libxfs/xfs_sb.c:187-202 | the printed `sb_meta_uuid` parses back to the groups read at offset 248 |
| XfsSb.FnameIsStrncpy | libxfs/xfs_sb.c:96-100 | the name is bytes 108..119 as `strncpy(.., 12)` leaves them: the same C string, copied up to the first NUL, zero after it |
| XfsSb.BadFeatures2Skipped | libxfs/xfs_sb.c:164-165 | changing any of bytes 204..207 (`sb_bad_features2`) leaves the decode unchanged |
| XfsInodeH.InoMaskLow | include/xfs_inode.h:148 | `XFS_INO_MASK(k)` is 2^k - 1 for k up to 32 |
| XfsInodeH.InoToAginoLow | include/xfs_inode.h:156-157 | `XFS_INO_TO_AGINO` keeps the low agblklog + inopblog bits of the inode number |
| XfsInodeH.InoJoin | include/xfs_inode.h:162-163 | `XFS_AGINO_TO_INO` of a group number and an in-range AG inode is agno shifted up plus agino (the OR adds) |
| XfsInodeH.InoSplitJoin | include/xfs_inode.h:154-163 | splitting an inode number into group and AG inode and joining them gives it back if and only if its group part fits in 32 bits |
| XfsInodeH.AginoSplit | include/xfs_inode.h:164-166 | an AG inode number is its block (`XFS_AGINO_TO_AGBNO`) shifted up OR its slot (`XFS_AGINO_TO_OFFSET`), and the slot is below 2^inopblog |
| XfsInodeH.FsbSplit | include/xfs_inode.h:139-142 | a block number whose group part fits in 32 bits is its group (`XFS_FSB_TO_AGNO`) shifted up OR its AG block (`XFS_FSB_TO_AGBNO`), the latter below 2^agblklog |
| XfsInodeH.DaddrInBytes | include/xfs_inode.h:143-146 | `XFS_AGB_TO_DADDR` in 512-byte units, shifted by `BBSHIFT`, is (agno * agblocks + agbno) blocks in bytes |
| XfsInodeH.Inode87Example | include/xfs_inode.h:154-166 | with 8 blocks per group and 4 inodes per block, inode 87 is group 2, AG inode 23, block 5, slot 3, and joins back to 87 |
| XfsInodeH.FormatBitTests | include/xfs_inode.h:12-18 | for the five fork formats, `format & XFS_DINODE_FMT_LOCAL` holds for LOCAL and BTREE only, and `format & XFS_DINODE_FMT_EXTENTS` for EXTENTS and BTREE only |
| XfsInodeH.EntrySizeRoundsUp | include/xfs_inode.h:46 | a block directory entry's size `(19+n)&0xFFF8` is a multiple of 8 and leaves 0 to 7 bytes of padding after its 12 + n bytes |
| XfsAddress.ClusterAgbno | libxfs/xfs_inode.c:28-32 | the cluster's first block is at or below the inode's block and less than one cluster before it |
| XfsAddress.InodeOffset | libxfs/xfs_inode.c:10-42 | fails (OutOfRange) exactly when the group, the block in the group or the slot in the block is outside the geometry, or the inode number does not survive its split into group coordinates |
| XfsAddress.InodeOffsetValue | libxfs/xfs_inode.c:28-40 | the offset is the start of the inode's block (or, in the cluster branch, of its cluster) plus its slot (or its slot counted from the cluster start, in 32 bits) times the inode size |
| XfsAddress.ClusterAdjustmentNeutral | libxfs/xfs_inode.c:28-40 | when inodes fill the block exactly, the cluster adjustment changes nothing: the offset is the inode's block plus its slot times the inode size |
| XfsAddress.InodeInItsBlock | libxfs/xfs_inode.c:20-40 | on a consistent geometry the offset divided by the block size is the inode's filesystem-wide block, and the remainder is its slot times the inode size |
| XfsAddress.AginoOfCoordinates | include/xfs_inode.h:164-166 | an in-range block and slot packed into an AG inode number are recovered by `XFS_AGINO_TO_AGBNO` and `XFS_AGINO_TO_OFFSET` |
| XfsAddress.InoOfCoordinates | include/xfs_inode.h:154-163 | an in-range group and AG inode joined by `XFS_AGINO_TO_INO` are recovered by `XFS_INO_TO_AGNO` and `XFS_INO_TO_AGINO` |
| XfsAddress.InodeOffsetComplete | libxfs/xfs_inode.c:20-27 | every inode number built from an in-range group, block and slot is accepted |
| XfsAddress.Inode87Offset | libxfs/xfs_inode.c:35-40 | without the cluster branch, inode 87 on a 4 KiB-block, 512-byte-inode geometry is at byte 87552 |
| XfsAddress.Inode87OffsetClustered | libxfs/xfs_inode.c:4-40 | with the default cluster size 8192 and mask 3, inode 87 on the same geometry is at byte 85504 |
| XfsAddress.BlockOffset | libxfs/xfs_inode.c:44-61 | fails (OutOfRange) exactly when the block's group or its block in the group is outside the geometry |
| XfsAddress.BlockOffsetValue | libxfs/xfs_inode.c:57-58 | the offset is (agno * agblocks + agbno) blocks in bytes, so it is block aligned |
| XfsAddress.BlockOffsetComplete | libxfs/xfs_inode.c:51-58 | every block number built from an in-range group and block is accepted at that group's block |
| XfsAddress.BlockNumberAliasing | libxfs/xfs_inode.c:51 | adding a multiple of 2^32 to the group part of a block number does not change the result: the 32-bit cast of `XFS_FSB_TO_AGNO` drops it |
| XfsExtent.ExtentFields | include/xfs_inode.h:64-69 | the four fields cut from a 128-bit record fit their 1, 54, 52 and 21 bits |
| XfsExtent.PackRoundTrip | include/xfs_inode.h:64-69 | cutting a packed record at bits 127, 73 and 21 gives back the fields packed into it |
| XfsExtent.UnpackExtentFields | libxfs/xfs_inode.c:234-240 | the C's unpacking yields the record's flag, file offset and block count, and a start block equal to the 52-bit field plus the low two bits of the file offset shifted to bit 52 |
| XfsExtent.StartblockQuirk | libxfs/xfs_inode.c:237 | the unpacked start block equals the record's start block field if and only if the file offset is a multiple of 4 |
| XfsExtent.ExtentRoundTrip | libxfs/xfs_inode.c:234-240 | a record packed big-endian and unpacked gives back the flag, offset and count, and the start block with the same two bits added |
| XfsExtent.ExtentExample | libxfs/xfs_inode.c:234-240 | the record (0, 1000, 50000, 10) unpacks to itself |
| XfsExtent.ScanFrom | libxfs/xfs_inode.c:212-218 | a count from record j is at least j and names a record that starts no later than the end of the buffer; the only failure is Truncated |
| XfsExtent.CountExtents | libxfs/xfs_inode.c:208-218 | the counting loop returns `ExtentCount` |
| XfsExtent.ScanFromStops | libxfs/xfs_inode.c:212-218 | from record j on, the count is the first record before which the 32-bit block sum reaches `nblocks`, or which lies in the buffer with zero bytes 8..15; Truncated means no record up to the end of the buffer stops it |
| XfsExtent.ExtentCountExact | libxfs/xfs_inode.c:208-218 | the count is the first stopping record, where a record stops the scan once the block sum before it reaches `nblocks` even if it lies past the buffer; Truncated exactly when no record up to the end of the buffer stops the scan |
| XfsExtent.CountSettledAtEnd | libxfs/xfs_inode.c:208-218 | a buffer holding exactly one record with nonzero bytes 8..15 and a block count equal to `nblocks` counts one extent, although the next record lies past its end |
| XfsExtent.ExtentCountUnique | libxfs/xfs_inode.c:208-218 | a record that stops the scan, with none before it, is the count |
| XfsExtent.UnpackedExtents | libxfs/xfs_inode.c:228-253 | n records are unpacked, record j from offset 176 + 16j |
| XfsExtent.ReadExtent | libxfs/xfs_inode.c:234-240 | one record is unpacked and the cursor advances 16 bytes |
| XfsExtent.UnpackExtents | libxfs/xfs_inode.c:221-254 | a fresh array holds the n unpacked records in order |
| XfsInode.CoreLayout | libxfs/xfs_inode.c:85-170 | the type and mode are the mode word under 0xFE00 and 0x1FF; version, format, size, block count and inode number are read at offsets 4, 5, 56, 64 and 152 |
| XfsInode.CoreUuid | libxfs/xfs_inode.c:160-171 | the inode's UUID is the printing of the 16 bytes at offset 160 |
| XfsInode.TypeModeSplit | libxfs/xfs_inode.c:85-86 | type and mode share no bit and OR back to the mode word: the type is its top seven bits in place, the mode its low nine |
| XfsInode.TypeKeepsFileType | libxfs/xfs_inode.c:85-86 | masking the mode word with 0xFE00 keeps its file type bits, so `S_ISDIR` and `S_ISLNK` of the type agree with the raw word |
| XfsInode.TypeMaskCoversFileType | libxfs/xfs_inode.c:85 | 0xFE00 covers every `S_IFMT` bit |
| XfsInode.LocalOffsets | libxfs/xfs_inode.c:191-205 | k entries laid end to end give k offsets, each with its whole entry inside the buffer; the only failure is Truncated |
| XfsInode.LocalEntriesAtSnoc | libxfs/xfs_inode.c:191-205 | reading one more offset appends one more entry |
| XfsInode.LocalDirFork | libxfs/xfs_inode.c:175-205 | the short-form directory fails only with Truncated |
| XfsInode.ParseLocalDir | libxfs/xfs_inode.c:176-205 | the header reads and the entry loop return `LocalDirFork` |
| XfsInode.ReadLocalEntry | libxfs/xfs_inode.c:192-204 | one entry is read and the cursor advances over its 8 + namelen bytes |
| XfsInode.ParseLocalEntries | libxfs/xfs_inode.c:190-205 | the loop over `count` entries returns `LocalEntries` |
| XfsInode.LocalOffsetsChain | libxfs/xfs_inode.c:191-205 | the first entry starts at the given offset and each next one right after the previous one's 8 + namelen bytes |
| XfsInode.LocalDirLayout | libxfs/xfs_inode.c:175-205 | a decoded short-form directory holds the count, i8count and parent read at 176, 177 and 178, and exactly `count` entries, the first at 182, each next one after the last, entry j read at offset j |
| XfsInode.LocalDirAccepted | libxfs/xfs_inode.c:175-205 | a local-format directory decodes exactly when the header and all `count` entries fit in the buffer |
| XfsInode.EncodeLocalEntry | include/xfs_inode.h:50-56 | an entry takes 8 bytes plus its name |
| XfsInode.StrncpyOfName | libxfs/xfs_inode.c:200 | `strncpy` of a name with no NUL is the name |
| XfsInode.LocalEntryFromFields | libxfs/xfs_inode.c:192-204 | bytes holding an entry's length, offset, name, file type and inode number at their places read back as that entry |
| XfsInode.EncodedEntryFields | include/xfs_inode.h:50-56 | an encoded entry puts the length at 0, the offset at 1, the name at 3, the file type and inode number after the name |
| XfsInode.LocalEntryRoundTrip | libxfs/xfs_inode.c:192-204 | an encoded well-formed entry read back is the entry, and it spans exactly its encoding |
| XfsInode.LocalOffsetsRoundTrip | libxfs/xfs_inode.c:191-205 | encoded well-formed entries laid end to end are all found, and entry j reads back as the jth entry |
| XfsInode.LocalEntriesRoundTrip | libxfs/xfs_inode.c:191-205 | reading back as many entries as were encoded gives exactly those entries |
| XfsInode.LocalDirRoundTrip | libxfs/xfs_inode.c:175-205 | a local directory whose count matches its encoded entries decodes to its header and exactly those entries |
| XfsInode.ExtentFork | libxfs/xfs_inode.c:206-258 | the extent fork fails only with Truncated |
| XfsInode.DecodeFork | libxfs/xfs_inode.c:175-270 | the data fork fails only with Truncated |
| XfsInode.FormatDispatch | libxfs/xfs_inode.c:175-270 | a BTREE-format directory is read as short-form and a BTREE-format file with blocks as an extent list; DEV and UUID formats are never read as either; a short-form fork means a directory of format LOCAL or BTREE |
| XfsInode.SymlinkTarget | libxfs/xfs_inode.c:259-265 | a link target belongs to a link of nonzero size; it is the at most `size` bytes after the core, up to and not including the first NUL |
| XfsInode.EmptyFork | libxfs/xfs_inode.c:266-267 | a size-0 inode that neither fork test selects has an empty fork |
| XfsInode.ExtentForkCount | libxfs/xfs_inode.c:206-254 | an extent list belongs to an inode with blocks; its length is the scan's count, no earlier record stops the scan and record j is unpacked from offset 176 + 16j |
| XfsInode.ParseInode | libxfs/xfs_inode.c:63-273 | fails exactly for an unknown byte order (UnknownEndian) or a first word other than 'IN' (BadMagic carrying the word); a decoded inode has magic 'IN' and came from at least 176 bytes |
| XfsInode.ParseBuffToInode | libxfs/xfs_inode.c:63-273 | the step-by-step decoder, with the extent count and unpack loops, returns `ParseInode` |
| XfsDir.Check0 | libxfs/xfs_inode.c:337-348 | the sign-extended first byte is the unused tag 0xFFFF if and only if the byte is 0xFF, and is unchanged below 0x80 |
| XfsDir.DirHeaderUuid | libxfs/xfs_inode.c:303-318 | the printed header UUID parses back to the 32-bit number at 24, the 16-bit numbers at 28 and 30 and the bytes 32..39 |
| XfsDir.DirHeaderReadsPrefix | libxfs/xfs_inode.c:292-335 | two blocks that agree on bytes 0..59 have the same header: the pad bytes 60..63 are never read |
| XfsDir.DirOffsets | libxfs/xfs_inode.c:336-350 | every offset the scan steps over is at or after its start and has its whole entry inside the block; the only failure is Truncated |
| XfsDir.DecodeDirBlock | libxfs/xfs_inode.c:275-383 | fails with UnknownEndian exactly for an unknown byte order, and with BadMagic (carrying the word) exactly when the first word is neither 'XDB3' nor 'XDD3'; a decoded block has one of those magics and a full 64-byte header |
| XfsDir.DirOffsetsHead | libxfs/xfs_inode.c:340-349 | a nonempty scan starts at its start and goes on from the next entry |
| XfsDir.CountDirEntries | libxfs/xfs_inode.c:336-350 | the counting loop returns the number of offsets the scan finds, and fails exactly when it does |
| XfsDir.ReadDirEntry | libxfs/xfs_inode.c:359-372 | one entry is read and the cursor advances over its padded size |
| XfsDir.ReadDirEntries | libxfs/xfs_inode.c:351-375 | a fresh array holds the entries at the scan's offsets, in order |
| XfsDir.ParseBuffToDirExt | libxfs/xfs_inode.c:275-383 | the step-by-step decoder returns `DecodeDirBlock` |
| XfsDir.NextEntry | libxfs/xfs_inode.c:341-346 | the next entry starts at least 12 bytes and a multiple of 8 bytes after the current one, inside the block |
| XfsDir.DirOffsetsChain | libxfs/xfs_inode.c:340-349 | the scan's offsets start at its start and each next one is where the previous entry ends |
| XfsDir.DirOffsetsStops | libxfs/xfs_inode.c:340 | no offset the scan steps over meets the stop condition, and the place after the last one does |
| XfsDir.DirOffsetsAligned | libxfs/xfs_inode.c:345 | from an 8-byte aligned start every entry offset is 8-byte aligned |
| XfsDir.DirOffsetsEmpty | libxfs/xfs_inode.c:340 | the scan finds no entry if and only if it stops at once |
| XfsDir.FreeTagStopsScan | libxfs/xfs_inode.c:337-340 | an unused-space tag 0xFFFF at the scan position ends the scan with no entry |
| XfsDir.CutInsideEntry | libxfs/xfs_inode.c:340-346 | a block cut inside an entry it would step over is Truncated |
| XfsDir.CutAfterEntry | libxfs/xfs_inode.c:340-346 | cutting the block after an entry leaves that entry found |
| XfsDir.ScanOfCutBuffer | libxfs/xfs_inode.c:340-349 | cutting the block inside any entry of a successful scan makes the scan Truncated |
| XfsDir.DirBlockCutMidEntry | libxfs/xfs_inode.c:275-383 | a decodable block cut inside one of its entries is Truncated |
| XfsDir.DirBlockEntries | libxfs/xfs_inode.c:336-375 | a decoded block has one entry per scan offset; the first is at 64, each is 8-byte aligned, inside the block, read at its offset, with a nonzero inode number and no unused tag |
| Bytes.CStr | libxfs/xfs_inode.c:200 | the C string of a byte run is its prefix before the first NUL, or all of it |
| Bytes.StrncpyCopiesCStr | libxfs/xfs_sb.c:99 | `strncpy` keeps the C string and zero-fills after it |
| Bytes.ReadCStr | libxfs/xfs_inode.c:259-265 | at most n bytes from the offset, up to the first NUL; Truncated exactly when the bytes run past the buffer's end with no NUL |
| Bytes.GetPutUN | libxfs/xfs_inode.c:79 | a value written in n bytes under a byte order reads back modulo 2^(8n) |
| Bytes.BeValueZero | libxfs/xfs_inode.c:209-217 | a big-endian word is zero if and only if all its bytes are |
| Bytes.LeValueZero | libxfs/xfs_inode.c:209-217 | a little-endian word is zero if and only if all its bytes are |
| Bytes.GetUNZero | libxfs/xfs_inode.c:338-349 | a word read under either byte order is zero if and only if all its bytes are |
| Bytes.GetU16AllOnes | libxfs/xfs_inode.c:340 | a 16-bit word of 0xFFFF has both bytes 0xFF |
| Bytes.FormatUuid | libxfs/xfs_inode.c:171 | the printed UUID is 36 characters, dashes at 8, 13, 18 and 23 and uppercase hex digits elsewhere |
| Bytes.HexRoundTrip | libxfs/xfs_inode.c:171 | a value printed with `%0wX` in w digits parses back to itself |
| Bytes.HexBytesRoundTrip | libxfs/xfs_inode.c:171 | bytes printed with `%02X` each parse back to themselves |
| Bytes.UuidRoundTrip | libxfs/xfs_inode.c:160-171 | the printed UUID parses back to the 32-bit, two 16-bit and eight single-byte groups read at the offset |

## Left out

- The Sleuth Kit glue (`libxfs/tsk_xfs.c`, `include/tsk_xfs.h`) is not part of this model. That includes the reads from the device and the byte-order probe. The byte order is a parameter instead.
- `free_inode` and `free_dir_ext` (`libxfs/xfs_inode.c:385-428`) only release memory. That has no counterpart on values.
- NULL checks of the buffer and output pointers are not modelled. Neither is the `calloc` path that allocates an inode the caller never sees. A sequence is never null.
- Failed `calloc` of a name, a link target or the extent array is not modelled; allocation always succeeds.
- `Dprintf` logging is not modelled. That includes the file-type switch in the extent loop (`libxfs/xfs_inode.c:242-250`), which only logs.
- The comparison of the short-form parent number with the inode number (`libxfs/xfs_inode.c:180-182`) only logs. The model stores the parent as read.
- The directory decoder's check that the fill loop read as many entries as it counted only logs too.
- Some values are never used by the decoders: `blkbb`, `numblks`, `XFS_DIR3_FREE_MAGIC` and the `dirhdr`/`entry` fields of the inode record.
- No CRC is verified. The crc fields are passed through as read.
- Some forks are not decoded:
  - short-form directories with 8-byte inode numbers (`i8count != 0`) are read as if the numbers were 4 bytes, as the C does;
  - btree and device forks are not decoded beyond the format dispatch, also as in the C.
- The bodies of `xfs_getu16/24/32/64` are not part of this model. The readers are defined as plain byte compositions under the byte order: little-endian for `Little`, big-endian otherwise.
- Buffer lengths:
  - the buffer size is the sequence length;
  - the inode decoder accepts any length and reports Truncated below 176 bytes;
  - the superblock decoder takes exactly 512 bytes, the size of the C's parameter array.
- Reads past the end of the buffer are replaced by `Truncated` (see above). The C's behaviour there is undefined.
- The inode cluster size and alignment mask are parameters. The C keeps them in two globals initialised to 8192 and 3.
- XfsAddress.InodeOffset: the offset is computed on unbounded integers. The 64-bit signed result of the C, and the `int` slot shifted by `sb_inodelog`, are not wrapped. The one 32-bit product the C computes (`(agbno - cluster_agbno) * sb_inopblock`) is wrapped.
- XfsAddress.BlockOffset: the offset is computed on unbounded integers; the 64-bit wrap of `XFS_AGB_TO_DADDR` is not modelled.
- XfsAddress.InodeOffset and XfsAddress.BlockOffset require their shift counts to lie where the C's shifts are defined. The C's behaviour for larger counts is undefined.
- XfsDir.Check0 assumes a signed `char`, as on x86, where `uint16_t check0 = buf[off]` (`libxfs/xfs_inode.c:337`) sign-extends the byte. With an unsigned `char` the tag 0xFFFF could never match.
- `aformat` is declared `__s8` (`include/xfs_inode.h:94`) and filled from a `char` (`libxfs/xfs_inode.c:128`). The model keeps the same byte as a `u8`, so 0x80..0xFF appear as 128..255 rather than -128..-1. Nothing in the decoders tests its sign.
- Address macros: `XFS_FSB_TO_AGBNO`, `XFS_INO_TO_AGINO` and `XFS_INO_MASK` likewise require shift counts below the width shifted.

## Findings

| source | as written | input that shows it | evidently intended | confidence | as-written member | corrected member |
|---|---|---|---|---|---|---|
| libxfs/xfs_inode.c:237 | the start block is read as `(bytes 6..13 & 0x7FFFFFFFFFFFFE0) >> 5`, a 54-bit mask | a record whose 54-bit file offset is 1 and start block is 0 decodes with start block 2^52 | the 52-bit start block field (mask `0x1FFFFFFFFFFFFE0`) | high; not executed | XfsExtent.StartblockQuirk | XfsExtent.PackRoundTrip |

The decoders keep the behaviour as written:

- `UnpackExtent` uses the 54-bit mask.
- `StartblockQuirk` and `ExtentRoundTrip` state exactly what it adds to the start block.
- `ExtentFields`, with `PackRoundTrip`, is the field split the record format intends.
