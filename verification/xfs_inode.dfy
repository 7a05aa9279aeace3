/** `parse_buff_to_inode`: decoding an on-disk v3 inode. The 176-byte core
    is read at fixed offsets; what follows it is decoded according to the
    format byte and the file type, as a short-form directory, a list of
    extent records or a symbolic link target. */
module XfsInode {
  import opened XfsCommon
  import opened Bits
  import opened Bytes
  import opened XfsInodeH
  import opened XfsExtent

  // The file type field of a mode word, as `S_ISDIR` and `S_ISLNK` test it.
  const S_IFMT: nat := 0xF000
  const S_IFDIR: nat := 0x4000
  const S_IFLNK: nat := 0xA000

  /** The decoder splits the 16-bit mode word at bit 9: the file type
      keeps the top seven bits, the mode the low nine. */
  const TYPE_MASK: nat := 0xFE00
  const MODE_MASK: nat := 0x1FF
  const MODE_BITS: nat := 9

  predicate IsDir(t: nat)
  {
    And(t, S_IFMT) == S_IFDIR
  }

  predicate IsLnk(t: nat)
  {
    And(t, S_IFMT) == S_IFLNK
  }

  // ---------------------------------------------------------------------
  // The inode core

  /** The core fields, from the 176 bytes of the core under byte order `e`.
      Bytes 24..29 and 132..143 are padding and are stepped over. */
  function DecodeCore(e: Endian, c: seq<byte>): (core: InodeCore)
    requires |c| == INODE_CORE_BYTES
  {
    var raw := GetU16(e, c, 2);
    InodeCore(
      GetU16(e, c, 0), And(raw, TYPE_MASK), And(raw, MODE_MASK), c[4], c[5], GetU16(e, c, 6),
      GetU32(e, c, 8), GetU32(e, c, 12), GetU32(e, c, 16), GetU16(e, c, 20), GetU16(e, c, 22),
      GetU16(e, c, 30),
      Timestamp(GetU32(e, c, 32), GetU32(e, c, 36)),
      Timestamp(GetU32(e, c, 40), GetU32(e, c, 44)),
      Timestamp(GetU32(e, c, 48), GetU32(e, c, 52)),
      GetU64(e, c, 56), GetU64(e, c, 64), GetU32(e, c, 72), GetU32(e, c, 76), GetU16(e, c, 80),
      c[82], c[83], GetU32(e, c, 84), GetU16(e, c, 88), GetU16(e, c, 90), GetU32(e, c, 92),
      GetU32(e, c, 96), GetU32(e, c, 100), GetU64(e, c, 104), GetU64(e, c, 112), GetU64(e, c, 120),
      GetU32(e, c, 128),
      Timestamp(GetU32(e, c, 144), GetU32(e, c, 148)),
      GetU64(e, c, 152),
      FormatUuid(e, c, 160))
  }

  // ---------------------------------------------------------------------
  // Short-form directories

  /** The short-form header is a 1-byte count, a 1-byte count of 8-byte
      inode numbers and a 4-byte parent inode number; entries follow. */
  const LOCAL_COUNT_AT: nat := 176
  const LOCAL_I8COUNT_AT: nat := 177
  const LOCAL_PARENT_AT: nat := 178
  const LOCAL_ENTRIES_AT: nat := 182

  /** The bytes of a short-form entry with an n-byte name: length, 2-byte
      offset, name, file type, 4-byte inode number, with no padding. */
  function LocalEntrySize(namelen: u8): nat
  {
    1 + 2 + namelen + 1 + 4
  }

  /** Whether the entry at `off`, as long as its length byte says, lies
      inside the buffer. */
  predicate LocalEntryFits(buf: seq<byte>, off: nat)
  {
    off < |buf| && off + LocalEntrySize(buf[off]) <= |buf|
  }

  /** The entry at `off`. */
  function LocalEntryAt(e: Endian, buf: seq<byte>, off: nat): (x: LocalEntry)
    requires LocalEntryFits(buf, off)
  {
    var n := buf[off];
    LocalEntry(n, GetU16(e, buf, off + 1), Strncpy(buf[off + 3..off + 3 + n]),
               buf[off + 3 + n], GetU32(e, buf, off + 4 + n))
  }

  /** Where k entries laid end to end from `off` start; `Truncated` if one
      of them runs past the end of the buffer, where the C would read
      beyond it. */
  function LocalOffsets(buf: seq<byte>, off: nat, k: nat): (r: Result<seq<nat>>)
    ensures r.Ok? ==> |r.value| == k
    ensures r.Ok? ==> forall j :: 0 <= j < k ==> LocalEntryFits(buf, r.value[j])
    ensures r.Err? ==> r.error == Truncated
    decreases k
  {
    if k == 0 then Ok([])
    else if !LocalEntryFits(buf, off) then Err(Truncated)
    else Prepend([off], LocalOffsets(buf, off + LocalEntrySize(buf[off]), k - 1))
  }

  /** The entries at the given offsets. */
  function LocalEntriesAt(e: Endian, buf: seq<byte>, offs: seq<nat>): (xs: seq<LocalEntry>)
    requires forall j :: 0 <= j < |offs| ==> LocalEntryFits(buf, offs[j])
    ensures |xs| == |offs|
    ensures forall j :: 0 <= j < |offs| ==> xs[j] == LocalEntryAt(e, buf, offs[j])
  {
    seq(|offs|, j requires 0 <= j < |offs| => LocalEntryAt(e, buf, offs[j]))
  }

  lemma LocalEntriesAtSnoc(e: Endian, buf: seq<byte>, offs: seq<nat>, off: nat)
    requires forall j :: 0 <= j < |offs| ==> LocalEntryFits(buf, offs[j])
    requires LocalEntryFits(buf, off)
    ensures LocalEntriesAt(e, buf, offs + [off])
         == LocalEntriesAt(e, buf, offs) + [LocalEntryAt(e, buf, off)]
  {
  }

  /** `count` entries, one after another from `off`. */
  function LocalEntries(e: Endian, buf: seq<byte>, off: nat, count: nat): (r: Result<seq<LocalEntry>>)
    ensures r.Err? ==> r.error == Truncated
  {
    match LocalOffsets(buf, off, count)
    case Err(err) => Err(err)
    case Ok(offs) => Ok(LocalEntriesAt(e, buf, offs))
  }

  /** The short-form directory after the core: the header, then exactly
      `count` entries. The parent number is stored as read. */
  function LocalDirFork(e: Endian, buf: seq<byte>): (r: Result<DataFork>)
    requires |buf| >= INODE_CORE_BYTES
    ensures r.Err? ==> r.error == Truncated
  {
    if |buf| < LOCAL_ENTRIES_AT then Err(Truncated)
    else
      match LocalEntries(e, buf, LOCAL_ENTRIES_AT, buf[LOCAL_COUNT_AT])
      case Err(err) => Err(err)
      case Ok(list) =>
        Ok(LocalDir(buf[LOCAL_COUNT_AT], buf[LOCAL_I8COUNT_AT], GetU32(e, buf, LOCAL_PARENT_AT), list))
  }

  /** The short-form header, then the entry loop. */
  method ParseLocalDir(e: Endian, buf: seq<byte>) returns (r: Result<DataFork>)
    requires |buf| >= INODE_CORE_BYTES
    ensures r == LocalDirFork(e, buf)
  {
    if |buf| < LOCAL_ENTRIES_AT {
      return Err(Truncated);
    }
    var off: nat := INODE_CORE_BYTES;
    var count := buf[off];
    off := off + 1;
    var i8count := buf[off];
    off := off + 1;
    var i4 := GetU32(e, buf, off);
    off := off + 4;
    var list := ParseLocalEntries(e, buf, off, count);
    if list.Err? {
      return Err(list.error);
    }
    return Ok(LocalDir(count, i8count, i4, list.value));
  }

  /** One short-form entry, read field by field; the cursor ends just
      past it. */
  method ReadLocalEntry(e: Endian, buf: seq<byte>, start: nat) returns (x: LocalEntry, off: nat)
    requires LocalEntryFits(buf, start)
    ensures x == LocalEntryAt(e, buf, start)
    ensures off == start + LocalEntrySize(buf[start])
  {
    off := start;
    var namelen := buf[off];
    off := off + 1;
    var offset := GetU16(e, buf, off);
    off := off + 2;
    var name := Strncpy(buf[off..off + namelen]);
    off := off + namelen;
    var filetype := buf[off];
    off := off + 1;
    var inumber := GetU32(e, buf, off);
    off := off + 4;
    x := LocalEntry(namelen, offset, name, filetype, inumber);
  }

  /** The short-form entry loop: `count` entries into a fresh array, one
      per turn, the cursor stepping over each entry in turn. */
  method ParseLocalEntries(e: Endian, buf: seq<byte>, start: nat, count: nat)
    returns (r: Result<seq<LocalEntry>>)
    ensures r == LocalEntries(e, buf, start, count)
  {
    var list := new LocalEntry[count](_ => LocalEntry(0, 0, [], 0, 0));
    var off: nat := start;
    var i: nat := 0;
    ghost var offs: seq<nat> := [];
    ghost var whole := LocalOffsets(buf, start, count);
    PrependNothing(whole);
    while i < count
      invariant i <= count && |offs| == i
      invariant whole == Prepend(offs, LocalOffsets(buf, off, count - i))
      invariant forall j :: 0 <= j < i ==> LocalEntryFits(buf, offs[j])
      invariant list[..i] == LocalEntriesAt(e, buf, offs)
    {
      if !LocalEntryFits(buf, off) {
        return Err(Truncated);
      }
      var here := off;
      var x;
      x, off := ReadLocalEntry(e, buf, off);
      PrependTwice(offs, [here], LocalOffsets(buf, off, count - i - 1));
      LocalEntriesAtSnoc(e, buf, offs, here);
      list[i] := x;
      assert list[..i + 1] == list[..i] + [x];
      offs := offs + [here];
      i := i + 1;
    }
    assert offs + [] == offs;
    assert list[..] == list[..count];
    return Ok(list[..]);
  }

  // ---------------------------------------------------------------------
  // The whole inode

  /** The extent list after the core: as many records as the count scan
      finds, unpacked. */
  function ExtentFork(e: Endian, buf: seq<byte>, nblocks: u64): (r: Result<DataFork>)
    requires |buf| >= INODE_CORE_BYTES
    ensures r.Err? ==> r.error == Truncated
  {
    match ExtentCount(e, buf, nblocks)
    case Err(err) => Err(err)
    case Ok(n) => Ok(ExtentList(UnpackedExtents(e, buf, n)))
  }

  /** What follows the core, by the first of the C's tests that holds: a
      short-form directory when the format has bit 0 set and the inode is
      a directory; an extent list when the format has bit 1 set and blocks
      are allocated; a link target of at most `size` bytes, up to a NUL,
      for a symbolic link of nonzero size; nothing when the size is 0. */
  function DecodeFork(e: Endian, buf: seq<byte>, core: InodeCore): (r: Result<DataFork>)
    requires |buf| >= INODE_CORE_BYTES
    ensures r.Err? ==> r.error == Truncated
  {
    if And(core.format, XFS_DINODE_FMT_LOCAL) != 0 && IsDir(core.itype) then
      LocalDirFork(e, buf)
    else if And(core.format, XFS_DINODE_FMT_EXTENTS) != 0 && core.nblocks > 0 then
      ExtentFork(e, buf, core.nblocks)
    else if IsLnk(core.itype) && core.size > 0 then
      match ReadCStr(buf, INODE_CORE_BYTES, core.size)
      case Err(err) => Err(err)
      case Ok(path) => Ok(Symlink(path))
    else if core.size == 0 then Ok(Empty)
    else Ok(NotDecoded)
  }

  /** `parse_buff_to_inode`. Fails for an unknown byte order and for a
      magic number other than 'IN'; a buffer too short for what is read
      is `Truncated`. */
  function ParseInode(buf: seq<byte>, e: Endian): (r: Result<Inode>)
    ensures r == Err(UnknownEndian) <==> e == Unknown
    ensures (r.Err? && r.error.BadMagic?)
        <==> e != Unknown && |buf| >= 2 && GetU16(e, buf, 0) != XFS_INODE_MAGIC
    ensures r.Err? && r.error.BadMagic? ==> r.error.magic == GetU16(e, buf, 0)
    ensures r.Ok? ==> |buf| >= INODE_CORE_BYTES && r.value.core.magic == XFS_INODE_MAGIC
  {
    if e == Unknown then Err(UnknownEndian)
    else if |buf| < 2 then Err(Truncated)
    else
      var magic := GetU16(e, buf, 0);
      if magic != XFS_INODE_MAGIC then Err(BadMagic(magic))
      else if |buf| < INODE_CORE_BYTES then Err(Truncated)
      else
        var core := DecodeCore(e, buf[..INODE_CORE_BYTES]);
        GetUNPrefix(e, buf, INODE_CORE_BYTES, 0, 2);
        match DecodeFork(e, buf, core)
        case Err(err) => Err(err)
        case Ok(fork) => Ok(Inode(core, fork))
  }

  /** The decoder: the core, then the branch its format and type select.
      The extent branch counts the records with one loop and unpacks them
      with another. */
  method ParseBuffToInode(buf: seq<byte>, e: Endian) returns (r: Result<Inode>)
    ensures r == ParseInode(buf, e)
  {
    if e == Unknown {
      return Err(UnknownEndian);
    }
    if |buf| < 2 {
      return Err(Truncated);
    }
    var magic := GetU16(e, buf, 0);
    if magic != XFS_INODE_MAGIC {
      return Err(BadMagic(magic));
    }
    if |buf| < INODE_CORE_BYTES {
      return Err(Truncated);
    }
    var core := DecodeCore(e, buf[..INODE_CORE_BYTES]);
    var fork: DataFork;
    if And(core.format, XFS_DINODE_FMT_LOCAL) != 0 && IsDir(core.itype) {
      var local := ParseLocalDir(e, buf);
      if local.Err? {
        return Err(local.error);
      }
      fork := local.value;
    } else if And(core.format, XFS_DINODE_FMT_EXTENTS) != 0 && core.nblocks > 0 {
      var count := CountExtents(e, buf, core.nblocks);
      if count.Err? {
        return Err(count.error);
      }
      if count.value > 0 {
        var exts := UnpackExtents(e, buf, count.value);
        fork := ExtentList(exts[..]);
      } else {
        fork := ExtentList([]);
      }
    } else if IsLnk(core.itype) && core.size > 0 {
      var path := ReadCStr(buf, INODE_CORE_BYTES, core.size);
      if path.Err? {
        return Err(path.error);
      }
      fork := Symlink(path.value);
    } else if core.size == 0 {
      fork := Empty;
    } else {
      fork := NotDecoded;
    }
    return Ok(Inode(core, fork));
  }

  // ---------------------------------------------------------------------
  // Properties of the core

  /** The two parts of the mode word share no bit and OR back to it: the
      type is its top seven bits in place, the mode its low nine. */
  lemma TypeModeSplit(raw: u16)
    ensures And(And(raw, TYPE_MASK), And(raw, MODE_MASK)) == 0
    ensures Or(And(raw, TYPE_MASK), And(raw, MODE_MASK)) == raw
    ensures And(raw, TYPE_MASK) == Shl(Shr(raw, MODE_BITS), MODE_BITS)
    ensures And(raw, MODE_MASK) == LowBits(raw, MODE_BITS)
  {
    var hi := Shr(raw, MODE_BITS);
    var lo := LowBits(raw, MODE_BITS);
    assert And(raw, MODE_MASK) == lo by {
      assert MODE_MASK == Pow2(MODE_BITS) - 1;
      AndLowMask(raw, MODE_BITS);
    }
    assert And(raw, TYPE_MASK) == Shl(hi, MODE_BITS) by {
      assert TYPE_MASK == Shl(Pow2(7) - 1, MODE_BITS);
      AndShiftedMask(raw, Pow2(7) - 1, MODE_BITS);
      AndLowMask(hi, 7);
      Pow2Values();
      ShrBound(raw, 16, MODE_BITS);
      LowBitsOfSmall(hi, 7);
    }
    assert And(Shl(hi, MODE_BITS), lo) == 0 && Or(Shl(hi, MODE_BITS), lo) == raw by {
      LowBitsBound(raw, MODE_BITS);
      AndDisjoint(hi, MODE_BITS, lo);
      OrDisjoint(hi, MODE_BITS, lo);
      SplitJoin(raw, MODE_BITS);
    }
  }

  /** Masking the mode word down to its type keeps the whole file type
      field, so the type tests see what they would see on the raw word. */
  lemma TypeKeepsFileType(raw: u16)
    ensures And(And(raw, TYPE_MASK), S_IFMT) == And(raw, S_IFMT)
    ensures IsDir(And(raw, TYPE_MASK)) <==> IsDir(raw)
    ensures IsLnk(And(raw, TYPE_MASK)) <==> IsLnk(raw)
  {
    AndAssoc(raw, TYPE_MASK, S_IFMT);
    TypeMaskCoversFileType();
  }

  lemma TypeMaskCoversFileType()
    ensures And(TYPE_MASK, S_IFMT) == S_IFMT
  {
    assert Shl(0xF, 12) == S_IFMT;
    AndShiftedMask(TYPE_MASK, 0xF, 12);
    assert Shr(TYPE_MASK, 12) == 0xF;
    assert And(0xF, 0xF) == 0xF;
  }

  /** The core's fields sit where the v3 inode layout puts them: the mode
      word at 2, the format at 5, the size at 56, the block count at 64 and
      the inode number at 152. */
  lemma CoreLayout(e: Endian, buf: seq<byte>)
    requires |buf| >= INODE_CORE_BYTES
    ensures var core := DecodeCore(e, buf[..INODE_CORE_BYTES]);
      && core.itype == And(GetU16(e, buf, 2), TYPE_MASK)
      && core.mode == And(GetU16(e, buf, 2), MODE_MASK)
      && core.version == buf[4] && core.format == buf[5]
      && core.size == GetU64(e, buf, 56) && core.nblocks == GetU64(e, buf, 64)
      && core.ino == GetU64(e, buf, 152)
  {
    GetUNPrefix(e, buf, INODE_CORE_BYTES, 2, 2);
    GetUNPrefix(e, buf, INODE_CORE_BYTES, 56, 8);
    GetUNPrefix(e, buf, INODE_CORE_BYTES, 64, 8);
    GetUNPrefix(e, buf, INODE_CORE_BYTES, 152, 8);
  }

  /** The UUID printed into the core is that of bytes 160..175. */
  lemma CoreUuid(e: Endian, buf: seq<byte>)
    requires |buf| >= INODE_CORE_BYTES
    ensures DecodeCore(e, buf[..INODE_CORE_BYTES]).uuid == FormatUuid(e, buf, 160)
  {
    GetUNPrefix(e, buf, INODE_CORE_BYTES, 160, 4);
    GetUNPrefix(e, buf, INODE_CORE_BYTES, 164, 2);
    GetUNPrefix(e, buf, INODE_CORE_BYTES, 166, 2);
    SliceOfPrefix(buf, INODE_CORE_BYTES, 168, 170);
    SliceOfPrefix(buf, INODE_CORE_BYTES, 170, 176);
  }

  // ---------------------------------------------------------------------
  // Properties of the data fork

  /** The fork of a decoded inode, with the core it was decoded under. */
  lemma ForkOfCore(buf: seq<byte>, e: Endian)
    requires ParseInode(buf, e).Ok?
    ensures |buf| >= INODE_CORE_BYTES
    ensures var i := ParseInode(buf, e).value;
      && i.core == DecodeCore(e, buf[..INODE_CORE_BYTES])
      && DecodeFork(e, buf, i.core) == Ok(i.fork)
  {
  }

  /** Since the format is tested bit by bit, a BTREE inode (format 3)
      takes the short-form path when it is a directory and the extent path
      when it has blocks; a DEV or UUID inode (formats 0 and 4) never takes
      either, and only its link target or nothing is decoded. */
  lemma FormatDispatch(e: Endian, buf: seq<byte>, core: InodeCore, fork: DataFork)
    requires |buf| >= INODE_CORE_BYTES && DecodeFork(e, buf, core) == Ok(fork)
    ensures var f := core.format;
      && (f == XFS_DINODE_FMT_BTREE && IsDir(core.itype) ==> fork.LocalDir?)
      && (f == XFS_DINODE_FMT_BTREE && !IsDir(core.itype) && core.nblocks > 0 ==> fork.ExtentList?)
      && (f == XFS_DINODE_FMT_DEV || f == XFS_DINODE_FMT_UUID ==> !fork.LocalDir? && !fork.ExtentList?)
      && (fork.LocalDir? ==> IsDir(core.itype))
      && (fork.LocalDir? && f <= XFS_DINODE_FMT_UUID ==> f == XFS_DINODE_FMT_LOCAL || f == XFS_DINODE_FMT_BTREE)
  {
    if core.format <= XFS_DINODE_FMT_UUID {
      FormatBitTests(core.format);
    }
  }

  /** A symbolic link target is the bytes after the core up to the first
      NUL, at most `size` of them: it stops at a NUL only, or after
      exactly `size` bytes. */
  lemma SymlinkTarget(e: Endian, buf: seq<byte>, core: InodeCore, path: seq<byte>)
    requires |buf| >= INODE_CORE_BYTES && DecodeFork(e, buf, core) == Ok(Symlink(path))
    ensures IsLnk(core.itype) && core.size > 0
    ensures |path| <= core.size && INODE_CORE_BYTES + |path| <= |buf|
    ensures path == buf[INODE_CORE_BYTES..INODE_CORE_BYTES + |path|]
    ensures forall k :: 0 <= k < |path| ==> path[k] != 0
    ensures |path| < core.size ==> buf[INODE_CORE_BYTES + |path|] == 0
  {
  }

  /** With nothing for the short-form or extent paths to do and a size
      of 0, the fork is empty, and that is no error. */
  lemma EmptyFork(e: Endian, buf: seq<byte>, core: InodeCore)
    requires |buf| >= INODE_CORE_BYTES && core.size == 0
    requires !(And(core.format, XFS_DINODE_FMT_LOCAL) != 0 && IsDir(core.itype))
    requires !(And(core.format, XFS_DINODE_FMT_EXTENTS) != 0 && core.nblocks > 0)
    ensures DecodeFork(e, buf, core) == Ok(Empty)
  {
  }

  /** An extent list holds exactly as many records as the count scan
      finds, each unpacked from its 16-byte slot after the core: the scan
      stops at the first record whose bytes 8..15 are zero or once the
      block counts before it reach `nblocks`, and at no record before. */
  lemma ExtentForkCount(e: Endian, buf: seq<byte>, core: InodeCore, exts: seq<Extent>)
    requires |buf| >= INODE_CORE_BYTES && DecodeFork(e, buf, core) == Ok(ExtentList(exts))
    ensures core.nblocks > 0
    ensures ExtentCount(e, buf, core.nblocks) == Ok(|exts|)
    ensures RecordOffset(|exts|) <= |buf| && Stops(e, buf, core.nblocks, |exts|)
    ensures forall j :: 0 <= j < |exts| ==> !Stops(e, buf, core.nblocks, j)
    ensures forall j :: 0 <= j < |exts| ==> exts[j] == UnpackExtent(e, buf, RecordOffset(j))
  {
    ExtentCountExact(e, buf, core.nblocks);
  }

  /** The short-form offsets: the first entry right after the header,
      each next one where the one before it ends. */
  lemma {:induction false} LocalOffsetsChain(buf: seq<byte>, off: nat, k: nat, offs: seq<nat>)
    requires LocalOffsets(buf, off, k) == Ok(offs)
    ensures k > 0 ==> offs[0] == off
    ensures forall j :: 0 <= j < k - 1 ==> offs[j + 1] == offs[j] + LocalEntrySize(buf[offs[j]])
    decreases k
  {
    if k > 0 {
      var rest := LocalOffsets(buf, off + LocalEntrySize(buf[off]), k - 1);
      var ys := rest.value;
      assert offs == [off] + ys;
      LocalOffsetsChain(buf, off + LocalEntrySize(buf[off]), k - 1, ys);
      forall j | 1 <= j < k - 1
        ensures offs[j + 1] == offs[j] + LocalEntrySize(buf[offs[j]])
      {
        assert offs[j] == ys[j - 1] && offs[j + 1] == ys[j];
      }
    }
  }

  /** A short-form directory has exactly `count` entries, the first at
      byte 182 and each next one right after the one before, with no
      padding; the parent number is the one stored at 178 and is never
      compared with the inode's own number. */
  lemma LocalDirLayout(e: Endian, buf: seq<byte>, core: InodeCore, fork: DataFork)
    requires |buf| >= INODE_CORE_BYTES && DecodeFork(e, buf, core) == Ok(fork) && fork.LocalDir?
    ensures |buf| >= LOCAL_ENTRIES_AT
    ensures LocalOffsets(buf, LOCAL_ENTRIES_AT, buf[LOCAL_COUNT_AT]).Ok?
    ensures var offs := LocalOffsets(buf, LOCAL_ENTRIES_AT, buf[LOCAL_COUNT_AT]).value;
      && fork.count == buf[LOCAL_COUNT_AT] && fork.i8count == buf[LOCAL_I8COUNT_AT]
      && fork.parent == GetU32(e, buf, LOCAL_PARENT_AT)
      && |fork.list| == fork.count
      && (fork.count > 0 ==> offs[0] == LOCAL_ENTRIES_AT)
      && (forall j :: 0 <= j < fork.count - 1 ==> offs[j + 1] == offs[j] + LocalEntrySize(buf[offs[j]]))
      && (forall j :: 0 <= j < fork.count ==> fork.list[j] == LocalEntryAt(e, buf, offs[j]))
  {
    var offs := LocalOffsets(buf, LOCAL_ENTRIES_AT, buf[LOCAL_COUNT_AT]).value;
    LocalOffsetsChain(buf, LOCAL_ENTRIES_AT, buf[LOCAL_COUNT_AT], offs);
  }

  /** On the short-form path the decode succeeds exactly when the
      `count` entries fit in the buffer: what the parent field holds,
      equal to the inode number or not, plays no part. */
  lemma LocalDirAccepted(e: Endian, buf: seq<byte>, core: InodeCore)
    requires |buf| >= INODE_CORE_BYTES
    requires And(core.format, XFS_DINODE_FMT_LOCAL) != 0 && IsDir(core.itype)
    ensures DecodeFork(e, buf, core).Ok?
        <==> |buf| >= LOCAL_ENTRIES_AT && LocalOffsets(buf, LOCAL_ENTRIES_AT, buf[LOCAL_COUNT_AT]).Ok?
  {
  }

  // ---------------------------------------------------------------------
  // Writing short-form entries

  /** What the entry decoder can give back exactly: a name of `namelen`
      bytes without a NUL, which `strncpy` copies whole. */
  predicate LocalEntryWellFormed(x: LocalEntry)
  {
    |x.name| == x.namelen && forall k :: 0 <= k < |x.name| ==> x.name[k] != 0
  }

  /** The bytes a short-form entry is stored as: length, offset, name,
      file type, inode number. */
  function EncodeLocalEntry(e: Endian, x: LocalEntry): (s: seq<byte>)
    ensures |s| == 8 + |x.name|
  {
    [x.namelen as byte] + PutUN(e, x.offset, 2) + x.name + [x.filetype as byte] + PutUN(e, x.inumber, 4)
  }

  /** Entries written one after another, with no padding. */
  function EncodeLocalEntries(e: Endian, xs: seq<LocalEntry>): seq<byte>
  {
    if |xs| == 0 then [] else EncodeLocalEntry(e, xs[0]) + EncodeLocalEntries(e, xs[1..])
  }

  /** A name without NUL is its own `strncpy` copy. */
  lemma StrncpyOfName(name: seq<byte>)
    requires forall k :: 0 <= k < |name| ==> name[k] != 0
    ensures Strncpy(name) == name
  {
    CStrOfPrefix(name, []);
    assert name + [] == name;
  }

  /** An entry whose fields sit in the buffer where the layout puts them
      reads back as itself. */
  lemma LocalEntryFromFields(e: Endian, buf: seq<byte>, off: nat, x: LocalEntry)
    requires LocalEntryWellFormed(x)
    requires off + 8 + x.namelen <= |buf| && buf[off] == x.namelen
    requires buf[off + 1..off + 3] == PutUN(e, x.offset, 2)
    requires buf[off + 3..off + 3 + x.namelen] == x.name
    requires buf[off + 3 + x.namelen] == x.filetype
    requires buf[off + 4 + x.namelen..off + 8 + x.namelen] == PutUN(e, x.inumber, 4)
    ensures LocalEntryFits(buf, off) && LocalEntrySize(buf[off]) == 8 + x.namelen
    ensures LocalEntryAt(e, buf, off) == x
  {
    var n: nat := x.namelen;
    assert LocalEntryFits(buf, off);
    var y := LocalEntryAt(e, buf, off);
    assert y.offset == x.offset by {
      U16RoundTrip(e, buf, off + 1, x.offset);
    }
    assert y.inumber == x.inumber by {
      U32RoundTrip(e, buf, off + 4 + n, x.inumber);
    }
    assert y.name == x.name by {
      StrncpyOfName(x.name);
    }
  }

  /** Where each field of a written entry lies in its bytes. */
  lemma EncodedEntryFields(e: Endian, x: LocalEntry)
    requires LocalEntryWellFormed(x)
    ensures var w, n := EncodeLocalEntry(e, x), x.namelen as nat;
      && w[0] == n && w[1..3] == PutUN(e, x.offset, 2) && w[3..3 + n] == x.name
      && w[3 + n] == x.filetype && w[4 + n..8 + n] == PutUN(e, x.inumber, 4)
  {
  }

  /** A written entry reads back as itself, and spans the bytes written. */
  lemma LocalEntryRoundTrip(e: Endian, buf: seq<byte>, off: nat, x: LocalEntry)
    requires LocalEntryWellFormed(x)
    requires off + |EncodeLocalEntry(e, x)| <= |buf|
    requires buf[off..off + |EncodeLocalEntry(e, x)|] == EncodeLocalEntry(e, x)
    ensures LocalEntryFits(buf, off) && LocalEntrySize(buf[off]) == |EncodeLocalEntry(e, x)|
    ensures LocalEntryAt(e, buf, off) == x
  {
    var w := EncodeLocalEntry(e, x);
    var n: nat := x.namelen;
    EncodedEntryFields(e, x);
    SliceOfWindow(buf, off, w, 0, 1);
    SliceOfWindow(buf, off, w, 1, 3);
    SliceOfWindow(buf, off, w, 3, 3 + n);
    SliceOfWindow(buf, off, w, 3 + n, 4 + n);
    SliceOfWindow(buf, off, w, 4 + n, 8 + n);
    assert buf[off] == buf[off..off + 1][0];
    assert buf[off + 3 + n] == buf[off + 3 + n..off + 4 + n][0];
    LocalEntryFromFields(e, buf, off, x);
  }

  /** The offsets of m + 1 entries: the first at `off`, the rest from
      where it ends. */
  lemma LocalOffsetsStep(buf: seq<byte>, off: nat, next: nat, m: nat, ys: seq<nat>)
    requires LocalEntryFits(buf, off) && next == off + LocalEntrySize(buf[off])
    requires LocalOffsets(buf, next, m) == Ok(ys)
    ensures LocalOffsets(buf, off, m + 1) == Ok([off] + ys)
  {
  }

  /** The first of the entries written from `off` reads back, and the rest
      are written from where it ends. */
  lemma LocalEntriesRoundTripHead(e: Endian, buf: seq<byte>, off: nat, xs: seq<LocalEntry>) returns (next: nat)
    requires |xs| > 0 && forall j :: 0 <= j < |xs| ==> LocalEntryWellFormed(xs[j])
    requires off + |EncodeLocalEntries(e, xs)| <= |buf|
    requires buf[off..off + |EncodeLocalEntries(e, xs)|] == EncodeLocalEntries(e, xs)
    ensures LocalEntryFits(buf, off) && LocalEntryAt(e, buf, off) == xs[0]
    ensures next == off + LocalEntrySize(buf[off])
    ensures forall j :: 0 <= j < |xs[1..]| ==> LocalEntryWellFormed(xs[1..][j])
    ensures next + |EncodeLocalEntries(e, xs[1..])| <= |buf|
    ensures buf[next..next + |EncodeLocalEntries(e, xs[1..])|] == EncodeLocalEntries(e, xs[1..])
  {
    LocalEntriesWindows(e, buf, off, xs);
    LocalEntryRoundTrip(e, buf, off, xs[0]);
    next := off + |EncodeLocalEntry(e, xs[0])|;
    LocalEntriesWindowsRest(e, buf, off, xs, next);
    WellFormedTail(xs);
  }

  /** The bytes of entries written from `off` start with the first
      entry's. */
  lemma LocalEntriesWindows(e: Endian, buf: seq<byte>, off: nat, xs: seq<LocalEntry>)
    requires |xs| > 0
    requires off + |EncodeLocalEntries(e, xs)| <= |buf|
    requires buf[off..off + |EncodeLocalEntries(e, xs)|] == EncodeLocalEntries(e, xs)
    ensures buf[off..off + |EncodeLocalEntry(e, xs[0])|] == EncodeLocalEntry(e, xs[0])
  {
    var w, ws := EncodeLocalEntry(e, xs[0]), EncodeLocalEntries(e, xs[1..]);
    SplitWindow(buf, off, EncodeLocalEntries(e, xs), w, ws, off + |w|, off + |w| + |ws|);
  }

  /** ... and go on with the rest's. */
  lemma LocalEntriesWindowsRest(e: Endian, buf: seq<byte>, off: nat, xs: seq<LocalEntry>, next: nat)
    requires |xs| > 0
    requires off + |EncodeLocalEntries(e, xs)| <= |buf|
    requires buf[off..off + |EncodeLocalEntries(e, xs)|] == EncodeLocalEntries(e, xs)
    requires next == off + |EncodeLocalEntry(e, xs[0])|
    ensures next + |EncodeLocalEntries(e, xs[1..])| <= |buf|
    ensures buf[next..next + |EncodeLocalEntries(e, xs[1..])|] == EncodeLocalEntries(e, xs[1..])
  {
    var w, ws := EncodeLocalEntry(e, xs[0]), EncodeLocalEntries(e, xs[1..]);
    SplitWindow(buf, off, EncodeLocalEntries(e, xs), w, ws, next, next + |ws|);
  }

  lemma WellFormedTail(xs: seq<LocalEntry>)
    requires |xs| > 0 && forall j :: 0 <= j < |xs| ==> LocalEntryWellFormed(xs[j])
    ensures forall j :: 0 <= j < |xs[1..]| ==> LocalEntryWellFormed(xs[1..][j])
  {
    forall j | 0 <= j < |xs[1..]|
      ensures LocalEntryWellFormed(xs[1..][j])
    {
      assert xs[1..][j] == xs[j + 1];
    }
  }

  /** Entries written one after another from `off` lie where the layout
      puts them, and each reads back as the entry written there. */
  lemma {:induction false} LocalOffsetsRoundTrip(e: Endian, buf: seq<byte>, off: nat, xs: seq<LocalEntry>)
    requires forall j :: 0 <= j < |xs| ==> LocalEntryWellFormed(xs[j])
    requires off + |EncodeLocalEntries(e, xs)| <= |buf|
    requires buf[off..off + |EncodeLocalEntries(e, xs)|] == EncodeLocalEntries(e, xs)
    ensures LocalOffsets(buf, off, |xs|).Ok?
    ensures forall j :: 0 <= j < |xs| ==> LocalEntryAt(e, buf, LocalOffsets(buf, off, |xs|).value[j]) == xs[j]
    decreases |xs|
  {
    if |xs| > 0 {
      var next := LocalEntriesRoundTripHead(e, buf, off, xs);
      var rest := xs[1..];
      LocalOffsetsRoundTrip(e, buf, next, rest);
      var ys := LocalOffsets(buf, next, |rest|).value;
      LocalOffsetsStep(buf, off, next, |rest|, ys);
      var offs := [off] + ys;
      forall j | 1 <= j < |xs|
        ensures LocalEntryAt(e, buf, offs[j]) == xs[j]
      {
        assert offs[j] == ys[j - 1] && xs[j] == rest[j - 1];
      }
    }
  }

  /** Entries written one after another from `off` read back as exactly
      those entries, as many as were written. */
  lemma LocalEntriesRoundTrip(e: Endian, buf: seq<byte>, off: nat, xs: seq<LocalEntry>)
    requires forall j :: 0 <= j < |xs| ==> LocalEntryWellFormed(xs[j])
    requires off + |EncodeLocalEntries(e, xs)| <= |buf|
    requires buf[off..off + |EncodeLocalEntries(e, xs)|] == EncodeLocalEntries(e, xs)
    ensures LocalEntries(e, buf, off, |xs|) == Ok(xs)
  {
    LocalOffsetsRoundTrip(e, buf, off, xs);
    var offs := LocalOffsets(buf, off, |xs|).value;
    var ys := LocalEntriesAt(e, buf, offs);
    assert ys == xs;
  }

  /** A short-form directory written after the core, its count byte at
      176 and its entries from 182 on, decodes to exactly the entries
      written. */
  lemma LocalDirRoundTrip(e: Endian, buf: seq<byte>, core: InodeCore, xs: seq<LocalEntry>)
    requires |buf| >= LOCAL_ENTRIES_AT
    requires And(core.format, XFS_DINODE_FMT_LOCAL) != 0 && IsDir(core.itype)
    requires |xs| == buf[LOCAL_COUNT_AT]
    requires forall j :: 0 <= j < |xs| ==> LocalEntryWellFormed(xs[j])
    requires LOCAL_ENTRIES_AT + |EncodeLocalEntries(e, xs)| <= |buf|
    requires buf[LOCAL_ENTRIES_AT..LOCAL_ENTRIES_AT + |EncodeLocalEntries(e, xs)|] == EncodeLocalEntries(e, xs)
    ensures DecodeFork(e, buf, core)
         == Ok(LocalDir(buf[LOCAL_COUNT_AT], buf[LOCAL_I8COUNT_AT], GetU32(e, buf, LOCAL_PARENT_AT), xs))
  {
    LocalEntriesRoundTrip(e, buf, LOCAL_ENTRIES_AT, xs);
  }
}
