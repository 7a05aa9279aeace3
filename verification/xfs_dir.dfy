/** `parse_buff_to_dir_ext`: decoding one block of a block-form (dir3)
    directory. A 64-byte header is followed by entries of an 8-byte inode
    number, a length byte, the name, a file type byte, zero padding to an
    8-byte boundary and a 2-byte tag. There is no entry count on disk: the
    decoder first scans to count the entries, then reads that many. */
module XfsDir {
  import opened XfsCommon
  import opened Bits
  import opened Bytes
  import opened XfsInodeH

  /** Where the first entry starts: just past the header. */
  const DIR_ENTRIES_AT: nat := 64

  /** `uint16_t check0 = buf[off]` with `buf` a `char *`: the byte is
      sign-extended on its way to 16 bits, so a byte of 0xFF, and only
      that byte, becomes the unused-space tag 0xFFFF. */
  function Check0(b: byte): (r: u16)
    ensures r == 0xFFFF <==> b == 0xFF
    ensures b < 0x80 ==> r == b
  {
    if b < 0x80 then b else 0xFF00 + b
  }

  /** The header: magic, crc, block number, log sequence number, the UUID
      printed as a string, the owner inode and three free-space records;
      the 4 pad bytes at 60..63 are stepped over. */
  function DirHeaderAt(e: Endian, buf: seq<byte>): (h: DirHeader)
    requires |buf| >= DIR3_DATA_HDR_BYTES
    ensures |h.bestFree| == 3
  {
    DirHeader(
      GetU32(e, buf, 0), GetU32(e, buf, 4), GetU64(e, buf, 8), GetU64(e, buf, 16),
      FormatUuid(e, buf, 24), GetU64(e, buf, 40),
      [DataFree(GetU16(e, buf, 48), GetU16(e, buf, 50)),
       DataFree(GetU16(e, buf, 52), GetU16(e, buf, 54)),
       DataFree(GetU16(e, buf, 56), GetU16(e, buf, 58))])
  }

  /** The printed UUID of the header parses back to the 32-bit and two
      16-bit numbers at 24, 28 and 30 and the eight bytes at 32..39. */
  lemma DirHeaderUuid(e: Endian, buf: seq<byte>)
    requires |buf| >= DIR3_DATA_HDR_BYTES
    ensures IsUuidString(DirHeaderAt(e, buf).uuid)
    ensures ParseUuid(DirHeaderAt(e, buf).uuid)
         == UuidFields(GetU32(e, buf, 24), GetU16(e, buf, 28), GetU16(e, buf, 30), buf[32..40])
  {
    var u := FormatUuid(e, buf, 24);
    assert DirHeaderAt(e, buf).uuid == u;
    UuidRoundTrip(e, buf, 24);
  }

  /** The header depends on bytes 0..59 alone: the 4 pad bytes after the
      free-space records are never read. */
  lemma DirHeaderReadsPrefix(e: Endian, a: seq<byte>, b: seq<byte>)
    requires |a| >= DIR3_DATA_HDR_BYTES && |b| >= DIR3_DATA_HDR_BYTES
    requires a[..60] == b[..60]
    ensures DirHeaderAt(e, a) == DirHeaderAt(e, b)
  {
    forall off: nat, n: nat | off + n <= 60
      ensures GetUN(e, a, off, n) == GetUN(e, b, off, n)
    {
      GetUNPrefix(e, a, 60, off, n);
      GetUNPrefix(e, b, 60, off, n);
    }
    SliceOfPrefix(a, 60, 32, 34);
    SliceOfPrefix(b, 60, 32, 34);
    SliceOfPrefix(a, 60, 34, 40);
    SliceOfPrefix(b, 60, 34, 40);
  }

  /** Whether the entry at `p`, as long as its length byte says, lies
      inside the buffer. */
  predicate EntryFits(buf: seq<byte>, p: nat)
  {
    p + 9 <= |buf| && p + EntrySize(buf[p + 8]) <= |buf|
  }

  /** The scan ends at `p`: the end of the buffer is reached, or the first
      byte is the unused-space tag, or the inode number there is zero. */
  predicate ScanStops(e: Endian, buf: seq<byte>, p: nat)
  {
    p >= |buf| || Check0(buf[p]) == 0xFFFF || (p + 8 <= |buf| && GetU64(e, buf, p) == 0)
  }

  /** The offsets of the entries the counting scan steps over, from `p`
      on. The C tests the first byte, then the 8-byte inode number, then
      the position against the buffer size, and steps over an entry on the
      strength of its length byte. The model tests the position first and
      reads nothing outside the buffer: where the C would read past its end
      to go on, the result is `Truncated`. */
  function DirOffsets(e: Endian, buf: seq<byte>, p: nat): (r: Result<seq<nat>>)
    ensures r.Ok? ==> forall j :: 0 <= j < |r.value| ==> p <= r.value[j] && EntryFits(buf, r.value[j])
    ensures r.Err? ==> r.error == Truncated
    decreases |buf| - p
  {
    if p >= |buf| || Check0(buf[p]) == 0xFFFF then Ok([])
    else if p + 8 > |buf| then Err(Truncated)
    else if GetU64(e, buf, p) == 0 then Ok([])
    else if !EntryFits(buf, p) then Err(Truncated)
    else
      EntrySizeRoundsUp(buf[p + 8]);
      Prepend([p], DirOffsets(e, buf, p + EntrySize(buf[p + 8])))
  }

  /** The entry at `p`: the name is the `namelen` bytes after the length
      byte as `strncpy` leaves them, and the tag sits in the last two bytes
      of the entry, after the padding. */
  function DirEntryAt(e: Endian, buf: seq<byte>, p: nat): (x: DirEntry)
    requires EntryFits(buf, p)
  {
    var n := buf[p + 8];
    EntrySizeRoundsUp(n);
    DirEntry(GetU64(e, buf, p), n, Strncpy(buf[p + 9..p + 9 + n]), buf[p + 9 + n],
             GetU16(e, buf, p + EntrySize(n) - 2))
  }

  /** The entries at the given offsets. */
  function DirEntriesAt(e: Endian, buf: seq<byte>, offs: seq<nat>): (xs: seq<DirEntry>)
    requires forall j :: 0 <= j < |offs| ==> EntryFits(buf, offs[j])
    ensures |xs| == |offs|
    ensures forall j :: 0 <= j < |offs| ==> xs[j] == DirEntryAt(e, buf, offs[j])
  {
    seq(|offs|, j requires 0 <= j < |offs| => DirEntryAt(e, buf, offs[j]))
  }

  /** `parse_buff_to_dir_ext` on a block of `|buf|` bytes. Fails for an
      unknown byte order and for a magic number that is neither 'XDB3' nor
      'XDD3'; otherwise the header and as many entries as the scan counts. */
  function DecodeDirBlock(buf: seq<byte>, e: Endian): (r: Result<DirBlock>)
    ensures r == Err(UnknownEndian) <==> e == Unknown
    ensures (r.Err? && r.error.BadMagic?)
        <==> e != Unknown && |buf| >= 4
             && GetU32(e, buf, 0) != XFS_DIR3_BLOCK_MAGIC && GetU32(e, buf, 0) != XFS_DIR3_DATA_MAGIC
    ensures r.Err? && r.error.BadMagic? ==> r.error.magic == GetU32(e, buf, 0)
    ensures r.Ok? ==> |buf| >= DIR3_DATA_HDR_BYTES
    ensures r.Ok? ==> r.value.hdr.magic == XFS_DIR3_BLOCK_MAGIC || r.value.hdr.magic == XFS_DIR3_DATA_MAGIC
  {
    if e == Unknown then Err(UnknownEndian)
    else if |buf| < 4 then Err(Truncated)
    else
      var magic := GetU32(e, buf, 0);
      if magic != XFS_DIR3_BLOCK_MAGIC && magic != XFS_DIR3_DATA_MAGIC then Err(BadMagic(magic))
      else if |buf| < DIR3_DATA_HDR_BYTES then Err(Truncated)
      else
        match DirOffsets(e, buf, DIR_ENTRIES_AT)
        case Err(err) => Err(err)
        case Ok(offs) => Ok(DirBlock(DirHeaderAt(e, buf), DirEntriesAt(e, buf, offs)))
  }

  // ---------------------------------------------------------------------
  // The two loops

  /** The first offset a successful scan from `p` returns is `p` itself,
      and the rest is the scan from the next entry. */
  lemma DirOffsetsHead(e: Endian, buf: seq<byte>, p: nat, xs: seq<nat>)
    requires DirOffsets(e, buf, p) == Ok(xs) && |xs| > 0
    ensures xs[0] == p && EntryFits(buf, p)
    ensures DirOffsets(e, buf, p + EntrySize(buf[p + 8])) == Ok(xs[1..])
  {
  }

  /** The counting loop: from the first entry, while the first byte is not
      the unused tag, the inode number is not zero and the end of the
      block is not reached, step over one entry and count it. */
  method CountDirEntries(e: Endian, buf: seq<byte>) returns (r: Result<nat>)
    requires |buf| >= DIR3_DATA_HDR_BYTES
    ensures r.Ok? <==> DirOffsets(e, buf, DIR_ENTRIES_AT).Ok?
    ensures r.Ok? ==> r.value == |DirOffsets(e, buf, DIR_ENTRIES_AT).value|
    ensures r.Err? ==> r.error == Truncated
  {
    var tmpoff: nat := DIR_ENTRIES_AT;
    var i: nat := 0;
    ghost var offs: seq<nat> := [];
    ghost var whole := DirOffsets(e, buf, DIR_ENTRIES_AT);
    PrependNothing(whole);
    while tmpoff < |buf| && Check0(buf[tmpoff]) != 0xFFFF
      invariant |offs| == i
      invariant whole == Prepend(offs, DirOffsets(e, buf, tmpoff))
      decreases |buf| - tmpoff
    {
      if tmpoff + 8 > |buf| {
        return Err(Truncated);
      }
      var check1 := GetU64(e, buf, tmpoff);
      if check1 == 0 {
        break;
      }
      if !EntryFits(buf, tmpoff) {
        return Err(Truncated);
      }
      var here := tmpoff;
      tmpoff := tmpoff + 8;
      var len := buf[tmpoff];
      tmpoff := tmpoff + 1;
      tmpoff := tmpoff + len;
      tmpoff := tmpoff + 1;
      EntrySizeRoundsUp(len);
      tmpoff := tmpoff + (EntrySize(len) - (12 + len as int));
      tmpoff := tmpoff + 2;
      PrependTwice(offs, [here], DirOffsets(e, buf, tmpoff));
      offs := offs + [here];
      i := i + 1;
    }
    assert DirOffsets(e, buf, tmpoff) == Ok([]);
    assert offs + [] == offs;
    return Ok(i);
  }

  /** One entry read field by field; the cursor ends just past its tag. */
  method ReadDirEntry(e: Endian, buf: seq<byte>, start: nat) returns (x: DirEntry, off: nat)
    requires EntryFits(buf, start)
    ensures x == DirEntryAt(e, buf, start)
    ensures off == start + EntrySize(buf[start + 8])
  {
    off := start;
    var inumber := GetU64(e, buf, off);
    off := off + 8;
    var namelen := buf[off];
    off := off + 1;
    EntrySizeRoundsUp(namelen);
    var name := Strncpy(buf[off..off + namelen]);
    off := off + namelen;
    var filetype := buf[off];
    off := off + 1;
    off := off + (EntrySize(namelen) - (12 + namelen as int));
    var tag := GetU16(e, buf, off);
    off := off + 2;
    x := DirEntry(inumber, namelen, name, filetype, tag);
  }

  /** The fill loop: `i` entries, as many as the scan counted, into a
      fresh array, the cursor stepping over each entry in turn. */
  method ReadDirEntries(e: Endian, buf: seq<byte>, i: nat) returns (entrys: array<DirEntry>)
    requires DirOffsets(e, buf, DIR_ENTRIES_AT).Ok?
    requires i == |DirOffsets(e, buf, DIR_ENTRIES_AT).value|
    ensures fresh(entrys)
    ensures entrys[..] == DirEntriesAt(e, buf, DirOffsets(e, buf, DIR_ENTRIES_AT).value)
  {
    ghost var offs := DirOffsets(e, buf, DIR_ENTRIES_AT).value;
    entrys := new DirEntry[i](_ => DirEntry(0, 0, [], 0, 0));
    var off: nat := DIR_ENTRIES_AT;
    var tmpi: nat := 0;
    while tmpi != i
      invariant tmpi <= i
      invariant DirOffsets(e, buf, off) == Ok(offs[tmpi..])
      invariant entrys[..tmpi] == DirEntriesAt(e, buf, offs[..tmpi])
    {
      DirOffsetsHead(e, buf, off, offs[tmpi..]);
      var x;
      x, off := ReadDirEntry(e, buf, off);
      entrys[tmpi] := x;
      assert offs[tmpi + 1..] == offs[tmpi..][1..];
      assert offs[..tmpi + 1] == offs[..tmpi] + [offs[tmpi]];
      tmpi := tmpi + 1;
    }
    assert offs[..i] == offs;
  }

  /** `parse_buff_to_dir_ext`: the header, the counting loop, then a fresh
      array filled with that many entries read one after another. */
  method ParseBuffToDirExt(buf: seq<byte>, e: Endian) returns (r: Result<DirBlock>)
    ensures r == DecodeDirBlock(buf, e)
  {
    if e == Unknown {
      return Err(UnknownEndian);
    }
    if |buf| < 4 {
      return Err(Truncated);
    }
    var magic := GetU32(e, buf, 0);
    if magic != XFS_DIR3_BLOCK_MAGIC && magic != XFS_DIR3_DATA_MAGIC {
      return Err(BadMagic(magic));
    }
    if |buf| < DIR3_DATA_HDR_BYTES {
      return Err(Truncated);
    }
    var hdr := DirHeaderAt(e, buf);
    var count := CountDirEntries(e, buf);
    if count.Err? {
      return Err(count.error);
    }
    var entrys := ReadDirEntries(e, buf, count.value);
    return Ok(DirBlock(hdr, entrys[..]));
  }

  // ---------------------------------------------------------------------
  // Properties of the scan

  /** Where the entry after the one at `p` starts. */
  function NextEntry(buf: seq<byte>, p: nat): (q: nat)
    requires EntryFits(buf, p)
    ensures p + 12 <= q <= |buf| && (q - p) % 8 == 0
  {
    EntrySizeRoundsUp(buf[p + 8]);
    p + EntrySize(buf[p + 8])
  }

  /** The scan counts entries laid end to end from `p`, each starting
      where the one before it ends. */
  lemma {:induction false} DirOffsetsChain(e: Endian, buf: seq<byte>, p: nat, xs: seq<nat>)
    requires DirOffsets(e, buf, p) == Ok(xs)
    ensures |xs| > 0 ==> xs[0] == p
    ensures forall k :: 0 <= k < |xs| - 1 ==> xs[k + 1] == NextEntry(buf, xs[k])
    decreases |buf| - p
  {
    if |xs| > 0 {
      DirOffsetsHead(e, buf, p, xs);
      var ys := xs[1..];
      DirOffsetsChain(e, buf, NextEntry(buf, p), ys);
      forall k | 1 <= k < |xs| - 1
        ensures xs[k + 1] == NextEntry(buf, xs[k])
      {
        assert xs[k] == ys[k - 1] && xs[k + 1] == ys[k];
      }
    }
  }

  /** None of the entries counted is a stop, and the scan ends at the
      first stop after them: the end of the buffer, a first byte of 0xFF
      or a zero inode number. */
  lemma {:induction false} DirOffsetsStops(e: Endian, buf: seq<byte>, p: nat, xs: seq<nat>)
    requires DirOffsets(e, buf, p) == Ok(xs)
    ensures forall k :: 0 <= k < |xs| ==> !ScanStops(e, buf, xs[k])
    ensures ScanStops(e, buf, if |xs| == 0 then p else NextEntry(buf, xs[|xs| - 1]))
    decreases |buf| - p
  {
    if |xs| > 0 {
      DirOffsetsHead(e, buf, p, xs);
      var ys := xs[1..];
      DirOffsetsStops(e, buf, NextEntry(buf, p), ys);
      forall k | 1 <= k < |xs|
        ensures !ScanStops(e, buf, xs[k])
      {
        assert xs[k] == ys[k - 1];
      }
      if |ys| > 0 {
        assert xs[|xs| - 1] == ys[|ys| - 1];
      }
    }
  }

  /** Entries counted from an 8-byte boundary all start on one. */
  lemma {:induction false} DirOffsetsAligned(e: Endian, buf: seq<byte>, p: nat, xs: seq<nat>)
    requires DirOffsets(e, buf, p) == Ok(xs) && p % 8 == 0
    ensures forall k :: 0 <= k < |xs| ==> xs[k] % 8 == 0
    decreases |buf| - p
  {
    if |xs| > 0 {
      DirOffsetsHead(e, buf, p, xs);
      var ys := xs[1..];
      DirOffsetsAligned(e, buf, NextEntry(buf, p), ys);
      forall k | 1 <= k < |xs|
        ensures xs[k] % 8 == 0
      {
        assert xs[k] == ys[k - 1];
      }
    }
  }

  /** The scan finds no entry at `p` exactly when `p` is a stop. */
  lemma DirOffsetsEmpty(e: Endian, buf: seq<byte>, p: nat)
    ensures DirOffsets(e, buf, p) == Ok([]) <==> ScanStops(e, buf, p)
  {
  }

  /** The C tests one byte where the on-disk format has a 16-bit tag:
      an unused region, whose tag reads 0xFFFF in either byte order, stops
      the scan, but so does any entry whose first byte is 0xFF, whatever
      the byte after it. */
  lemma FreeTagStopsScan(e: Endian, buf: seq<byte>, p: nat)
    requires p + 2 <= |buf|
    requires GetU16(e, buf, p) == 0xFFFF || buf[p] == 0xFF
    ensures buf[p] == 0xFF
    ensures DirOffsets(e, buf, p) == Ok([])
  {
    if GetU16(e, buf, p) == 0xFFFF {
      GetU16AllOnes(e, buf, p);
    }
  }

  /** In a buffer cut inside the entry at `p`, that entry no longer fits. */
  lemma CutInsideEntry(e: Endian, buf: seq<byte>, p: nat, c: nat)
    requires EntryFits(buf, p) && !ScanStops(e, buf, p)
    requires p < c < NextEntry(buf, p)
    ensures DirOffsets(e, buf[..c], p) == Err(Truncated)
  {
    var b := buf[..c];
    assert b[p] == buf[p];
    if p + 8 <= c {
      GetUNPrefix(e, buf, c, p, 8);
    }
    if p + 9 <= c {
      assert b[p + 8] == buf[p + 8];
    }
  }

  /** In a buffer cut after the entry at `p`, the scan steps over it as
      before. */
  lemma CutAfterEntry(e: Endian, buf: seq<byte>, p: nat, c: nat)
    requires EntryFits(buf, p) && !ScanStops(e, buf, p)
    requires NextEntry(buf, p) <= c <= |buf|
    ensures DirOffsets(e, buf[..c], p) == Prepend([p], DirOffsets(e, buf[..c], NextEntry(buf, p)))
  {
    var b := buf[..c];
    assert b[p] == buf[p] && b[p + 8] == buf[p + 8];
    GetUNPrefix(e, buf, c, p, 8);
  }

  /** Cutting a buffer inside entry k of a scan makes the scan of the cut
      buffer fail: the entries before k are found as before, and entry k
      no longer fits. */
  lemma {:induction false} ScanOfCutBuffer(e: Endian, buf: seq<byte>, p: nat, xs: seq<nat>, k: nat, c: nat)
    requires DirOffsets(e, buf, p) == Ok(xs) && k < |xs|
    requires xs[k] < c < NextEntry(buf, xs[k])
    ensures DirOffsets(e, buf[..c], p) == Err(Truncated)
    decreases k
  {
    DirOffsetsHead(e, buf, p, xs);
    if k == 0 {
      CutInsideEntry(e, buf, p, c);
    } else {
      var q := NextEntry(buf, p);
      assert xs[k] == xs[1..][k - 1];
      CutAfterEntry(e, buf, p, c);
      ScanOfCutBuffer(e, buf, q, xs[1..], k - 1, c);
    }
  }

  /** A directory block cut short in the middle of one of its entries
      does not decode to fewer entries: it is `Truncated`. */
  lemma DirBlockCutMidEntry(buf: seq<byte>, e: Endian, offs: seq<nat>, k: nat, c: nat)
    requires DecodeDirBlock(buf, e).Ok?
    requires DirOffsets(e, buf, DIR_ENTRIES_AT) == Ok(offs) && k < |offs|
    requires offs[k] < c < NextEntry(buf, offs[k])
    ensures DecodeDirBlock(buf[..c], e) == Err(Truncated)
  {
    ScanOfCutBuffer(e, buf, DIR_ENTRIES_AT, offs, k, c);
    GetUNPrefix(e, buf, c, 0, 4);
  }

  /** A decoded block has one entry per offset the scan stepped over, in
      order, and `subcount` is their number: every entry lies wholly inside
      the block, starts on an 8-byte boundary, has a nonzero inode number
      and was not the unused tag. */
  lemma DirBlockEntries(buf: seq<byte>, e: Endian)
    requires DecodeDirBlock(buf, e).Ok?
    ensures DirOffsets(e, buf, DIR_ENTRIES_AT).Ok?
    ensures var offs := DirOffsets(e, buf, DIR_ENTRIES_AT).value;
      var xs := DecodeDirBlock(buf, e).value.entries;
      && |xs| == |offs|
      && (|offs| > 0 ==> offs[0] == DIR_ENTRIES_AT)
      && forall k :: 0 <= k < |offs| ==>
           && offs[k] % 8 == 0 && NextEntry(buf, offs[k]) <= |buf|
           && xs[k] == DirEntryAt(e, buf, offs[k])
           && xs[k].inumber != 0 && buf[offs[k]] != 0xFF
  {
    var offs := DirOffsets(e, buf, DIR_ENTRIES_AT).value;
    DirOffsetsChain(e, buf, DIR_ENTRIES_AT, offs);
    DirOffsetsStops(e, buf, DIR_ENTRIES_AT, offs);
    DirOffsetsAligned(e, buf, DIR_ENTRIES_AT, offs);
  }
}
