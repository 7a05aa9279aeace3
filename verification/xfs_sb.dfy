/** `parse_buff_to_superblock`: decoding the 512-byte sector 0 of an XFS
    filesystem into a `Superblock`. Every field sits at a fixed offset and
    is read in declaration order under the byte order the caller supplies. */
module XfsSb {
  import opened XfsCommon
  import opened Bits
  import opened Bytes
  import opened Sb

  /** Bytes 0 up to here are all the decoder ever looks at. */
  const SB_DECODED_BYTES: nat := 264

  /** The fields, once the byte order and magic have been accepted, read
      from the 204 bytes up to `bad_features2` (at their own offsets) and
      from the 56 bytes after it, where the version 5 fields start (at
      offsets counted from 208). The four bytes of `bad_features2` are
      stepped over. */
  function SuperblockFields(lo: seq<byte>, v5: seq<byte>, e: Endian): (sb: Superblock)
    requires |lo| == 204 && |v5| == 56
  {
    Superblock(
      GetU32(e, lo, 0), GetU32(e, lo, 4),
      GetU64(e, lo, 8), GetU64(e, lo, 16), GetU64(e, lo, 24),
      FormatUuid(e, lo, 32),
      GetU64(e, lo, 48), GetU64(e, lo, 56), GetU64(e, lo, 64), GetU64(e, lo, 72),
      GetU32(e, lo, 80), GetU32(e, lo, 84), GetU32(e, lo, 88), GetU32(e, lo, 92),
      GetU32(e, lo, 96),
      GetU16(e, lo, 100), GetU16(e, lo, 102), GetU16(e, lo, 104), GetU16(e, lo, 106),
      Strncpy(lo[108..120]),
      lo[120], lo[121], lo[122], lo[123], lo[124], lo[125], lo[126], lo[127],
      GetU64(e, lo, 128), GetU64(e, lo, 136), GetU64(e, lo, 144), GetU64(e, lo, 152),
      GetU64(e, lo, 160), GetU64(e, lo, 168),
      GetU16(e, lo, 176), lo[178], lo[179],
      GetU32(e, lo, 180), GetU32(e, lo, 184), GetU32(e, lo, 188),
      lo[192], lo[193], GetU16(e, lo, 194),
      GetU32(e, lo, 196), GetU32(e, lo, 200),
      // 208 + k
      GetU32(e, v5, 0), GetU32(e, v5, 4), GetU32(e, v5, 8), GetU32(e, v5, 12),
      GetU32(e, v5, 16), GetU32(e, v5, 20),
      GetU64(e, v5, 24), GetU64(e, v5, 32),
      FormatUuid(e, v5, 40)
    )
  }

  /** `parse_buff_to_superblock`. Fails for an unknown byte order, and for a
      magic number other than 'XFSB' read under the given order; otherwise
      succeeds whatever the other fields hold. */
  function DecodeSuperblock(buf: seq<byte>, e: Endian): (r: Result<Superblock>)
    requires |buf| == 512
    ensures r == Err(UnknownEndian) <==> e == Unknown
    ensures r.Err? && e != Unknown ==> r.error == BadMagic(GetU32(e, buf, 0))
    ensures r.Ok? <==> e != Unknown && GetU32(e, buf, 0) == XFS_SB_MAGIC
    ensures r.Ok? ==> r.value.magicnum == XFS_SB_MAGIC
    ensures r.Ok? ==> IsUuidString(r.value.uuid) && IsUuidString(r.value.meta_uuid)
    ensures r.Ok? ==> |r.value.fname| == 12
  {
    if e == Unknown then Err(UnknownEndian)
    else
      var magic := GetU32(e, buf, 0);
      if magic != XFS_SB_MAGIC then Err(BadMagic(magic))
      else
        GetUNPrefix(e, buf, 204, 0, 4);
        Ok(SuperblockFields(buf[..204], buf[208..SB_DECODED_BYTES], e))
  }

  /** Only bytes 0..263 are read: two sectors that agree on them decode
      alike, whatever the remaining 248 bytes hold. */
  lemma DecodeReadsOnlyPrefix(a: seq<byte>, b: seq<byte>, e: Endian)
    requires |a| == 512 && |b| == 512
    requires a[..SB_DECODED_BYTES] == b[..SB_DECODED_BYTES]
    ensures DecodeSuperblock(a, e) == DecodeSuperblock(b, e)
  {
    assert a[..204] == a[..SB_DECODED_BYTES][..204];
    assert b[..204] == b[..SB_DECODED_BYTES][..204];
    assert a[208..SB_DECODED_BYTES] == a[..SB_DECODED_BYTES][208..];
    assert b[208..SB_DECODED_BYTES] == b[..SB_DECODED_BYTES][208..];
    assert a[0..4] == a[..204][0..4];
    assert b[0..4] == b[..204][0..4];
  }

  /** The fields the address translation depends on come from the offsets
      the on-disk layout gives them, and the log2 fields are copied byte
      for byte: none is derived from or checked against its count. */
  lemma GeometryOffsets(buf: seq<byte>, e: Endian)
    requires |buf| == 512
    requires DecodeSuperblock(buf, e).Ok?
    ensures var sb := DecodeSuperblock(buf, e).value;
      && sb.blocksize == GetU32(e, buf, 4) && sb.dblocks == GetU64(e, buf, 8)
      && sb.rootino == GetU64(e, buf, 56)
      && sb.agblocks == GetU32(e, buf, 84) && sb.agcount == GetU32(e, buf, 88)
      && sb.sectsize == GetU16(e, buf, 102) && sb.inodesize == GetU16(e, buf, 104)
      && sb.inopblock == GetU16(e, buf, 106)
      && sb.blocklog == buf[120] && sb.sectlog == buf[121] && sb.inodelog == buf[122]
      && sb.inopblog == buf[123] && sb.agblklog == buf[124] && sb.rextslog == buf[125]
      && sb.dirblklog == buf[192] && sb.logsectlog == buf[193]
  {
    GetUNPrefix(e, buf, 204, 4, 4);
    GetUNPrefix(e, buf, 204, 8, 8);
    GetUNPrefix(e, buf, 204, 56, 8);
    GetUNPrefix(e, buf, 204, 84, 4);
    GetUNPrefix(e, buf, 204, 88, 4);
    GetUNPrefix(e, buf, 204, 102, 2);
    GetUNPrefix(e, buf, 204, 104, 2);
    GetUNPrefix(e, buf, 204, 106, 2);
  }

  /** A successful decode is possible with any values in the geometry
      fields: no consistency between a log2 field and its count is
      demanded. */
  lemma LogFieldsUnchecked(buf: seq<byte>, e: Endian, i: nat, v: byte)
    requires |buf| == 512 && 4 <= i < 512
    requires DecodeSuperblock(buf, e).Ok?
    ensures DecodeSuperblock(buf[i := v], e).Ok?
  {
    assert buf[i := v][0..4] == buf[0..4];
  }

  /** A decoded superblock is the field record of bytes 0..203 and 208..263. */
  lemma DecodedFields(buf: seq<byte>, e: Endian)
    requires |buf| == 512
    requires DecodeSuperblock(buf, e).Ok?
    ensures DecodeSuperblock(buf, e).value == SuperblockFields(buf[..204], buf[208..SB_DECODED_BYTES], e)
  {
  }

  /** The UUID string prints the 16 bytes at 32: the first four as one
      32-bit number, the next two pairs as 16-bit numbers (all three under
      the chosen byte order), then the last eight in order. */
  lemma UuidPrintsItsBytes(buf: seq<byte>, e: Endian)
    requires |buf| == 512
    requires DecodeSuperblock(buf, e).Ok?
    ensures ParseUuid(DecodeSuperblock(buf, e).value.uuid)
         == UuidFields(GetU32(e, buf, 32), GetU16(e, buf, 36), GetU16(e, buf, 38), buf[40..48])
  {
    var lo := buf[..204];
    assert DecodeSuperblock(buf, e).value.uuid == FormatUuid(e, lo, 32) by {
      DecodedFields(buf, e);
    }
    UuidRoundTrip(e, lo, 32);
    GetUNPrefix(e, buf, 204, 32, 4);
    GetUNPrefix(e, buf, 204, 36, 2);
    GetUNPrefix(e, buf, 204, 38, 2);
    SliceOfPrefix(buf, 204, 40, 48);
  }

  /** The metadata UUID string prints the 16 bytes at 248 the same way. */
  lemma MetaUuidPrintsItsBytes(buf: seq<byte>, e: Endian)
    requires |buf| == 512
    requires DecodeSuperblock(buf, e).Ok?
    ensures ParseUuid(DecodeSuperblock(buf, e).value.meta_uuid)
         == UuidFields(GetU32(e, buf, 248), GetU16(e, buf, 252), GetU16(e, buf, 254), buf[256..264])
  {
    var v5 := buf[208..SB_DECODED_BYTES];
    assert DecodeSuperblock(buf, e).value.meta_uuid == FormatUuid(e, v5, 40) by {
      DecodedFields(buf, e);
    }
    UuidRoundTrip(e, v5, 40);
    GetUNWindow(e, buf, 208, SB_DECODED_BYTES, 40, 4);
    GetUNWindow(e, buf, 208, SB_DECODED_BYTES, 44, 2);
    GetUNWindow(e, buf, 208, SB_DECODED_BYTES, 46, 2);
    SliceOfSlice(buf, 208, SB_DECODED_BYTES, 48, 56);
  }

  /** The name array receives the 12 bytes at 108 up to the first NUL and
      is NUL from there on: as a C string it is at most 12 bytes long. */
  lemma FnameIsStrncpy(buf: seq<byte>, e: Endian)
    requires |buf| == 512
    requires DecodeSuperblock(buf, e).Ok?
    ensures var f := DecodeSuperblock(buf, e).value.fname;
      && |CStr(f)| <= 12
      && CStr(f) == CStr(buf[108..120])
      && f[..|CStr(f)|] == buf[108..108 + |CStr(f)|]
      && forall i :: |CStr(f)| <= i < 12 ==> f[i] == 0
  {
    var f := DecodeSuperblock(buf, e).value.fname;
    var src := buf[108..120];
    assert f == Strncpy(src) by {
      DecodedFields(buf, e);
      SliceOfPrefix(buf, 204, 108, 120);
    }
    StrncpyCopiesCStr(src);
    var k := |CStr(src)|;
    SliceOfSlice(buf, 108, 120, 0, k);
    assert src[..k] == src[0..k];
  }

  /** The bytes of the padding field at 204..207 never reach the result. */
  lemma BadFeatures2Skipped(buf: seq<byte>, e: Endian, i: nat, v: byte)
    requires |buf| == 512 && 204 <= i < 208
    ensures DecodeSuperblock(buf[i := v], e) == DecodeSuperblock(buf, e)
  {
    var b := buf[i := v];
    assert b[..204] == buf[..204];
    assert b[208..SB_DECODED_BYTES] == buf[208..SB_DECODED_BYTES];
    assert b[0..4] == buf[0..4];
  }
}
