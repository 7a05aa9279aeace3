/** Scalar types shared by every decoder, and the decoders' result type.
    The widths mirror the fixed-width C typedefs of the on-disk structures
    (__u8, __be16, __be32, __be64); a value of one of these types is the
    number the C field holds after the read. */
module XfsCommon {

  type byte = b: int | 0 <= b < 0x100
  type u8 = x: int | 0 <= x < 0x100
  type u16 = x: int | 0 <= x < 0x1_0000
  type u32 = x: int | 0 <= x < 0x1_0000_0000
  type u64 = x: int | 0 <= x < 0x1_0000_0000_0000_0000

  /** Why a decode call gave up. Every C decoder returns 1 for all of these;
      the model keeps them apart. */
  datatype Error =
    | UnknownEndian          // the byte order passed in is XFS_UNKNOW_ENDIAN
    | BadMagic(magic: nat)   // the magic number read does not match
    | Truncated              // a read would go past the end of the buffer
    | OutOfRange             // an inode or block number outside the geometry

  datatype Result<+T> = Ok(value: T) | Err(error: Error)

  /** A list in front of a decoded list, or the error. */
  function Prepend<T>(xs: seq<T>, r: Result<seq<T>>): Result<seq<T>>
  {
    match r
    case Ok(ys) => Ok(xs + ys)
    case Err(err) => Err(err)
  }

  lemma PrependNothing<T>(r: Result<seq<T>>)
    ensures Prepend([], r) == r
  {
    if r.Ok? {
      assert [] + r.value == r.value;
    }
  }

  lemma PrependTwice<T>(xs: seq<T>, ys: seq<T>, r: Result<seq<T>>)
    ensures Prepend(xs, Prepend(ys, r)) == Prepend(xs + ys, r)
  {
    if r.Ok? {
      assert xs + (ys + r.value) == (xs + ys) + r.value;
    }
  }
}
