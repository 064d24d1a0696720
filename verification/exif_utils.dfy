/**
  Fixed-width integers and the byte-order helpers of libexif's exif-utils:
  reading and writing 16- and 32-bit values in Motorola (big-endian) or
  Intel (little-endian) order.
 */
module ExifUtils {

  type byte = x: int | 0 <= x < 0x100
  type uint16 = x: int | 0 <= x < 0x1_0000
  type uint32 = x: int | 0 <= x < 0x1_0000_0000
  type int32 = x: int | -0x8000_0000 <= x < 0x8000_0000

  /** Unsigned 32-bit wrap-around, as C's `unsigned int` arithmetic does it. */
  function Wrap(x: nat): (r: uint32)
    ensures x < 0x1_0000_0000 ==> r == x
  {
    x % 0x1_0000_0000
  }

  /** EXIF_BYTE_ORDER_MOTOROLA is big-endian, EXIF_BYTE_ORDER_INTEL little-endian. */
  datatype ByteOrder = Motorola | Intel

  /**
    The `k`-th most significant of the `n` bytes at `b[off..off+n]`: the
    first byte comes first in Motorola order and last in Intel order.
   */
  function Significant(b: seq<byte>, off: nat, n: nat, o: ByteOrder, k: nat): byte
    requires off + n <= |b| && k < n
  {
    match o
    case Motorola => b[off + k]
    case Intel => b[off + n - 1 - k]
  }

  /** exif_get_short: the 16-bit value stored at `b[off..off+2]`. */
  function GetShort(b: seq<byte>, off: nat, o: ByteOrder): (r: uint16)
    requires off + 2 <= |b|
    ensures r / 0x100 == Significant(b, off, 2, o, 0)
    ensures r % 0x100 == Significant(b, off, 2, o, 1)
  {
    match o
    case Motorola => b[off] as int * 0x100 + b[off + 1]
    case Intel => b[off + 1] as int * 0x100 + b[off]
  }

  /** The four base-256 digits of a 32-bit value, most significant first. */
  lemma Digits(x3: byte, x2: byte, x1: byte, x0: byte)
    ensures var x := x3 * 0x100_0000 + x2 * 0x1_0000 + x1 * 0x100 + x0;
      && x / 0x100_0000 == x3 && x / 0x1_0000 % 0x100 == x2
      && x / 0x100 % 0x100 == x1 && x % 0x100 == x0
  {
    var lo := x2 * 0x1_0000 + x1 * 0x100 + x0;
    var mid := x1 * 0x100 + x0;
    assert lo / 0x1_0000 == x2 && lo % 0x1_0000 == mid;
    assert mid / 0x100 == x1 && mid % 0x100 == x0;
    var x := x3 * 0x100_0000 + lo;
    assert x / 0x100_0000 == x3 && x % 0x100_0000 == lo;
    assert x / 0x1_0000 == x3 * 0x100 + x2;
    assert x / 0x100 == x3 * 0x1_0000 + x2 * 0x100 + x1;
  }

  /** exif_get_long: the 32-bit value stored at `b[off..off+4]`. */
  function GetLong(b: seq<byte>, off: nat, o: ByteOrder): (r: uint32)
    requires off + 4 <= |b|
    ensures r / 0x100_0000 == Significant(b, off, 4, o, 0)
    ensures r / 0x1_0000 % 0x100 == Significant(b, off, 4, o, 1)
    ensures r / 0x100 % 0x100 == Significant(b, off, 4, o, 2)
    ensures r % 0x100 == Significant(b, off, 4, o, 3)
  {
    match o
    case Motorola =>
      Digits(b[off], b[off + 1], b[off + 2], b[off + 3]);
      b[off] as int * 0x100_0000 + b[off + 1] as int * 0x1_0000 + b[off + 2] as int * 0x100 + b[off + 3]
    case Intel =>
      Digits(b[off + 3], b[off + 2], b[off + 1], b[off]);
      b[off + 3] as int * 0x100_0000 + b[off + 2] as int * 0x1_0000 + b[off + 1] as int * 0x100 + b[off]
  }

  /** exif_get_slong: the same four bytes read as a two's-complement value. */
  function GetSLong(b: seq<byte>, off: nat, o: ByteOrder): (r: int32)
    requires off + 4 <= |b|
    ensures r % 0x1_0000_0000 == GetLong(b, off, o)
    ensures r < 0 <==> Significant(b, off, 4, o, 0) >= 0x80
  {
    var u := GetLong(b, off, o);
    if u < 0x8000_0000 then u else u - 0x1_0000_0000
  }

  /** The two bytes exif_set_short writes for `v`. */
  function EncodeShort(v: uint16, o: ByteOrder): (r: seq<byte>)
    ensures |r| == 2
    ensures GetShort(r, 0, o) == v
  {
    match o
    case Motorola => [v / 0x100, v % 0x100]
    case Intel => [v % 0x100, v / 0x100]
  }

  /** The four bytes exif_set_long writes for `v`. */
  function EncodeLong(v: uint32, o: ByteOrder): (r: seq<byte>)
    ensures |r| == 4
    ensures GetLong(r, 0, o) == v
  {
    var hi, lo := v / 0x1_0000, v % 0x1_0000;
    match o
    case Motorola => EncodeShort(hi, o) + EncodeShort(lo, o)
    case Intel => EncodeShort(lo, o) + EncodeShort(hi, o)
  }

  /** The four bytes exif_set_slong writes for `v` (two's complement). */
  function EncodeSLong(v: int32, o: ByteOrder): (r: seq<byte>)
    ensures |r| == 4
    ensures GetSLong(r, 0, o) == v
  {
    EncodeLong(if v < 0 then v + 0x1_0000_0000 else v, o)
  }

  /** exif_set_short: `b` with `v` written at `off`, every other byte kept. */
  function SetShort(b: seq<byte>, off: nat, o: ByteOrder, v: uint16): (r: seq<byte>)
    requires off + 2 <= |b|
    ensures |r| == |b|
    ensures GetShort(r, off, o) == v
    ensures forall k :: 0 <= k < |b| && !(off <= k < off + 2) ==> r[k] == b[k]
  {
    var w := EncodeShort(v, o);
    b[..off] + w + b[off + 2..]
  }

  /** exif_set_long: `b` with `v` written at `off`, every other byte kept. */
  function SetLong(b: seq<byte>, off: nat, o: ByteOrder, v: uint32): (r: seq<byte>)
    requires off + 4 <= |b|
    ensures |r| == |b|
    ensures GetLong(r, off, o) == v
    ensures forall k :: 0 <= k < |b| && !(off <= k < off + 4) ==> r[k] == b[k]
  {
    var w := EncodeLong(v, o);
    assert GetLong(w, 0, o) == v;
    var r := b[..off] + w + b[off + 4..];
    assert r[off..off + 4] == w;
    r
  }

  /** exif_set_slong: `b` with `v` written at `off`, every other byte kept. */
  function SetSLong(b: seq<byte>, off: nat, o: ByteOrder, v: int32): (r: seq<byte>)
    requires off + 4 <= |b|
    ensures |r| == |b|
    ensures GetSLong(r, off, o) == v
    ensures forall k :: 0 <= k < |b| && !(off <= k < off + 4) ==> r[k] == b[k]
  {
    SetLong(b, off, o, if v < 0 then v + 0x1_0000_0000 else v)
  }

  /** Reading from a concatenation reads from whichever part holds the bytes. */
  lemma GetLongConcat(a: seq<byte>, b: seq<byte>, off: nat, o: ByteOrder)
    ensures off + 4 <= |a| ==> GetLong(a + b, off, o) == GetLong(a, off, o)
    ensures off + 4 <= |b| ==> GetLong(a + b, |a| + off, o) == GetLong(b, off, o)
  {
    if off + 4 <= |a| {
      assert (a + b)[off..off + 4] == a[off..off + 4];
    }
    if off + 4 <= |b| {
      assert (a + b)[|a| + off..|a| + off + 4] == b[off..off + 4];
    }
  }

  /** Encoding the two bytes just read gives those bytes back. */
  lemma EncodeGetShort(b: seq<byte>, off: nat, o: ByteOrder)
    requires off + 2 <= |b|
    ensures EncodeShort(GetShort(b, off, o), o) == b[off..off + 2]
  {
  }

  /** Encoding the four bytes just read gives those bytes back. */
  lemma EncodeGetLong(b: seq<byte>, off: nat, o: ByteOrder)
    requires off + 4 <= |b|
    ensures EncodeLong(GetLong(b, off, o), o) == b[off..off + 4]
  {
    var v := GetLong(b, off, o);
    match o
    case Motorola =>
      assert v / 0x1_0000 == GetShort(b, off, o);
      assert v % 0x1_0000 == GetShort(b, off + 2, o);
      EncodeGetShort(b, off, o);
      EncodeGetShort(b, off + 2, o);
    case Intel =>
      assert v / 0x1_0000 == GetShort(b, off + 2, o);
      assert v % 0x1_0000 == GetShort(b, off, o);
      EncodeGetShort(b, off, o);
      EncodeGetShort(b, off + 2, o);
  }

  /** The signed reading is undone by the signed encoding, byte for byte. */
  lemma EncodeGetSLong(b: seq<byte>, off: nat, o: ByteOrder)
    requires off + 4 <= |b|
    ensures EncodeSLong(GetSLong(b, off, o), o) == b[off..off + 4]
  {
    EncodeGetLong(b, off, o);
  }
}
