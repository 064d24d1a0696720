/**
  One decoded Canon maker-note entry (MnoteCanonEntry) and the per-entry
  half of exif_mnote_data_canon_set_byte_order: re-encoding every numeric
  component of an entry's raw bytes from one byte order to another.
 */
module CanonEntry {
  import opened ExifUtils
  import opened ExifFormat
  import opened Components

  /**
    A decoded directory entry. `data` holds the raw value bytes (the C
    `size` field is `|data|`), encoded in byte order `order`.
   */
  datatype Entry = Entry(tag: uint16, format: Format, components: uint32, order: ByteOrder, data: seq<byte>)

  /** The size rule of the loader: a stored entry has exactly `components` elements and is never empty. */
  predicate WellSized(e: Entry)
  {
    && |e.data| == e.format.Size() * e.components
    && |e.data| > 0
  }

  /** The formats whose components set_byte_order re-encodes; every other format is left as it is. */
  predicate Converted(f: Format)
  {
    f.Short? || f.Long? || f.Rational? || f.SLong? || f.SRational?
  }

  /**
    The numbers one component stands for under byte order `o`: one integer
    for Short, Long and SLong, numerator and denominator for Rational and
    SRational.
   */
  function ElementValue(el: seq<byte>, f: Format, o: ByteOrder): (v: seq<int>)
    requires Converted(f) && |el| == f.Size()
    ensures |v| == (if f.Rational? || f.SRational? then 2 else 1)
  {
    match f
    case Short => [GetShort(el, 0, o) as int]
    case Long => [GetLong(el, 0, o) as int]
    case SLong => [GetSLong(el, 0, o) as int]
    case Rational => [GetLong(el, 0, o) as int, GetLong(el, 4, o) as int]
    case SRational => [GetSLong(el, 0, o) as int, GetSLong(el, 4, o) as int]
  }

  /** A Short component: exif_get_short under `from`, then exif_set_short under `to`. */
  function ConvertShort(el: seq<byte>, from: ByteOrder, to: ByteOrder): (r: seq<byte>)
    requires |el| == 2
    ensures |r| == 2
    ensures GetShort(r, 0, to) == GetShort(el, 0, from)
  {
    EncodeShort(GetShort(el, 0, from), to)
  }

  /** A Long component: exif_get_long under `from`, then exif_set_long under `to`. */
  function ConvertLong(el: seq<byte>, from: ByteOrder, to: ByteOrder): (r: seq<byte>)
    requires |el| == 4
    ensures |r| == 4
    ensures GetLong(r, 0, to) == GetLong(el, 0, from)
  {
    EncodeLong(GetLong(el, 0, from), to)
  }

  /** An SLong component: exif_get_slong under `from`, then exif_set_slong under `to`. */
  function ConvertSLong(el: seq<byte>, from: ByteOrder, to: ByteOrder): (r: seq<byte>)
    requires |el| == 4
    ensures |r| == 4
    ensures GetSLong(r, 0, to) == GetSLong(el, 0, from)
  {
    EncodeSLong(GetSLong(el, 0, from), to)
  }

  lemma ConvertShortRoundTrip(el: seq<byte>, a: ByteOrder, b: ByteOrder)
    requires |el| == 2
    ensures ConvertShort(ConvertShort(el, a, b), b, a) == el
    ensures ConvertShort(el, a, a) == el
  {
    EncodeGetShort(el, 0, a);
    assert el[0..2] == el;
  }

  lemma ConvertLongRoundTrip(el: seq<byte>, a: ByteOrder, b: ByteOrder)
    requires |el| == 4
    ensures ConvertLong(ConvertLong(el, a, b), b, a) == el
    ensures ConvertLong(el, a, a) == el
  {
    EncodeGetLong(el, 0, a);
    assert el[0..4] == el;
  }

  lemma ConvertSLongRoundTrip(el: seq<byte>, a: ByteOrder, b: ByteOrder)
    requires |el| == 4
    ensures ConvertSLong(ConvertSLong(el, a, b), b, a) == el
    ensures ConvertSLong(el, a, a) == el
  {
    EncodeGetSLong(el, 0, a);
    assert el[0..4] == el;
  }

  /**
    One component read under `from` and written back under `to`; bytes that
    are not one component of `f` are left as they are. A Rational or
    SRational is a numerator word followed by a denominator word, each
    converted on its own (exif_get_rational / exif_set_rational).
   */
  function ConvertElement(el: seq<byte>, f: Format, from: ByteOrder, to: ByteOrder): (r: seq<byte>)
    ensures |r| == |el|
    ensures !Converted(f) ==> r == el
  {
    if |el| != f.Size() then el
    else match f
    case Short => ConvertShort(el, from, to)
    case Long => ConvertLong(el, from, to)
    case SLong => ConvertSLong(el, from, to)
    case Rational => ConvertLong(el[..4], from, to) + ConvertLong(el[4..], from, to)
    case SRational => ConvertSLong(el[..4], from, to) + ConvertSLong(el[4..], from, to)
    case _ => el
  }

  /** The Rational case of ConvertElementKeepsValue: numerator and denominator both survive. */
  lemma RationalKeepsValue(el: seq<byte>, from: ByteOrder, to: ByteOrder)
    requires |el| == 8
    ensures var r := ConvertLong(el[..4], from, to) + ConvertLong(el[4..], from, to);
            GetLong(r, 0, to) == GetLong(el, 0, from) && GetLong(r, 4, to) == GetLong(el, 4, from)
  {
    GetLongConcat(ConvertLong(el[..4], from, to), ConvertLong(el[4..], from, to), 0, to);
    GetLongConcat(el[..4], el[4..], 0, from);
    assert el[..4] + el[4..] == el;
  }

  /** The SRational case of ConvertElementKeepsValue. */
  lemma SignedRationalKeepsValue(el: seq<byte>, from: ByteOrder, to: ByteOrder)
    requires |el| == 8
    ensures var r := ConvertSLong(el[..4], from, to) + ConvertSLong(el[4..], from, to);
            GetSLong(r, 0, to) == GetSLong(el, 0, from) && GetSLong(r, 4, to) == GetSLong(el, 4, from)
  {
    GetLongConcat(ConvertSLong(el[..4], from, to), ConvertSLong(el[4..], from, to), 0, to);
    GetLongConcat(el[..4], el[4..], 0, from);
    assert el[..4] + el[4..] == el;
  }

  /** A converted component decodes under the new order to the numbers it decoded to under the old one. */
  lemma ConvertElementKeepsValue(el: seq<byte>, f: Format, from: ByteOrder, to: ByteOrder)
    requires Converted(f) && |el| == f.Size()
    ensures ElementValue(ConvertElement(el, f, from, to), f, to) == ElementValue(el, f, from)
  {
    match f
    case Short =>
    case Long =>
    case SLong =>
    case Rational => RationalKeepsValue(el, from, to);
    case SRational => SignedRationalKeepsValue(el, from, to);
  }

  /** Converting a component and converting it back restores its bytes; converting to the same order is the identity. */
  lemma ConvertElementRoundTrip(el: seq<byte>, f: Format, a: ByteOrder, b: ByteOrder)
    ensures ConvertElement(ConvertElement(el, f, a, b), f, b, a) == el
    ensures ConvertElement(el, f, a, a) == el
  {
    if |el| == f.Size() {
      match f
      case Short => ConvertShortRoundTrip(el, a, b);
      case Long => ConvertLongRoundTrip(el, a, b);
      case SLong => ConvertSLongRoundTrip(el, a, b);
      case Rational =>
        var num, den := ConvertLong(el[..4], a, b), ConvertLong(el[4..], a, b);
        assert (num + den)[..4] == num && (num + den)[4..] == den;
        ConvertLongRoundTrip(el[..4], a, b);
        ConvertLongRoundTrip(el[4..], a, b);
        assert el[..4] + el[4..] == el;
      case SRational =>
        var num, den := ConvertSLong(el[..4], a, b), ConvertSLong(el[4..], a, b);
        assert (num + den)[..4] == num && (num + den)[4..] == den;
        ConvertSLongRoundTrip(el[..4], a, b);
        ConvertSLongRoundTrip(el[4..], a, b);
        assert el[..4] + el[4..] == el;
      case _ =>
    }
  }

  /** ConvertElement for fixed `f`, `from` and `to`, as one rewriting of components. */
  function Reencoder(f: Format, from: ByteOrder, to: ByteOrder): (g: seq<byte> -> seq<byte>)
    ensures KeepsWidth(g)
  {
    el => ConvertElement(el, f, from, to)
  }

  /**
    The raw bytes of an entry of format `f` re-encoded component by
    component, front to back; formats that are not converted are untouched.
   */
  function ConvertData(data: seq<byte>, f: Format, from: ByteOrder, to: ByteOrder): (r: seq<byte>)
    ensures |r| == |data|
    ensures !Converted(f) ==> r == data
  {
    if !Converted(f) then data
    else MapComponents(data, f.Size(), Reencoder(f, from, to))
  }

  /** Component `j` of the converted bytes is component `j` of the original, converted on its own. */
  lemma ConvertDataAt(data: seq<byte>, f: Format, from: ByteOrder, to: ByteOrder, j: nat)
    requires (j + 1) * f.Size() <= |data|
    ensures Component(ConvertData(data, f, from, to), f.Size(), j) == ConvertElement(Component(data, f.Size(), j), f, from, to)
  {
    if Converted(f) {
      MapComponentsAt(data, f.Size(), Reencoder(f, from, to), j);
    }
  }

  /** Converting from `a` to `b` and back from `b` to `a` restores the bytes exactly. */
  lemma ConvertDataRoundTrip(data: seq<byte>, f: Format, a: ByteOrder, b: ByteOrder)
    ensures ConvertData(ConvertData(data, f, a, b), f, b, a) == data
  {
    if Converted(f) {
      var g, h := Reencoder(f, a, b), Reencoder(f, b, a);
      forall x | |x| == f.Size()
        ensures h(g(x)) == x
      {
        ConvertElementRoundTrip(x, f, a, b);
      }
      MapComponentsInverse(data, f.Size(), g, h);
    }
  }

  /** Converting to the order the bytes are already in changes nothing. */
  lemma ConvertDataSameOrder(data: seq<byte>, f: Format, a: ByteOrder)
    ensures ConvertData(data, f, a, a) == data
  {
    if Converted(f) {
      var g := Reencoder(f, a, a);
      forall x | |x| == f.Size()
        ensures g(x) == x
      {
        ConvertElementRoundTrip(x, f, a, a);
      }
      MapComponentsIdentity(data, f.Size(), g);
    }
  }

  /** Conversion of a whole entry: the per-entry body of the set_byte_order loop, with its own component index. */
  function ConvertEntry(e: Entry, from: ByteOrder, to: ByteOrder): (r: Entry)
    ensures r.order == to
    ensures r.tag == e.tag && r.format == e.format && r.components == e.components
    ensures |r.data| == |e.data|
    ensures !Converted(e.format) ==> r.data == e.data
    ensures WellSized(e) ==> WellSized(r)
  {
    e.(order := to, data := ConvertData(e.data, e.format, from, to))
  }

  /**
    Every component of a well-sized numeric entry decodes under the new
    order to the numbers it decoded to under the old one.
   */
  lemma ConvertEntryKeepsValues(e: Entry, from: ByteOrder, to: ByteOrder, j: nat)
    requires WellSized(e) && Converted(e.format)
    requires j < e.components
    ensures (j + 1) * e.format.Size() <= |e.data|
    ensures ElementValue(Component(ConvertEntry(e, from, to).data, e.format.Size(), j), e.format, to)
         == ElementValue(Component(e.data, e.format.Size(), j), e.format, from)
  {
    var fs := e.format.Size();
    assert (j + 1) * fs <= e.components * fs by {
      assert e.components * fs == (j + 1) * fs + (e.components - j - 1) * fs;
    }
    MapComponentsAt(e.data, fs, Reencoder(e.format, from, to), j);
    ConvertElementKeepsValue(Component(e.data, fs, j), e.format, from, to);
  }
}
