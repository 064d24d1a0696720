/**
  The value formats of a TIFF 6.0 / Exif 2.2 directory entry and the table
  behind libexif's exif_format_get_size.
 */
module ExifFormat {
  import opened Wrappers
  import opened ExifUtils

  /** The twelve value formats, with the codes of TIFF 6.0 section 2 and Exif 2.2 section 4.6.2. */
  datatype Format =
    | Byte | Ascii | Short | Long | Rational | SByte
    | Undefined | SShort | SLong | SRational | Float | Double
  {
    /** The 16-bit code stored in an entry record. */
    function Code(): uint16
    {
      match this
      case Byte => 1
      case Ascii => 2
      case Short => 3
      case Long => 4
      case Rational => 5
      case SByte => 6
      case Undefined => 7
      case SShort => 8
      case SLong => 9
      case SRational => 10
      case Float => 11
      case Double => 12
    }

    /** Width in bytes of one component. */
    function Size(): nat
    {
      match this
      case Byte | Ascii | SByte | Undefined => 1
      case Short | SShort => 2
      case Long | SLong | Float => 4
      case Rational | SRational | Double => 8
    }
  }

  /** The format a record's code names, if it names one. */
  function FromCode(code: uint16): (r: Option<Format>)
    ensures r.Some? ==> r.value.Code() == code
    ensures r.None? ==> forall f: Format :: f.Code() != code
  {
    if code == 1 then Some(Byte)
    else if code == 2 then Some(Ascii)
    else if code == 3 then Some(Short)
    else if code == 4 then Some(Long)
    else if code == 5 then Some(Rational)
    else if code == 6 then Some(SByte)
    else if code == 7 then Some(Undefined)
    else if code == 8 then Some(SShort)
    else if code == 9 then Some(SLong)
    else if code == 10 then Some(SRational)
    else if code == 11 then Some(Float)
    else if code == 12 then Some(Double)
    else None
  }

  /** exif_format_get_size: the component width of a code, 0 for a code the table does not know. */
  function GetSize(code: uint16): (s: nat)
    ensures s == 0 <==> FromCode(code).None?
    ensures s != 0 ==> s == FromCode(code).value.Size()
    ensures s <= 8
  {
    match FromCode(code)
    case None => 0
    case Some(f) => f.Size()
  }

  /** Codes and formats are in one-to-one correspondence. */
  lemma FromCodeOfCode(f: Format)
    ensures FromCode(f.Code()) == Some(f)
    ensures GetSize(f.Code()) == f.Size()
  {
    match f
    case Byte =>
    case Ascii =>
    case Short =>
    case Long =>
    case Rational =>
    case SByte =>
    case Undefined =>
    case SShort =>
    case SLong =>
    case SRational =>
    case Float =>
    case Double =>
  }
}
