/**
  The Canon maker-note block (ExifMnoteDataCanon) of libexif's
  libexif/canon/exif-mnote-data-canon.c: its state, the loader that parses
  the entry table out of the raw maker-note bytes, the byte-order change,
  and the count and index-checked accessors.

  The entry table follows the directory layout of TIFF 6.0 section 2, as
  reused by Exif 2.2 section 4.6.2: a 2-byte entry count, then 12-byte
  records holding a tag, a format code, a component count and either the
  value itself (4 bytes or fewer) or a 4-byte pointer to it. The count sits
  `6 + offset` bytes into the buffer, and pointers are relative to byte 6.
 */
module CanonNote {
  import opened Wrappers
  import opened ExifUtils
  import opened ExifFormat
  import opened Components
  import opened CanonEntry

  /** Size of the structural header in front of the entry count; value pointers are relative to its end. */
  const Header: nat := 6

  /**
    ExifMnoteDataCanon: the declared byte order, the offset of the entry
    table behind the header, and the entries (the C `count` is `|entries|`).
   */
  datatype Note = Note(order: ByteOrder, offset: uint32, entries: seq<Entry>)

  /** Every entry is well sized and encoded in the block's own byte order. */
  predicate Valid(n: Note)
  {
    forall i :: 0 <= i < |n.entries| ==> n.entries[i].order == n.order && WellSized(n.entries[i])
  }

  // ---------------------------------------------------------------------
  // Container operations
  // ---------------------------------------------------------------------

  /** exif_mnote_data_canon_clear: drops every entry; order and offset stay. */
  function Clear(n: Note): (r: Note)
    ensures r.entries == [] && r.order == n.order && r.offset == n.offset
    ensures Valid(r)
    ensures n.entries == [] ==> r == n
  {
    n.(entries := [])
  }

  /** Clearing twice is clearing once. */
  lemma ClearIdempotent(n: Note)
    ensures Clear(Clear(n)) == Clear(n)
  {
  }

  /** exif_mnote_data_canon_set_offset: stores the offset without checking it. */
  function SetOffset(n: Note, o: uint32): (r: Note)
    ensures r.offset == o && r.order == n.order && r.entries == n.entries
  {
    n.(offset := o)
  }

  /** exif_mnote_data_canon_count: the number of entries, 0 for a NULL handle. */
  function Count(h: Option<Note>): (c: nat)
    ensures h.None? ==> c == 0
    ensures h.Some? ==> c == |h.value.entries|
  {
    match h
    case None => 0
    case Some(n) => |n.entries|
  }

  /** The entry an accessor looks at: absent for a NULL handle or an index at or past the count. */
  function EntryAt(h: Option<Note>, i: nat): (r: Option<Entry>)
    ensures r.Some? <==> i < Count(h)
    ensures r.Some? ==> r.value == h.value.entries[i]
  {
    match h
    case None => None
    case Some(n) => if i >= |n.entries| then None else Some(n.entries[i])
  }

  /**
    exif_mnote_data_canon_get_name: the tag registry's name for entry `i`.
    `nameOf` stands for mnote_canon_tag_get_name, which may itself give NULL.
   */
  function GetName(h: Option<Note>, i: nat, nameOf: uint16 -> Option<string>): (r: Option<string>)
    ensures i >= Count(h) ==> r == None
    ensures i < Count(h) ==> r == nameOf(h.value.entries[i].tag)
  {
    match EntryAt(h, i)
    case None => None
    case Some(e) => nameOf(e.tag)
  }

  /** exif_mnote_data_canon_get_title, forwarding to mnote_canon_tag_get_title (`titleOf`). */
  function GetTitle(h: Option<Note>, i: nat, titleOf: uint16 -> Option<string>): (r: Option<string>)
    ensures i >= Count(h) ==> r == None
    ensures i < Count(h) ==> r == titleOf(h.value.entries[i].tag)
  {
    match EntryAt(h, i)
    case None => None
    case Some(e) => titleOf(e.tag)
  }

  /** exif_mnote_data_canon_get_description, forwarding to mnote_canon_tag_get_description (`descriptionOf`). */
  function GetDescription(h: Option<Note>, i: nat, descriptionOf: uint16 -> Option<string>): (r: Option<string>)
    ensures i >= Count(h) ==> r == None
    ensures i < Count(h) ==> r == descriptionOf(h.value.entries[i].tag)
  {
    match EntryAt(h, i)
    case None => None
    case Some(e) => descriptionOf(e.tag)
  }

  /**
    exif_mnote_data_canon_get_value with the strict bound `n < count` of
    the sibling accessors; `render` stands for mnote_canon_entry_get_value.
   */
  function GetValue(h: Option<Note>, n: nat, render: Entry -> Option<string>): (r: Option<string>)
    ensures n >= Count(h) ==> r == None
    ensures n < Count(h) ==> r == render(h.value.entries[n])
  {
    match EntryAt(h, n)
    case None => None
    case Some(e) => render(e)
  }

  // ---------------------------------------------------------------------
  // Byte-order change
  // ---------------------------------------------------------------------

  /**
    exif_mnote_data_canon_set_byte_order: the block and every entry take
    order `o`; each entry's numeric components are re-encoded from the
    block's previous order, with an outer index over entries and an inner
    index over the components of one entry.
   */
  function SetByteOrder(n: Note, o: ByteOrder): (r: Note)
    ensures r.order == o && r.offset == n.offset && |r.entries| == |n.entries|
    ensures forall i :: 0 <= i < |r.entries| ==>
      var e, e' := n.entries[i], r.entries[i];
      && e'.order == o
      && e'.tag == e.tag && e'.format == e.format && e'.components == e.components
      && |e'.data| == |e.data|
      && (!Converted(e.format) ==> e'.data == e.data)
    ensures Valid(n) ==> Valid(r)
  {
    var from := n.order;
    Note(o, n.offset, seq(|n.entries|, i requires 0 <= i < |n.entries| => ConvertEntry(n.entries[i], from, o)))
  }

  /**
    Component `j` of a numeric entry `i` decodes under the new order to the
    numbers it decoded to under the old order.
   */
  lemma SetByteOrderKeepsValues(n: Note, o: ByteOrder, i: nat, j: nat)
    requires Valid(n)
    requires i < |n.entries| && Converted(n.entries[i].format) && j < n.entries[i].components
    ensures var e, e' := n.entries[i], SetByteOrder(n, o).entries[i];
            && (j + 1) * e.format.Size() <= |e.data| == |e'.data|
            && ElementValue(Component(e'.data, e.format.Size(), j), e.format, o)
               == ElementValue(Component(e.data, e.format.Size(), j), e.format, n.order)
  {
    ConvertEntryKeepsValues(n.entries[i], n.order, o, j);
  }

  /** Changing the order from A to B and back to A restores the block exactly. */
  lemma SetByteOrderRoundTrip(n: Note, o: ByteOrder)
    requires Valid(n)
    ensures SetByteOrder(SetByteOrder(n, o), n.order) == n
  {
    var m := SetByteOrder(n, o);
    var back := SetByteOrder(m, n.order);
    forall i | 0 <= i < |n.entries|
      ensures back.entries[i] == n.entries[i]
    {
      var e := n.entries[i];
      ConvertDataRoundTrip(e.data, e.format, n.order, o);
    }
  }

  /** Setting the order a block already has changes nothing. */
  lemma SetByteOrderSameOrder(n: Note)
    requires Valid(n)
    ensures SetByteOrder(n, n.order) == n
  {
    var m := SetByteOrder(n, n.order);
    forall i | 0 <= i < |n.entries|
      ensures m.entries[i] == n.entries[i]
    {
      ConvertDataSameOrder(n.entries[i].data, n.entries[i].format, n.order);
    }
  }

  // ---------------------------------------------------------------------
  // Loader
  // ---------------------------------------------------------------------

  /** Offset of record `i` of a table whose count sits `Header + offset` bytes in. */
  function RecordOffset(offset: nat, i: nat): nat
  {
    Header + 2 + offset + 12 * i
  }

  /** Why the loader stopped at a record. */
  datatype Stop =
    | RecordPastEnd   // the 8 bytes of tag, format and count run past the buffer
    | ZeroSize        // unknown format code or zero components
    | PointerPastEnd  // a value over 4 bytes, but its 4-byte pointer runs past the buffer
    | ValuePastEnd    // the value runs past the buffer

  /**
    The value of `size` bytes of the record at `recOff` lies inside the
    buffer: inline after the record's first 8 bytes when it has at most 4
    bytes, otherwise behind a 4-byte pointer that itself lies inside the
    buffer. This is the condition under which lines 182-190 copy the value.
   */
  predicate ValueFits(buf: seq<byte>, recOff: nat, size: nat, order: ByteOrder)
  {
    if size <= 4 then recOff + 8 + size <= |buf|
    else recOff + 12 <= |buf| && GetLong(buf, recOff + 8, order) + Header + size <= |buf|
  }

  /**
    `data` is the value of the record at `recOff`: inline after the record's
    first 8 bytes when it has at most 4 bytes, otherwise at the position the
    record's pointer names, counted from the end of the header.
   */
  predicate Stored(buf: seq<byte>, recOff: nat, order: ByteOrder, data: seq<byte>)
  {
    && ValueFits(buf, recOff, |data|, order)
    && var v := if |data| <= 4 then recOff + 8 else GetLong(buf, recOff + 8, order) + Header;
    && data == buf[v..v + |data|]
  }

  /**
    Where the value of `size` bytes of the record at `recOff` starts: right
    after the record's first 8 bytes when it fits in 4 bytes, otherwise at
    the record's 4-byte pointer plus the header size. The pointer itself and
    the whole value must lie inside the buffer.
   */
  function ValueLocation(buf: seq<byte>, recOff: nat, size: nat, order: ByteOrder): (r: Result<nat, Stop>)
    requires recOff + 8 <= |buf|
    ensures r.Ok? ==> r.value + size <= |buf|
    ensures r.Ok? && size <= 4 ==> r.value == recOff + 8
    ensures r.Ok? && size > 4 ==> recOff + 12 <= |buf| && r.value == GetLong(buf, recOff + 8, order) + Header
    ensures r.Ok? <==> ValueFits(buf, recOff, size, order)
    ensures r == Err(PointerPastEnd) <==> size > 4 && recOff + 12 > |buf|
    ensures r.Err? ==> r.error == PointerPastEnd || r.error == ValuePastEnd
  {
    if size <= 4 then
      if recOff + 8 + size > |buf| then Err(ValuePastEnd) else Ok(recOff + 8)
    else if recOff + 12 > |buf| then Err(PointerPastEnd)
    else
      var v := GetLong(buf, recOff + 8, order) + Header;
      if v + size > |buf| then Err(ValuePastEnd) else Ok(v)
  }

  /**
    One iteration of the parse loop of exif_mnote_data_canon_load: decode
    record `i`, or say why the loop stops there. All arithmetic is on
    unbounded integers, so a position that the C code would wrap past 2^32
    is a position past the end of the buffer.
   */
  function ParseRecord(buf: seq<byte>, offset: nat, order: ByteOrder, i: nat): (r: Result<Entry, Stop>)
    ensures r == Err(RecordPastEnd) <==> RecordOffset(offset, i) + 8 > |buf|
    ensures r == Err(ZeroSize) <==>
      var o := RecordOffset(offset, i);
      o + 8 <= |buf| && GetSize(GetShort(buf, o + 2, order)) * GetLong(buf, o + 4, order) == 0
    ensures r.Ok? <==>
      var o := RecordOffset(offset, i);
      && o + 8 <= |buf|
      && var size := GetSize(GetShort(buf, o + 2, order)) * GetLong(buf, o + 4, order);
      && size > 0
      && ValueFits(buf, o, size, order)
    ensures r.Ok? ==>
      var o, e := RecordOffset(offset, i), r.value;
      && o + 8 <= |buf|
      && e.tag == GetShort(buf, o, order)
      && e.format.Code() == GetShort(buf, o + 2, order)
      && e.components == GetLong(buf, o + 4, order)
      && e.order == order
      && WellSized(e)
      && Stored(buf, o, order, e.data)
  {
    var o := RecordOffset(offset, i);
    if o + 8 > |buf| then Err(RecordPastEnd)
    else
      var tag := GetShort(buf, o, order);
      var code := GetShort(buf, o + 2, order);
      var components := GetLong(buf, o + 4, order);
      var size := GetSize(code) * components;
      if size == 0 then Err(ZeroSize)
      else match ValueLocation(buf, o, size, order)
        case Err(why) => Err(why)
        case Ok(v) => Ok(Entry(tag, FromCode(code).value, components, order, buf[v..v + size]))
  }

  /** Every record of a table that declares `c` entries, each parsed or refused on its own. */
  function Records(buf: seq<byte>, offset: nat, order: ByteOrder, c: nat): (rs: seq<Result<Entry, Stop>>)
    ensures |rs| == c
    ensures forall k :: 0 <= k < c ==> rs[k] == ParseRecord(buf, offset, order, k)
  {
    seq(c, k requires 0 <= k < c => ParseRecord(buf, offset, order, k))
  }

  /** How a load ended. */
  datatype Outcome =
    | Skipped                   // the buffer is too short to hold the entry count: nothing changed
    | Complete                  // every declared record was parsed
    | Stopped(at: nat, why: Stop)  // record `at` did not parse; the records before it were kept

  datatype LoadResult = LoadResult(note: Note, outcome: Outcome)

  /**
    The entry count the table declares: the two bytes right after the
    header and the block's offset, read in the block's order.
   */
  function DeclaredCount(n: Note, buf: seq<byte>): (c: uint16)
    requires Header + n.offset + 2 <= |buf|
    ensures c / 0x100 == Significant(buf, Header + n.offset, 2, n.order, 0)
    ensures c % 0x100 == Significant(buf, Header + n.offset, 2, n.order, 1)
  {
    GetShort(buf, Header + n.offset, n.order)
  }

  /**
    exif_mnote_data_canon_load. A buffer too short for the entry count
    leaves the block as it was. Otherwise the old entries are discarded and
    the records are parsed in order; the entries parsed before the first
    record that fails are kept.
   */
  function Load(n: Note, buf: seq<byte>): (r: LoadResult)
    ensures r.outcome == Skipped <==> |buf| == 0 || |buf| < Header + n.offset + 2
    ensures r.outcome == Skipped ==> r.note == n
    ensures r.note.order == n.order && r.note.offset == n.offset
    ensures r.outcome != Skipped ==>
      var c, es := DeclaredCount(n, buf), r.note.entries;
      && |es| <= c
      && (r.outcome == Complete <==> |es| == c)
      && (forall k :: 0 <= k < |es| ==> ParseRecord(buf, n.offset, n.order, k) == Ok(es[k]))
      && (r.outcome.Stopped? ==> r.outcome.at == |es| && ParseRecord(buf, n.offset, n.order, |es|) == Err(r.outcome.why))
    ensures r.outcome != Skipped ==> Valid(r.note)
    ensures Valid(n) ==> Valid(r.note)
  {
    if |buf| == 0 || |buf| < Header + n.offset + 2 then LoadResult(n, Skipped)
    else
      var c := DeclaredCount(n, buf);
      var es := OkPrefix(Records(buf, n.offset, n.order, c));
      var outcome := if |es| == c then Complete
                     else Stopped(|es|, ParseRecord(buf, n.offset, n.order, |es|).error);
      LoadResult(Clear(n).(entries := es), outcome)
  }

  /** Reloading replaces: the entries after a load do not depend on the entries before it. */
  lemma LoadReplaces(n: Note, m: Note, buf: seq<byte>)
    requires n.order == m.order && n.offset == m.offset
    requires Load(n, buf).outcome != Skipped
    ensures Load(m, buf) == Load(n, buf)
  {
  }

  /** Every byte of every loaded value comes from inside the buffer, at the position the record names. */
  lemma LoadReadsInside(n: Note, buf: seq<byte>, k: nat)
    requires Load(n, buf).outcome != Skipped
    requires k < |Load(n, buf).note.entries|
    ensures var e := Load(n, buf).note.entries[k];
            && RecordOffset(n.offset, k) + 8 <= |buf|
            && Stored(buf, RecordOffset(n.offset, k), n.order, e.data)
            && |e.data| == e.format.Size() * e.components > 0
  {
    var es := Load(n, buf).note.entries;
    assert ParseRecord(buf, n.offset, n.order, k) == Ok(es[k]);
  }
}
