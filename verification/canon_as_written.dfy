/**
  Parts of libexif/canon/exif-mnote-data-canon.c modelled exactly as they
  are written, defects included, next to inputs on which they go wrong.
  The rest of the model uses the corrected definitions in CanonNote; the
  lemmas here tie the two together.
 */
module CanonAsWritten {
  import opened Wrappers
  import opened ExifUtils
  import opened ExifFormat
  import opened CanonEntry
  import opened CanonNote
  import opened CanonExamples

  // ---------------------------------------------------------------------
  // get_value: `if (cnote->count >= n) return NULL;`
  // ---------------------------------------------------------------------

  /**
    The index exif_mnote_data_canon_get_value dereferences for `n`, or
    None where it returns NULL. The test is inverted: it returns NULL for
    every valid index and dereferences only indices past the count.
   */
  function ValueIndexAsWritten(count: nat, n: nat): (r: Option<nat>)
    ensures r.Some? <==> n > count
    ensures r.Some? ==> r.value == n
  {
    if count >= n then None else Some(n)
  }

  /**
    For every block and every index, the corrected GetValue and the code as
    written never agree on a result: where GetValue answers, the code gives
    NULL, and where the code dereferences, the index is out of range.
   */
  lemma InvertedBoundNeverHelps(h: Option<Note>, n: nat, render: Entry -> Option<string>)
    requires h.Some?
    ensures n < Count(h) ==> ValueIndexAsWritten(Count(h), n) == None && GetValue(h, n, render) == render(h.value.entries[n])
    ensures ValueIndexAsWritten(Count(h), n).Some? ==> n >= |h.value.entries| && GetValue(h, n, render) == None
  {
  }

  // ---------------------------------------------------------------------
  // set_byte_order: the inner loops reuse the outer counter `i`
  // ---------------------------------------------------------------------

  /**
    The body of one inner iteration as written: component at byte `p` read
    under `from` with exif_get_* and written back under `to` with
    exif_set_*; a rational is read whole before either word is written.
   */
  function ConvertAt(d: seq<byte>, p: nat, f: Format, from: ByteOrder, to: ByteOrder): (r: seq<byte>)
    requires Converted(f) && p + f.Size() <= |d|
    ensures |r| == |d|
    ensures forall k :: 0 <= k < |d| && !(p <= k < p + f.Size()) ==> r[k] == d[k]
  {
    match f
    case Short => SetShort(d, p, to, GetShort(d, p, from))
    case Long => SetLong(d, p, to, GetLong(d, p, from))
    case SLong => SetSLong(d, p, to, GetSLong(d, p, from))
    case Rational =>
      var num, den := GetLong(d, p, from), GetLong(d, p + 4, from);
      SetLong(SetLong(d, p, to, num), p + 4, to, den)
    case SRational =>
      var num, den := GetSLong(d, p, from), GetSLong(d, p + 4, from);
      SetSLong(SetSLong(d, p, to, num), p + 4, to, den)
  }

  /**
    The outer loop of exif_mnote_data_canon_set_byte_order as written, at
    entry index `i`. None stands for a step the C code cannot take safely
    (reading an entry past the array, writing past an entry's data) or for
    running longer than `fuel` steps; the code as written can loop forever.
   */
  function OuterAsWritten(es: seq<Entry>, i: nat, from: ByteOrder, to: ByteOrder, fuel: nat): (r: Option<seq<Entry>>)
    ensures r.Some? ==> |r.value| == |es|
    decreases fuel, 0
  {
    if i >= |es| then Some(es)
    else if fuel == 0 then None
    else
      var f := es[i].format;
      var es1 := es[i := es[i].(order := to)];
      if Converted(f) then InnerAsWritten(es1, 0, f, from, to, fuel - 1)
      else OuterAsWritten(es1, i + 1, from, to, fuel - 1)
  }

  /**
    The inner loop as written. Its counter is the outer counter, so the
    loop test reads `entries[j].components` and the body converts
    component `j` of entry `j`, with the width of the format `f` that
    selected the loop. When the test fails the outer loop resumes at `j + 1`.
   */
  function InnerAsWritten(es: seq<Entry>, j: nat, f: Format, from: ByteOrder, to: ByteOrder, fuel: nat): (r: Option<seq<Entry>>)
    requires Converted(f)
    ensures r.Some? ==> |r.value| == |es|
    decreases fuel, 1
  {
    if j >= |es| then None
    else if j >= es[j].components then OuterAsWritten(es, j + 1, from, to, fuel)
    else if fuel == 0 then None
    else
      var p := j * f.Size();
      if p + f.Size() > |es[j].data| then None
      else
        var d := ConvertAt(es[j].data, p, f, from, to);
        InnerAsWritten(es[j := es[j].(data := d)], j + 1, f, from, to, fuel - 1)
  }

  /** exif_mnote_data_canon_set_byte_order as written. */
  function SetByteOrderAsWritten(n: Note, o: ByteOrder, fuel: nat): (r: Option<Note>)
    ensures r.Some? ==> r.value.order == o && |r.value.entries| == |n.entries|
  {
    match OuterAsWritten(n.entries, 0, n.order, o, fuel)
    case None => None
    case Some(es) => Some(Note(o, n.offset, es))
  }

  /**
    The outer loop as written, from entry `i` on, over entries that are
    all non-numeric: it finishes, and only the orders of those entries change.
   */
  lemma {:induction false} OuterWithoutNumeric(es: seq<Entry>, i: nat, from: ByteOrder, to: ByteOrder, fuel: nat)
    requires i <= |es| && fuel >= |es| - i
    requires forall k :: i <= k < |es| ==> !Converted(es[k].format)
    ensures var r := OuterAsWritten(es, i, from, to, fuel);
      && r.Some? && |r.value| == |es|
      && (forall k :: 0 <= k < i ==> r.value[k] == es[k])
      && (forall k :: i <= k < |es| ==> r.value[k] == es[k].(order := to))
    decreases |es| - i
  {
    if i < |es| {
      var es1 := es[i := es[i].(order := to)];
      assert OuterAsWritten(es, i, from, to, fuel) == OuterAsWritten(es1, i + 1, from, to, fuel - 1);
      OuterWithoutNumeric(es1, i + 1, from, to, fuel - 1);
    }
  }

  /**
    A block with no entry of a converted format is handled correctly by
    the code as written: no inner loop runs, and the result is SetByteOrder's.
   */
  lemma AsWrittenAgreesWithoutNumericEntries(n: Note, o: ByteOrder)
    requires forall k :: 0 <= k < |n.entries| ==> !Converted(n.entries[k].format)
    ensures SetByteOrderAsWritten(n, o, |n.entries|) == Some(SetByteOrder(n, o))
  {
    OuterWithoutNumeric(n.entries, 0, n.order, o, |n.entries|);
    var r := OuterAsWritten(n.entries, 0, n.order, o, |n.entries|).value;
    var m := SetByteOrder(n, o);
    forall k | 0 <= k < |r|
      ensures r[k] == m.entries[k]
    {
      assert r[k] == n.entries[k].(order := o);
    }
    assert r == m.entries;
    assert SetByteOrderAsWritten(n, o, |n.entries|) == Some(Note(o, n.offset, r));
  }

  /** Two entries: a Short with two components, then one Byte, both in Motorola order. */
  function TwoEntries(): seq<Entry>
  {
    [Entry(1, Short, 2, Motorola, [0, 1, 0, 2]), Entry(2, Byte, 1, Motorola, [7])]
  }

  /**
    On TwoEntries, converted to Intel order, the code as written converts
    only the first component of the Short: the inner loop stops when it
    tests entry 1's count of 1. It never reaches the Byte entry, whose
    order stays Motorola.
   */
  lemma TwoEntriesAsWritten()
    ensures OuterAsWritten(TwoEntries(), 0, Motorola, Intel, 10)
         == Some([Entry(1, Short, 2, Intel, [1, 0, 0, 2]), Entry(2, Byte, 1, Motorola, [7])])
  {
    var es := TwoEntries();
    var es1 := es[0 := es[0].(order := Intel)];
    var d := ConvertAt(es1[0].data, 0, Short, Motorola, Intel);
    assert d == [1, 0, 0, 2];
    var es2 := es1[0 := es1[0].(data := d)];
    assert es2 == [Entry(1, Short, 2, Intel, [1, 0, 0, 2]), Entry(2, Byte, 1, Motorola, [7])];
    assert OuterAsWritten(es2, 2, Motorola, Intel, 8) == Some(es2);
    assert InnerAsWritten(es2, 1, Short, Motorola, Intel, 8) == Some(es2);
    assert InnerAsWritten(es1, 0, Short, Motorola, Intel, 9) == Some(es2);
  }

  /** The corrected conversion of TwoEntries handles both components and both entries. */
  lemma TwoEntriesCorrected()
    ensures SetByteOrder(Note(Motorola, 0, TwoEntries()), Intel).entries
         == [Entry(1, Short, 2, Intel, [1, 0, 2, 0]), Entry(2, Byte, 1, Intel, [7])]
  {
    var r := SetByteOrder(Note(Motorola, 0, TwoEntries()), Intel);
    ShortPairToIntel();
    assert r.entries[0] == Entry(1, Short, 2, Intel, [1, 0, 2, 0]);
    assert r.entries[1] == Entry(2, Byte, 1, Intel, [7]);
  }

  /**
    Where the two differ, the value is wrong: as written the second Short
    component reads 512 under the new order, where it read 2 under the old one.
   */
  lemma ReusedCounterSkipsWork()
    ensures OuterAsWritten(TwoEntries(), 0, Motorola, Intel, 10)
         != Some(SetByteOrder(Note(Motorola, 0, TwoEntries()), Intel).entries)
    ensures OuterAsWritten(TwoEntries(), 0, Motorola, Intel, 10).Some?
    ensures GetShort([1, 0, 0, 2], 2, Intel) == 512 && GetShort([0, 1, 0, 2], 2, Motorola) == 2
  {
    TwoEntriesAsWritten();
    TwoEntriesCorrected();
    var w := OuterAsWritten(TwoEntries(), 0, Motorola, Intel, 10).value;
    assert w[1].order == Motorola;
  }

  /**
    Three entries a load can produce: two Byte entries, of 2 and 1
    components, then a Short. The `d` bytes are the first entry's value.
   */
  function LoopingEntries(d: seq<byte>, third: ByteOrder): seq<Entry>
  {
    [Entry(1, Byte, 2, Intel, d), Entry(2, Byte, 1, Intel, [7]), Entry(3, Short, 1, third, [0, 5])]
  }

  /**
    Once the outer loop reaches the Short at index 2, its inner loop
    converts component 0 of entry 0, stops when it tests entry 1's single
    component, and the outer `i++` brings the counter back to 2: the same
    step again, with no end. However much fuel is given, the run never finishes.
   */
  lemma {:induction false} LoopingFromShort(d: seq<byte>, fuel: nat)
    requires |d| == 2
    ensures OuterAsWritten(LoopingEntries(d, Intel), 2, Motorola, Intel, fuel) == None
    decreases fuel
  {
    var es := LoopingEntries(d, Intel);
    if fuel > 1 {
      assert es[2 := es[2].(order := Intel)] == es;
      var d' := ConvertAt(d, 0, Short, Motorola, Intel);
      var es' := LoopingEntries(d', Intel);
      assert es[0 := es[0].(data := d')] == es';
      assert InnerAsWritten(es', 1, Short, Motorola, Intel, fuel - 2) == OuterAsWritten(es', 2, Motorola, Intel, fuel - 2);
      assert OuterAsWritten(es, 2, Motorola, Intel, fuel) == InnerAsWritten(es, 0, Short, Motorola, Intel, fuel - 1);
      LoopingFromShort(d', fuel - 2);
    }
  }

  /**
    set_byte_order as written never returns for a block holding a Byte
    entry of 2 components, a Byte entry of 1 component and a Short entry,
    converted from Motorola to Intel order. The corrected SetByteOrder is a
    total function and converts the block in one pass.
   */
  lemma ReusedCounterNeverEnds(fuel: nat)
    ensures var es := [Entry(1, Byte, 2, Motorola, [0, 1]), Entry(2, Byte, 1, Motorola, [7]), Entry(3, Short, 1, Motorola, [0, 5])];
      OuterAsWritten(es, 0, Motorola, Intel, fuel) == None
  {
    var es := [Entry(1, Byte, 2, Motorola, [0, 1]), Entry(2, Byte, 1, Motorola, [7]), Entry(3, Short, 1, Motorola, [0, 5])];
    var es1 := es[0 := es[0].(order := Intel)];
    var es2 := es1[1 := es1[1].(order := Intel)];
    assert es2 == LoopingEntries([0, 1], Motorola);
    if fuel >= 2 {
      assert OuterAsWritten(es, 0, Motorola, Intel, fuel) == OuterAsWritten(es2, 2, Motorola, Intel, fuel - 2);
      var a := LoopingEntries([0, 1], Intel);
      assert es2[2 := es2[2].(order := Intel)] == a == a[2 := a[2].(order := Intel)];
      LoopingFromShort([0, 1], fuel - 2);
    }
  }

  // ---------------------------------------------------------------------
  // load: unsigned 32-bit arithmetic on offsets and sizes
  // ---------------------------------------------------------------------

  /**
    The guard of line 156 as written: `buf_size < 6 + n->offset + 2` is
    computed modulo 2^32, so a huge offset wraps to a small bound.
   */
  predicate HeaderAdmittedAsWritten(bufSize: uint32, offset: uint32): (r: bool)
    ensures Header + offset + 2 < 0x1_0000_0000 ==> (r <==> bufSize != 0 && Header + offset + 2 <= bufSize)
    ensures Header + offset + 2 >= 0x1_0000_0000 ==> (r <==> bufSize != 0 && Header + offset + 2 - 0x1_0000_0000 <= bufSize)
  {
    bufSize != 0 && !(bufSize < Wrap(Header + offset + 2))
  }

  /**
    With offset 0xFFFF_FFF8 and a one-byte buffer the guard as written lets
    the load go on and read the entry count 0xFFFF_FFFE bytes in, far past
    the buffer; the corrected Load skips every such buffer.
   */
  lemma HeaderGuardWraps(buf: seq<byte>, order: ByteOrder)
    requires |buf| == 1
    ensures HeaderAdmittedAsWritten(1, 0xFFFF_FFF8)
    ensures Header + 0xFFFF_FFF8 + 2 > |buf|
    ensures Load(Note(order, 0xFFFF_FFF8, []), buf).outcome == Skipped
  {
  }

  /** The guard as written and the corrected one agree whenever the sum does not wrap. */
  lemma HeaderGuardAgrees(buf: seq<byte>, n: Note)
    requires |buf| < 0x1_0000_0000
    requires Header + n.offset + 2 < 0x1_0000_0000
    ensures HeaderAdmittedAsWritten(|buf|, n.offset) <==> Load(n, buf).outcome != Skipped
  {
  }

  /** What the parse loop does with one record as written. */
  datatype StepAsWritten =
    | Halt                                        // one of the `return`s of lines 165, 181, 184
    | Copy(from: nat, size: nat, pointerAt: Option<nat>)  // memcpy(buf + from, size); the pointer, if any, was read at pointerAt

  /**
    Lines 164-190 of exif_mnote_data_canon_load for record `i`, in the
    unsigned 32-bit arithmetic of the C code. `code`, `components` and
    `pointer` are the values read from the record's bytes 2, 4 and 8;
    `bufSize` is buf_size.
   */
  function RecordStepAsWritten(bufSize: uint32, offset: uint32, i: uint16, code: uint16, components: uint32, pointer: uint32): (r: StepAsWritten)
    ensures r.Copy? ==> Wrap(r.from + r.size) <= bufSize && r.size > 0
  {
    var o := Wrap(Header + 2 + offset + 12 * i);
    if Wrap(o + 8) > bufSize then Halt
    else
      var s := Wrap(GetSize(code) * components);
      if s == 0 then Halt
      else
        var o' := Wrap(o + 8);
        var v := if s > 4 then Wrap(pointer + Header) else o';
        if Wrap(v + s) > bufSize then Halt
        else Copy(v, s, if s > 4 then Some(o') else None)
  }

  /**
    Line 165 checks only the first 8 bytes of a record, yet for a value of
    more than 4 bytes line 183 reads the 4-byte pointer at bytes 8..12: a
    16-byte buffer whose only record is at byte 8 has the pointer read at
    bytes 16..20. The corrected loader stops there with PointerPastEnd.
   */
  lemma PointerReadPastEnd(buf: seq<byte>, order: ByteOrder)
    requires |buf| == 16
    requires GetShort(buf, 10, order) == Long.Code() && GetLong(buf, 12, order) == 2
    ensures RecordStepAsWritten(16, 0, 0, Long.Code(), 2, 0) == Copy(6, 8, Some(16))
    ensures ParseRecord(buf, 0, order, 0) == Err(PointerPastEnd)
  {
    FromCodeOfCode(Long);
  }

  /**
    Line 179 multiplies in 32 bits: a Rational record claiming 0x2000_0001
    components gets an 8-byte value, so the stored entry breaks the rule
    size == 8 * components that set_byte_order relies on. The corrected
    loader computes the true size and stops with ValuePastEnd.
   */
  lemma SizeProductWraps(buf: seq<byte>, order: ByteOrder)
    requires |buf| == 64
    requires GetShort(buf, 10, order) == Rational.Code() && GetLong(buf, 12, order) == 0x2000_0001
    requires GetLong(buf, 16, order) == 0
    ensures RecordStepAsWritten(64, 0, 0, Rational.Code(), 0x2000_0001, 0) == Copy(6, 8, Some(16))
    ensures 8 != Rational.Size() * 0x2000_0001
    ensures ParseRecord(buf, 0, order, 0) == Err(ValuePastEnd)
  {
    FromCodeOfCode(Rational);
    assert Wrap(8 * 0x2000_0001) == 8;
    assert ValueLocation(buf, 8, 8 * 0x2000_0001, order) == Err(ValuePastEnd);
  }

  /**
    Lines 183-184 add in 32 bits: a pointer of 0xFFFF_FFF0 makes the value
    start 0xFFFF_FFF6 bytes into a 64-byte buffer, and `o + s` wraps to 6,
    which passes the bounds test, so 16 bytes are copied from far outside
    the buffer. The corrected loader stops with ValuePastEnd.
   */
  lemma ValueWindowWraps(buf: seq<byte>, order: ByteOrder)
    requires |buf| == 64
    requires GetShort(buf, 10, order) == Rational.Code() && GetLong(buf, 12, order) == 2
    requires GetLong(buf, 16, order) == 0xFFFF_FFF0
    ensures RecordStepAsWritten(64, 0, 0, Rational.Code(), 2, 0xFFFF_FFF0) == Copy(0xFFFF_FFF6, 16, Some(16))
    ensures 0xFFFF_FFF6 + 16 > |buf|
    ensures ParseRecord(buf, 0, order, 0) == Err(ValuePastEnd)
  {
    FromCodeOfCode(Rational);
  }

  /** The record step of the C code on unbounded integers: what it would do if no sum wrapped. */
  function RecordStepUnbounded(bufSize: nat, offset: nat, i: nat, code: uint16, components: uint32, pointer: uint32): (r: StepAsWritten)
    ensures r.Copy? ==> r.from + r.size <= bufSize && r.size == GetSize(code) * components > 0
  {
    var o, s := RecordOffset(offset, i), GetSize(code) * components;
    var v := if s > 4 then pointer + Header else o + 8;
    if o + 8 > bufSize || s == 0 || v + s > bufSize then Halt
    else Copy(v, s, if s > 4 then Some(o + 8) else None)
  }

  /**
    With no sum reaching 2^32, the step as written is the same computation
    on unbounded integers. The pointer sum of line 183 is formed only for
    values of more than 4 bytes, and `o + s` of line 184 adds the inline
    position for the others.
   */
  lemma StepWithoutWrap(bufSize: uint32, offset: uint32, i: uint16, code: uint16, components: uint32, pointer: uint32)
    requires RecordOffset(offset, i) + 8 < 0x1_0000_0000
    requires var s := GetSize(code) * components;
      && s < 0x1_0000_0000
      && (s <= 4 ==> RecordOffset(offset, i) + 8 + s < 0x1_0000_0000)
      && (s > 4 ==> s + pointer + Header < 0x1_0000_0000)
    ensures RecordStepAsWritten(bufSize, offset, i, code, components, pointer)
         == RecordStepUnbounded(bufSize, offset, i, code, components, pointer)
  {
  }

  /**
    The unbounded step, run on the values a record holds, copies a value
    exactly when ParseRecord decodes one, and copies the bytes ParseRecord
    keeps, for every record whose first 8 bytes lie in the buffer. The
    pointer is read only for a value of more than 4 bytes, so `pointer` is
    tied to the buffer only where its 4 bytes exist; a record that needs a
    pointer it does not have is refused with PointerPastEnd, where the C
    code reads past the buffer (PointerReadPastEnd).
   */
  lemma UnboundedStepAgrees(buf: seq<byte>, offset: nat, i: nat, order: ByteOrder, pointer: uint32)
    requires RecordOffset(offset, i) + 8 <= |buf|
    requires RecordOffset(offset, i) + 12 <= |buf| ==> pointer == GetLong(buf, RecordOffset(offset, i) + 8, order)
    ensures var o := RecordOffset(offset, i);
      var code, comps := GetShort(buf, o + 2, order), GetLong(buf, o + 4, order);
      var s := GetSize(code) * comps;
      var step := RecordStepUnbounded(|buf|, offset, i, code, comps, pointer);
      var r := ParseRecord(buf, offset, order, i);
      && (s <= 4 || o + 12 <= |buf| ==>
           && (step.Copy? <==> r.Ok?)
           && (r.Ok? ==> step.from + step.size <= |buf| && buf[step.from..step.from + step.size] == r.value.data))
      && (s > 4 && o + 12 > |buf| ==> r == Err(PointerPastEnd))
  {
    ParseRecordByLocation(buf, offset, order, i);
  }

  /**
    Away from those defects the two agree: when the record's first 8 bytes
    lie inside the buffer and no sum reaches 2^32, the code as written
    copies a value exactly when the corrected loader decodes one, and
    copies the same bytes, unless the value needs a pointer the buffer does
    not hold.
   */
  lemma RecordStepAgrees(buf: seq<byte>, offset: uint32, i: uint16, order: ByteOrder, pointer: uint32)
    requires |buf| < 0x1_0000_0000
    requires RecordOffset(offset, i) + 8 <= |buf|
    requires RecordOffset(offset, i) + 12 <= |buf| ==> pointer == GetLong(buf, RecordOffset(offset, i) + 8, order)
    requires var o := RecordOffset(offset, i);
      var s := GetSize(GetShort(buf, o + 2, order)) * GetLong(buf, o + 4, order);
      && s < 0x1_0000_0000
      && (s <= 4 ==> o + 8 + s < 0x1_0000_0000)
      && (s > 4 ==> s + pointer + Header < 0x1_0000_0000)
    ensures var o := RecordOffset(offset, i);
      var code, comps := GetShort(buf, o + 2, order), GetLong(buf, o + 4, order);
      var s := GetSize(code) * comps;
      var step := RecordStepAsWritten(|buf|, offset, i, code, comps, pointer);
      var r := ParseRecord(buf, offset, order, i);
      && (s <= 4 || o + 12 <= |buf| ==>
           && (step.Copy? <==> r.Ok?)
           && (r.Ok? ==> step.from + step.size <= |buf| && buf[step.from..step.from + step.size] == r.value.data))
      && (s > 4 && o + 12 > |buf| ==> r == Err(PointerPastEnd))
  {
    var o := RecordOffset(offset, i);
    var code, comps := GetShort(buf, o + 2, order), GetLong(buf, o + 4, order);
    StepWithoutWrap(|buf|, offset, i, code, comps, pointer);
    UnboundedStepAgrees(buf, offset, i, order, pointer);
  }

  /** A record with a non-zero size decodes exactly when its value has a location, and holds the bytes there. */
  lemma ParseRecordByLocation(buf: seq<byte>, offset: nat, order: ByteOrder, i: nat)
    requires RecordOffset(offset, i) + 8 <= |buf|
    ensures var o := RecordOffset(offset, i);
      var size := GetSize(GetShort(buf, o + 2, order)) * GetLong(buf, o + 4, order);
      var r, loc := ParseRecord(buf, offset, order, i), ValueLocation(buf, o, size, order);
      size > 0 ==> (r.Ok? <==> loc.Ok?) && (r.Ok? ==> r.value.data == buf[loc.value..loc.value + size])
  {
  }
}
