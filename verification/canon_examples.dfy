/**
  Concrete maker-note buffers and what the lemmas prove about them: a
  one-entry table that loads completely and is then converted to Intel
  order, a table whose value runs one byte past the end, a table whose
  one-byte value is the buffer's last byte, and a table that declares no
  entries.
 */
module CanonExamples {
  import opened Wrappers
  import opened ExifUtils
  import opened ExifFormat
  import opened CanonEntry
  import opened CanonNote

  /**
    Six header bytes, a count of 1, then one record: tag 1, format Short
    (3), 2 components, and the inline value 0x0001 0x0002 in Motorola order.
   */
  function OneShortBuffer(): seq<byte>
  {
    [0, 0, 0, 0, 0, 0,  0, 1,  0, 1,  0, 3,  0, 0, 0, 2,  0, 1, 0, 2]
  }

  /** The same table with a Long pair whose pointer places its 8 bytes one byte past the end. */
  function OneBytePastEndBuffer(): seq<byte>
  {
    [0, 0, 0, 0, 0, 0,  0, 1,  0, 1,  0, 4,  0, 0, 0, 2,  0, 0, 0, 7]
  }

  /** The single record of OneShortBuffer decodes to a Short pair stored inline. */
  lemma OneShortRecord()
    ensures ParseRecord(OneShortBuffer(), 0, Motorola, 0) == Ok(Entry(1, Short, 2, Motorola, [0, 1, 0, 2]))
  {
    var buf := OneShortBuffer();
    FromCodeOfCode(Short);
    assert GetShort(buf, 8, Motorola) == 1 && GetShort(buf, 10, Motorola) == 3;
    assert GetLong(buf, 12, Motorola) == 2 && GetSize(3) == 2;
    assert ValueLocation(buf, 8, 4, Motorola) == Ok(16);
    assert buf[16..20] == [0, 1, 0, 2];
  }

  /** The one-Short table loads completely into one entry that decodes to 1 and 2. */
  lemma OneShortLoads()
    ensures var r := Load(Note(Motorola, 0, []), OneShortBuffer());
      && r.outcome == Complete
      && r.note.entries == [Entry(1, Short, 2, Motorola, [0, 1, 0, 2])]
      && Count(Some(r.note)) == 1
  {
    var buf := OneShortBuffer();
    assert DeclaredCount(Note(Motorola, 0, []), buf) == 1;
    OneShortRecord();
    OkPrefixUnique(Records(buf, 0, Motorola, 1), [Entry(1, Short, 2, Motorola, [0, 1, 0, 2])]);
  }

  /** The Short pair 0x0001 0x0002, converted from Motorola to Intel order, becomes 01 00 02 00. */
  lemma ShortPairToIntel()
    ensures ConvertData([0, 1, 0, 2], Short, Motorola, Intel) == [1, 0, 2, 0]
  {
    var g := Reencoder(Short, Motorola, Intel);
    var x: seq<byte> := [0, 1, 0, 2];
    var y: seq<byte> := [0, 2];
    assert x[..2] == [0, 1] && x[2..] == y;
    assert y[..2] == y && y[2..] == [];
    assert g([0, 1]) == [1, 0] && g(y) == [2, 0];
  }

  /**
    Converting the loaded entry to Intel order re-encodes both components:
    the bytes become 01 00 02 00, which read in Intel order as 1 and 2.
   */
  lemma OneShortToIntel()
    ensures var n := Note(Motorola, 0, [Entry(1, Short, 2, Motorola, [0, 1, 0, 2])]);
      && SetByteOrder(n, Intel) == Note(Intel, 0, [Entry(1, Short, 2, Intel, [1, 0, 2, 0])])
      && GetShort([1, 0, 2, 0], 0, Intel) == 1 && GetShort([1, 0, 2, 0], 2, Intel) == 2
  {
    ShortPairToIntel();
  }

  /** A value ending one byte past the buffer stops the load at record 0, leaving no entries. */
  lemma OneBytePastEndStops(n: Note)
    requires n.order == Motorola && n.offset == 0
    ensures var r := Load(n, OneBytePastEndBuffer());
      && r.outcome == Stopped(0, ValuePastEnd)
      && r.note.entries == []
  {
    var buf := OneBytePastEndBuffer();
    FromCodeOfCode(Long);
    assert GetShort(buf, 10, Motorola) == 4 && GetLong(buf, 12, Motorola) == 2 && GetSize(4) == 4;
    assert GetLong(buf, 16, Motorola) == 7;
    assert ValueLocation(buf, 8, 8, Motorola) == Err(ValuePastEnd);
    assert ParseRecord(buf, 0, Motorola, 0) == Err(ValuePastEnd);
    OkPrefixUnique(Records(buf, 0, Motorola, 1), []);
  }

  /**
    Six header bytes, a count of 1, then one record: tag 7, format Byte
    (1), 1 component, and its inline value 0x2A as the buffer's last byte.
    The record's 12 bytes do not all lie in the 17-byte buffer.
   */
  function LastByteBuffer(): seq<byte>
  {
    [0, 0, 0, 0, 0, 0,  0, 1,  0, 7,  0, 1,  0, 0, 0, 1,  0x2A]
  }

  /**
    A one-byte value in the buffer's last byte is kept: the table loads
    completely into one entry holding that byte.
   */
  lemma LastByteRecordLoads()
    ensures var r := Load(Note(Motorola, 0, []), LastByteBuffer());
      && r.outcome == Complete
      && r.note.entries == [Entry(7, Byte, 1, Motorola, [0x2A])]
  {
    var buf := LastByteBuffer();
    FromCodeOfCode(Byte);
    assert GetShort(buf, 8, Motorola) == 7 && GetShort(buf, 10, Motorola) == 1;
    assert GetLong(buf, 12, Motorola) == 1 && GetSize(1) == 1;
    assert ValueLocation(buf, 8, 1, Motorola) == Ok(16);
    assert buf[16..17] == [0x2A];
    assert ParseRecord(buf, 0, Motorola, 0) == Ok(Entry(7, Byte, 1, Motorola, [0x2A]));
    OkPrefixUnique(Records(buf, 0, Motorola, 1), [Entry(7, Byte, 1, Motorola, [0x2A])]);
  }

  /** A table declaring zero entries loads completely into an empty, valid block. */
  lemma EmptyTableLoads(n: Note, buf: seq<byte>)
    requires |buf| >= Header + n.offset + 2 && DeclaredCount(n, buf) == 0
    ensures var r := Load(n, buf);
      r.outcome == Complete && r.note.entries == [] && Valid(r.note) && Count(Some(r.note)) == 0
  {
    OkPrefixUnique(Records(buf, n.offset, n.order, 0), []);
  }
}
