# Canon maker-note block of libexif, in Dafny

This project models `libexif/canon/exif-mnote-data-canon.c`, the part of
libexif that decodes the Canon maker note of an Exif file. The maker note
is a small directory with the TIFF 6.0 layout. It starts with a 6-byte
header. `offset` bytes after the header comes a 2-byte entry count,
followed by 12-byte records. Each record holds a tag, a format code, a
component count, and either the value itself (4 bytes or fewer) or a
4-byte pointer to the value, counted from the end of the header.

The block (`ExifMnoteDataCanon`, here `CanonNote.Note`) supports these
operations:

- load the table from a buffer;
- clear it;
- set the table offset;
- convert every entry to another byte order;
- count the entries;
- look up an entry's name, title, description or rendered value by index.

Modules, one per file:

| file | module | contents |
|---|---|---|
| `wrappers.dfy` | `Wrappers` | `Option`, `Result`, the prefix of results before the first error |
| `exif_utils.dfy` | `ExifUtils` | fixed-width integers, 32-bit wrap-around, `exif_get/set_short/long/slong` |
| `exif_format.dfy` | `ExifFormat` | the format codes and `exif_format_get_size` |
| `components.dfy` | `Components` | a value seen as fixed-width components; the component loop |
| `canon_entry.dfy` | `CanonEntry` | one entry, and the per-entry byte-order conversion |
| `canon_note.dfy` | `CanonNote` | the block, the loader, the accessors, the byte-order change (corrected) |
| `canon_loops.dfy` | `CanonLoops` | the load and byte-order loops as loops, proved equal to the functions |
| `canon_as_written.dfy` | `CanonAsWritten` | the defective parts exactly as written, with inputs that expose them |
| `canon_examples.dfy` | `CanonExamples` | concrete buffers and what the lemmas prove about them |

`CanonNote` is the intended behaviour. Offsets and sizes there are
unbounded integers, so a position the C code would wrap past 2^32 is a
position past the end of the buffer. `CanonAsWritten` keeps the C code's
`unsigned int` arithmetic (`ExifUtils.Wrap`), its reused loop counter and
its inverted index test. Lemmas there relate the as-written code to the
corrected model.

Functions defined outside this file, which the accessors call directly,
become function parameters:

- `mnote_canon_tag_get_name`, `mnote_canon_tag_get_title` and
  `mnote_canon_tag_get_description` become `uint16 -> Option<string>`;
- `mnote_canon_entry_get_value` becomes `Entry -> Option<string>`.

A NULL block handle is `None` in the read-only accessors.

`set_byte_order` converts only the formats its `switch` lists: Short,
Long, Rational, SLong and SRational. SShort, Float and Double fall into
the `default` branch and keep their bytes, exactly as the C code does.

## Model

| member | source | states |
|---|---|---|
| ExifFormat.GetSize | libexif/canon/exif-mnote-data-canon.c:179-181 | the component width of a format code is the width of the format it names, 0 exactly for codes no format has, never more than 8 |
| ExifFormat.FromCodeOfCode | libexif/canon/exif-mnote-data-canon.c:171-180 | every format's code decodes back to that format and to its own width |
| ExifUtils.GetShort | libexif/canon/exif-mnote-data-canon.c:159 | the 16-bit value read at a position has the byte there as its high byte in Motorola order and as its low byte in Intel order, and the other byte as the remaining one |
| ExifUtils.GetLong | libexif/canon/exif-mnote-data-canon.c:172 | the 32-bit value read at a position has its four bytes as base-256 digits, the first byte most significant in Motorola order and least significant in Intel order |
| ExifUtils.GetSLong | libexif/canon/exif-mnote-data-canon.c:118-119 | the signed reading is the unsigned reading modulo 2^32, and is negative exactly when the top bit of the most significant byte is set |
| ExifUtils.SetShort | libexif/canon/exif-mnote-data-canon.c:94-97 | after writing a 16-bit value at a position, reading there in the same order yields it, and every other byte is unchanged |
| ExifUtils.SetLong | libexif/canon/exif-mnote-data-canon.c:102-105 | the same for a 32-bit value |
| ExifUtils.SetSLong | libexif/canon/exif-mnote-data-canon.c:118-121 | the same for a signed 32-bit value |
| ExifUtils.EncodeGetLong | libexif/canon/exif-mnote-data-canon.c:102-105 | encoding a 32-bit value just read, in the order it was read, gives back the same four bytes |
| ExifUtils.EncodeGetSLong | libexif/canon/exif-mnote-data-canon.c:118-121 | the same for the signed reading |
| CanonEntry.ConvertShort | libexif/canon/exif-mnote-data-canon.c:93-98 | a Short component re-encoded into the new order reads back as the value it had in the old order |
| CanonEntry.ConvertLong | libexif/canon/exif-mnote-data-canon.c:101-106 | the same for a Long component |
| CanonEntry.ConvertSLong | libexif/canon/exif-mnote-data-canon.c:117-122 | the same for an SLong component |
| CanonEntry.ConvertElementKeepsValue | libexif/canon/exif-mnote-data-canon.c:93-129 | one component of each converted format (Rational and SRational numerator and denominator included) decodes to the same numbers before and after conversion |
| CanonEntry.ConvertElementRoundTrip | libexif/canon/exif-mnote-data-canon.c:93-129 | converting a component from A to B and back restores its bytes, and converting to its own order changes nothing |
| CanonEntry.ConvertData | libexif/canon/exif-mnote-data-canon.c:92-135 | converting an entry's value bytes keeps their length, and leaves the formats the switch does not list untouched |
| CanonEntry.ConvertDataAt | libexif/canon/exif-mnote-data-canon.c:93-129 | component j of the converted bytes is component j of the original bytes, converted on its own from the old order to the new one |
| CanonEntry.ConvertDataRoundTrip | libexif/canon/exif-mnote-data-canon.c:92-135 | converting an entry's value bytes from A to B and back restores them exactly, for every format |
| CanonEntry.ConvertDataSameOrder | libexif/canon/exif-mnote-data-canon.c:92-135 | converting value bytes to the order they are already in changes nothing |
| CanonEntry.ConvertEntry | libexif/canon/exif-mnote-data-canon.c:89-135 | an entry takes the new order and keeps its tag, format, component count and size; the formats the switch does not list keep their bytes; a well-sized entry stays well sized |
| CanonEntry.ConvertEntryKeepsValues | libexif/canon/exif-mnote-data-canon.c:92-130 | every component of a converted entry decodes under the new order to what it decoded to under the old one |
| Components.MapComponentsAt | libexif/canon/exif-mnote-data-canon.c:93-97 | component j of the rewritten bytes is component j of the original bytes, rewritten |
| Components.MapComponentsInverse | libexif/canon/exif-mnote-data-canon.c:93-97 | rewriting components with a function and then with its left inverse restores the bytes |
| Components.MapComponentsAppend | libexif/canon/exif-mnote-data-canon.c:93-97 | rewriting the components before an aligned position plus the one at it is rewriting those before it and then that one |
| Components.MapComponentsLoop | libexif/canon/exif-mnote-data-canon.c:93-97 | the loop over components, stepping a byte position 0, w, 2w, … up to the value's size of w times count bytes and rewriting in place, computes the component-wise rewrite of the whole value |
| CanonNote.Clear | libexif/canon/exif-mnote-data-canon.c:35-52 | clearing leaves no entries, keeps order and offset, yields a valid block, and does nothing to a block that is already empty |
| CanonNote.ClearIdempotent | libexif/canon/exif-mnote-data-canon.c:35-52 | clearing twice is the same as clearing once |
| CanonNote.SetOffset | libexif/canon/exif-mnote-data-canon.c:142-146 | the new offset is stored unchecked; order and entries do not change |
| CanonNote.Count | libexif/canon/exif-mnote-data-canon.c:198-202 | a NULL block counts 0, any other block counts its entries |
| CanonNote.EntryAt | libexif/canon/exif-mnote-data-canon.c:209-211 | an entry is found exactly when the handle is present and the index is below the count |
| CanonNote.GetName | libexif/canon/exif-mnote-data-canon.c:204-212 | an index at or past the count, or a NULL block, gives NULL; otherwise the name the tag registry has for that entry's tag |
| CanonNote.GetTitle | libexif/canon/exif-mnote-data-canon.c:214-222 | the same for the title |
| CanonNote.GetDescription | libexif/canon/exif-mnote-data-canon.c:224-231 | the same for the description |
| CanonNote.GetValue | libexif/canon/exif-mnote-data-canon.c:62-70 | with the bound corrected to `n < count`: NULL at or past the count, otherwise the rendering of entry n |
| CanonNote.SetByteOrder | libexif/canon/exif-mnote-data-canon.c:72-140 | the block and every entry take the new order; tags, formats, counts and sizes are kept; unlisted formats keep their bytes; validity is preserved |
| CanonNote.SetByteOrderKeepsValues | libexif/canon/exif-mnote-data-canon.c:86-131 | every component of every converted entry decodes under the new order to what it decoded to under the old order |
| CanonNote.SetByteOrderRoundTrip | libexif/canon/exif-mnote-data-canon.c:72-140 | changing a valid block's order from A to B and back to A restores it bit for bit |
| CanonNote.SetByteOrderSameOrder | libexif/canon/exif-mnote-data-canon.c:72-140 | setting the order a valid block already has changes nothing |
| CanonNote.ValueLocation | libexif/canon/exif-mnote-data-canon.c:182-184 | a value has a location exactly when it fits: a value of at most 4 bytes sits right after the record's first 8 bytes and must end inside the buffer; a larger one sits at the record's pointer plus 6, and the pointer and the whole value must lie inside the buffer; a missing pointer is reported as PointerPastEnd |
| CanonNote.ParseRecord | libexif/canon/exif-mnote-data-canon.c:163-190 | a record is decoded exactly when its first 8 bytes lie in the buffer, its size is not 0 and its value fits, and it stops the load with RecordPastEnd or ZeroSize exactly on the first two failures; when decoded, tag, format and count are decoded from bytes 0, 2 and 4, and the value is the bytes the record names, of exactly format size times count bytes |
| CanonNote.DeclaredCount | libexif/canon/exif-mnote-data-canon.c:159 | the entry count is the 16-bit value of the two bytes right after the header and the offset, its high byte first in Motorola order |
| CanonNote.Load | libexif/canon/exif-mnote-data-canon.c:148-196 | an empty buffer, or one too short for the entry count, changes nothing; otherwise the old entries are dropped, the records are parsed in order, and the entries before the first record that fails are kept, each well sized and in the block's order |
| CanonNote.LoadReplaces | libexif/canon/exif-mnote-data-canon.c:158-160 | a load that is not skipped gives the same block whatever entries were there before |
| CanonNote.LoadReadsInside | libexif/canon/exif-mnote-data-canon.c:182-190 | every loaded value lies inside the buffer at the position its record names |
| CanonLoops.ConvertComponents | libexif/canon/exif-mnote-data-canon.c:92-135 | the per-entry loop over components computes the functional conversion of the entry's bytes |
| CanonLoops.SetByteOrderLoop | libexif/canon/exif-mnote-data-canon.c:86-139 | the entry loop, with its own component index, computes SetByteOrder |
| CanonLoops.ParseRecords | libexif/canon/exif-mnote-data-canon.c:163-191 | the parse loop that breaks at the first failing record keeps exactly the entries before it and reports that record and why it failed |
| CanonLoops.LoadLoop | libexif/canon/exif-mnote-data-canon.c:148-191 | the parse loop that breaks at the first failing record computes Load |
| CanonAsWritten.ValueIndexAsWritten | libexif/canon/exif-mnote-data-canon.c:68-69 | as written, get_value dereferences an index exactly when it is greater than the count |
| CanonAsWritten.InvertedBoundNeverHelps | libexif/canon/exif-mnote-data-canon.c:62-70 | for every valid index the code as written returns NULL where GetValue answers; every index it dereferences is out of range |
| CanonAsWritten.ConvertAt | libexif/canon/exif-mnote-data-canon.c:93-129 | one inner-loop body as written changes only the bytes of the component it converts |
| CanonAsWritten.OuterAsWritten | libexif/canon/exif-mnote-data-canon.c:87-139 | the outer loop as written, when it finishes, keeps the number of entries |
| CanonAsWritten.InnerAsWritten | libexif/canon/exif-mnote-data-canon.c:93-129 | the inner loop as written, sharing the outer counter, keeps the number of entries when it finishes |
| CanonAsWritten.SetByteOrderAsWritten | libexif/canon/exif-mnote-data-canon.c:72-140 | set_byte_order as written, when it finishes, sets the block order and keeps the number of entries |
| CanonAsWritten.OuterWithoutNumeric | libexif/canon/exif-mnote-data-canon.c:87-139 | the outer loop as written, over entries none of which has a converted format, finishes and changes only their orders |
| CanonAsWritten.AsWrittenAgreesWithoutNumericEntries | libexif/canon/exif-mnote-data-canon.c:72-140 | on a block with no entry of a converted format, set_byte_order as written finishes with exactly SetByteOrder's result |
| CanonAsWritten.TwoEntriesAsWritten | libexif/canon/exif-mnote-data-canon.c:87-131 | on a Short pair followed by a Byte, the code as written converts only the first component and leaves the Byte entry in Motorola order |
| CanonAsWritten.TwoEntriesCorrected | libexif/canon/exif-mnote-data-canon.c:72-140 | on the same block SetByteOrder converts both components and moves both entries to Intel order |
| CanonAsWritten.ReusedCounterSkipsWork | libexif/canon/exif-mnote-data-canon.c:93-129 | on that block the code as written finishes with a result different from SetByteOrder's, and the second Short component reads 512 where it read 2 |
| CanonAsWritten.LoopingFromShort | libexif/canon/exif-mnote-data-canon.c:87-99 | once the outer loop reaches the Short at index 2 of that block, the run as written never finishes |
| CanonAsWritten.ReusedCounterNeverEnds | libexif/canon/exif-mnote-data-canon.c:87-99 | set_byte_order as written never returns on a block of a 2-component Byte, a 1-component Byte and a Short |
| CanonAsWritten.HeaderAdmittedAsWritten | libexif/canon/exif-mnote-data-canon.c:156 | the guard as written admits a non-empty buffer exactly when it holds `6 + offset + 2` bytes or, when that sum reaches 2^32, the sum less 2^32 bytes |
| CanonAsWritten.HeaderGuardWraps | libexif/canon/exif-mnote-data-canon.c:156-159 | with offset 0xFFFFFFF8 and a 1-byte buffer the guard as written admits the load and the count is read far outside; Load skips |
| CanonAsWritten.HeaderGuardAgrees | libexif/canon/exif-mnote-data-canon.c:156 | when `6 + offset + 2` does not wrap, the guard as written admits a load exactly when Load does not skip it |
| CanonAsWritten.RecordStepAsWritten | libexif/canon/exif-mnote-data-canon.c:163-190 | the record step as written copies a non-empty value whose end, computed modulo 2^32, is within the buffer size |
| CanonAsWritten.PointerReadPastEnd | libexif/canon/exif-mnote-data-canon.c:165-183 | a 16-byte buffer whose record holds two Longs has its pointer read at bytes 16..20 as written; ParseRecord stops with PointerPastEnd |
| CanonAsWritten.SizeProductWraps | libexif/canon/exif-mnote-data-canon.c:179-181 | a Rational record with 0x20000001 components gets an 8-byte value as written; ParseRecord stops with ValuePastEnd |
| CanonAsWritten.ValueWindowWraps | libexif/canon/exif-mnote-data-canon.c:182-184 | a pointer of 0xFFFFFFF0 makes the code as written copy 16 bytes from 0xFFFFFFF6; ParseRecord stops with ValuePastEnd |
| CanonAsWritten.RecordStepUnbounded | libexif/canon/exif-mnote-data-canon.c:163-184 | the record step on unbounded integers copies only a non-empty value of exactly format size times count bytes that ends inside the buffer |
| CanonAsWritten.StepWithoutWrap | libexif/canon/exif-mnote-data-canon.c:163-184 | when neither the size product, nor the inline end `o + 8 + s`, nor (for a value over 4 bytes) the pointer sum `pointer + 6 + s` reaches 2^32, the record step as written equals the step on unbounded integers |
| CanonAsWritten.ParseRecordByLocation | libexif/canon/exif-mnote-data-canon.c:179-190 | a record of non-zero size decodes exactly when its value has a location inside the buffer, and its value is the bytes at that location |
| CanonAsWritten.UnboundedStepAgrees | libexif/canon/exif-mnote-data-canon.c:163-190 | for every record whose first 8 bytes lie in the buffer, the unbounded step copies a value exactly when ParseRecord decodes one, and copies the same bytes, whenever the value is inline or the record's pointer lies in the buffer; a value over 4 bytes whose pointer does not lie in the buffer is refused with PointerPastEnd |
| CanonAsWritten.RecordStepAgrees | libexif/canon/exif-mnote-data-canon.c:163-190 | when the record's first 8 bytes are inside the buffer and no sum the code forms wraps, the code as written copies a value exactly when ParseRecord decodes one, and copies the same bytes, whenever the value is inline or its pointer lies in the buffer; otherwise ParseRecord refuses the record with PointerPastEnd |
| CanonExamples.OneShortRecord | libexif/canon/exif-mnote-data-canon.c:164-190 | the record of tag 1, format Short, 2 components and inline bytes 00 01 00 02 decodes to that entry |
| CanonExamples.OneShortLoads | libexif/canon/exif-mnote-data-canon.c:148-191 | a table of one inline Short pair 0x0001 0x0002 loads completely into one entry |
| CanonExamples.ShortPairToIntel | libexif/canon/exif-mnote-data-canon.c:93-98 | the Short pair 00 01 00 02 converted from Motorola to Intel order becomes 01 00 02 00 |
| CanonExamples.OneShortToIntel | libexif/canon/exif-mnote-data-canon.c:72-140 | converting that entry to Intel order gives the bytes 01 00 02 00, which still read as 1 and 2 |
| CanonExamples.OneBytePastEndStops | libexif/canon/exif-mnote-data-canon.c:182-184 | a value ending one byte past the buffer stops the load at record 0 with no entries kept |
| CanonExamples.LastByteRecordLoads | libexif/canon/exif-mnote-data-canon.c:164-190 | a 17-byte table whose one-byte inline value is the buffer's last byte loads completely into one entry holding that byte |
| CanonExamples.EmptyTableLoads | libexif/canon/exif-mnote-data-canon.c:158-163 | a table declaring no entries loads completely into an empty, valid block |

## Left out

- `exif_mnote_data_canon_free` and `exif_mnote_data_canon_new` (lines 54-60 and 233-256): these only manage memory and the method table. The model has no heap.
- Allocation failure at lines 168-169 and 186-188: the model has no allocator.
- The debug `printf` at lines 193-195, switched on by line 33: it is output only.
- The NULL-handle and NULL-buffer guards of the mutators (lines 40, 84, 145, 156): a `Note` value and a `seq` always exist. The read-only accessors do model the NULL handle, as `Option<Note>`.
- CanonNote.Load: the C loader sets `count = i + 1` and enlarges the array before a record passes its size and bounds checks (lines 167-173). A record that then fails stays in the block as a counted entry with NULL data. The model keeps only fully parsed entries, and reports the failed record in `Stopped`.
- CanonNote.Load: a failed load keeps the entries parsed before the failing record, as the code does. A reload that kept the previous entries when a record fails would be safer; the model follows the code instead.
- CanonNote.Load, CanonNote.ParseRecord: offsets are unbounded integers, so these give the intended behaviour. The 32-bit wrap-around of the code is modelled separately in CanonAsWritten.
- `exif_get_short`, `exif_get_long`, `exif_get_slong` and their `set` partners are defined in libexif/exif-utils.c, a source file that is not among the files modelled here; the ExifUtils module models them. They are written here from their behaviour as used at lines 94-127.
- `exif_format_get_size` is defined in libexif/exif-format.c, a source file that is not among the files modelled here; the ExifFormat module models it. Its table (Byte, Ascii, SByte, Undefined 1; Short, SShort 2; Long, SLong, Float 4; Rational, SRational, Double 8; anything else 0) is taken from libexif.
- `mnote_canon_tag_get_name`, `_get_title`, `_get_description` and `mnote_canon_entry_get_value` are not part of this model. They are parameters of the accessors.
- CanonAsWritten.OuterAsWritten: `fuel` bounds the number of loop steps. `None` stands both for undefined behaviour (an entry read past the array, a write past an entry's data) and for running out of fuel. ReusedCounterNeverEnds shows that running out of fuel can mean the C loop never ends.

## Findings

| source | as written | input that shows it | evidently intended | confidence | as-written member | corrected member |
|---|---|---|---|---|---|---|
| libexif/canon/exif-mnote-data-canon.c:68 | `if (cnote->count >= n) return NULL;` returns NULL for every valid index and reads `entries[n]` only for `n > count` | count 1, n 0 gives NULL; count 1, n 2 reads past the array | return the entry exactly when `n < count`, as get_name does at line 210 | high; not executed | CanonAsWritten.InvertedBoundNeverHelps | CanonNote.GetValue |
| libexif/canon/exif-mnote-data-canon.c:93-129 | the inner loops reuse the outer counter `i`, so they walk component i of entry i and resume the outer loop wherever they stop | a Short entry with bytes 00 01 00 02 followed by a Byte entry, Motorola to Intel: one component is converted, so the second reads as 512 instead of 2, and the Byte entry keeps Motorola order | a separate component index for each entry | high; not executed | CanonAsWritten.ReusedCounterSkipsWork | CanonNote.SetByteOrderKeepsValues |
| libexif/canon/exif-mnote-data-canon.c:87-99 | the same reused counter lets the outer loop come back to an index it has already passed | entries Byte with 2 components, Byte with 1 component, Short with 1 component: the inner loop at index 2 stops at 1, `i++` gives 2 again, forever | every entry is visited once and the call returns | high; not executed | CanonAsWritten.ReusedCounterNeverEnds | CanonLoops.SetByteOrderLoop |
| libexif/canon/exif-mnote-data-canon.c:156 | `buf_size < 6 + n->offset + 2` is computed in 32 bits | offset 0xFFFFFFF8, buf_size 1: the sum wraps to 0 and the count is read 0xFFFFFFFE bytes in | skip any buffer that cannot hold the count | high; not executed | CanonAsWritten.HeaderGuardWraps | CanonNote.Load |
| libexif/canon/exif-mnote-data-canon.c:179-180 | `exif_format_get_size (...) * components` is computed in 32 bits | a Rational record with 0x20000001 components gets an 8-byte value, breaking size = 8 × components, on which set_byte_order relies | reject a record whose true size does not fit the buffer | medium; not executed | CanonAsWritten.SizeProductWraps | CanonNote.ParseRecord |
| libexif/canon/exif-mnote-data-canon.c:183-184 | `exif_get_long (...) + 6` and `o + s` are computed in 32 bits | a 64-byte buffer whose Rational pair points to 0xFFFFFFF0: the value starts at 0xFFFFFFF6, `o + s` wraps to 6, and 16 bytes are copied from outside the buffer | reject a value that does not end inside the buffer | high; not executed | CanonAsWritten.ValueWindowWraps | CanonNote.ValueLocation |
| libexif/canon/exif-mnote-data-canon.c:165-183 | line 165 checks 8 bytes of the record, but a value over 4 bytes has its pointer read from bytes 8 to 12 | a 16-byte buffer whose only record, at byte 8, holds two Longs: the pointer is read at bytes 16 to 20 | check all 12 bytes of the record before reading its pointer | high; not executed | CanonAsWritten.PointerReadPastEnd | CanonNote.ValueLocation |
