/**
  The loops of exif_mnote_data_canon_load and
  exif_mnote_data_canon_set_byte_order written as loops, with the
  corrected bounds and a separate component index, each proved to compute
  the functional definition in CanonNote.
 */
module CanonLoops {
  import opened Wrappers
  import opened ExifUtils
  import opened ExifFormat
  import opened Components
  import opened CanonEntry
  import opened CanonNote

  /**
    The inner loop of set_byte_order for one entry: components 0 to
    `count - 1`, each read under `from` and rewritten under `to`, in place;
    the formats the switch does not list are left alone.
   */
  method ConvertComponents(data: seq<byte>, f: Format, count: nat, from: ByteOrder, to: ByteOrder) returns (out: seq<byte>)
    requires |data| == f.Size() * count
    ensures out == ConvertData(data, f, from, to)
  {
    if !Converted(f) {
      return data;
    }
    out := MapComponentsLoop(data, f.Size(), Reencoder(f, from, to), count);
  }

  /**
    exif_mnote_data_canon_set_byte_order with its loops: every entry takes
    the new order and has its components re-encoded from the block's old order.
   */
  method SetByteOrderLoop(n: Note, o: ByteOrder) returns (r: Note)
    requires forall i :: 0 <= i < |n.entries| ==> WellSized(n.entries[i])
    ensures r == SetByteOrder(n, o)
  {
    var es := n.entries;
    var i := 0;
    while i < |es|
      invariant 0 <= i <= |es| == |n.entries|
      invariant forall k :: 0 <= k < i ==> es[k] == ConvertEntry(n.entries[k], n.order, o)
      invariant forall k :: i <= k < |es| ==> es[k] == n.entries[k]
    {
      var e := es[i];
      var data := ConvertComponents(e.data, e.format, e.components, n.order, o);
      es := es[i := e.(order := o, data := data)];
      i := i + 1;
    }
    r := Note(o, n.offset, es);
  }

  /**
    The parse loop of exif_mnote_data_canon_load: records 0 to `c - 1`
    are decoded in order until one fails; the entries decoded before it
    are kept, and the failure is reported with its index.
   */
  method ParseRecords(buf: seq<byte>, offset: nat, order: ByteOrder, c: nat) returns (es: seq<Entry>, outcome: Outcome)
    ensures es == OkPrefix(Records(buf, offset, order, c))
    ensures outcome == Complete <==> |es| == c
    ensures outcome.Stopped? ==> outcome == Stopped(|es|, ParseRecord(buf, offset, order, |es|).error)
    ensures !outcome.Skipped?
  {
    es, outcome := [], Complete;
    var i := 0;
    while i < c
      invariant 0 <= i <= c && |es| == i
      invariant forall k :: 0 <= k < i ==> ParseRecord(buf, offset, order, k) == Ok(es[k])
    {
      var r := ParseRecord(buf, offset, order, i);
      if r.Err? {
        outcome := Stopped(i, r.error);
        break;
      }
      es, i := es + [r.value], i + 1;
    }
    OkPrefixUnique(Records(buf, offset, order, c), es);
  }

  /** exif_mnote_data_canon_load with its parse loop. */
  method LoadLoop(n: Note, buf: seq<byte>) returns (r: LoadResult)
    ensures r == Load(n, buf)
  {
    if |buf| == 0 || |buf| < Header + n.offset + 2 {
      return LoadResult(n, Skipped);
    }
    var es, outcome := ParseRecords(buf, n.offset, n.order, DeclaredCount(n, buf));
    r := LoadResult(Clear(n).(entries := es), outcome);
  }
}
