/**
 A writer of laid-out files, which the section table reader inverts: every table of section headers
 whose values fit their fields has a file in either class and byte order.
 */
module ElfWriter {
  import opened Common
  import opened ElfSections
  import opened ElfFiles

  // ----- Packing -----------------------------------------------------------------

  /** The first `n` fields of a structure, packed without gaps. */
  function Pack(order: Order, format: seq<nat>, values: seq<nat>, n: nat): (bytes: seq<Byte>)
    requires n <= |format| == |values|
    ensures |bytes| == OffsetOf(format, n)
  {
    if n == 0 then [] else Pack(order, format, values, n - 1) + Encode(order, values[n - 1], format[n - 1])
  }

  predicate Fit(format: seq<nat>, values: seq<nat>) {
    |values| == |format| && forall k :: 0 <= k < |values| ==> values[k] < Pow256(format[k])
  }

  /** What is stored in a piece of a file is stored in the file. */
  lemma StoredShift(a: seq<Byte>, b: seq<Byte>, c: seq<Byte>, order: Order, at: nat, width: nat, n: nat)
    requires Stored(b, order, at, width, n)
    ensures Stored(a + b + c, order, |a| + at, width, n)
  {
    assert (a + b + c)[|a| + at..|a| + at + width] == b[at..at + width];
  }

  lemma StoredLast(before: seq<Byte>, order: Order, width: nat, n: nat)
    requires n < Pow256(width)
    ensures Stored(before + Encode(order, n, width), order, |before|, width, n)
  {
  }

  lemma StoredEarlier(before: seq<Byte>, last: seq<Byte>, order: Order, at: nat, width: nat, n: nat)
    requires Stored(before, order, at, width, n)
    ensures Stored(before + last, order, at, width, n)
  {
    assert (before + last)[at..at + width] == before[at..at + width];
  }

  /** Every packed field is stored where its format puts it. */
  lemma {:induction false} PackStored(order: Order, format: seq<nat>, values: seq<nat>, n: nat, k: nat)
    requires Fit(format, values) && k < n <= |format|
    ensures Stored(Pack(order, format, values, n), order, OffsetOf(format, k), format[k], values[k])
    decreases n
  {
    var before := Pack(order, format, values, n - 1);
    if k == n - 1 {
      StoredLast(before, order, format[k], values[k]);
    } else {
      PackStored(order, format, values, n - 1, k);
      StoredEarlier(before, Encode(order, values[n - 1], format[n - 1]), order, OffsetOf(format, k), format[k], values[k]);
    }
  }

  // ----- Section headers ---------------------------------------------------------

  function RowSize(wide: bool): nat {
    if wide then 64 else 40
  }

  predicate InRange(wide: bool, h: SectionHeader) {
    var limit := Pow256(if wide then 8 else 4);
    && h.name < Pow256(4) && h.kind < Pow256(4)
    && h.flags < limit && h.address < limit && h.offset < limit && h.size < limit
  }

  function RowValues(h: SectionHeader): seq<nat> {
    [h.name, h.kind, h.flags, h.address, h.offset, h.size, 0, 0, 0, 0]
  }

  function PackRow(order: Order, wide: bool, h: SectionHeader): seq<Byte> {
    Pack(order, SectionFormat(wide), RowValues(h), 10)
  }

  lemma RowFits(wide: bool, h: SectionHeader)
    requires InRange(wide, h)
    ensures Fit(SectionFormat(wide), RowValues(h))
  {
  }

  lemma RowStored(order: Order, wide: bool, h: SectionHeader)
    requires InRange(wide, h)
    ensures |PackRow(order, wide, h)| == RowSize(wide)
    ensures HeaderStored(PackRow(order, wide, h), order, wide, 0, h)
  {
    SectionOffsets();
    RowFits(wide, h);
    var format, values := SectionFormat(wide), RowValues(h);
    PackStored(order, format, values, 10, 0);
    PackStored(order, format, values, 10, 1);
    PackStored(order, format, values, 10, 2);
    PackStored(order, format, values, 10, 3);
    PackStored(order, format, values, 10, 4);
    PackStored(order, format, values, 10, 5);
  }

  /** A piece of a file: what it stores, the file stores. */
  lemma StoredInside(data: seq<Byte>, at: nat, piece: seq<Byte>, order: Order, k: nat, width: nat, n: nat)
    requires at + |piece| <= |data| && data[at..at + |piece|] == piece && Stored(piece, order, k, width, n)
    ensures Stored(data, order, at + k, width, n)
  {
    StoredShift(data[..at], piece, data[at + |piece|..], order, k, width, n);
    assert data[..at] + piece + data[at + |piece|..] == data;
  }

  lemma HeaderInside(data: seq<Byte>, at: nat, row: seq<Byte>, order: Order, wide: bool, h: SectionHeader)
    requires at + |row| <= |data| && data[at..at + |row|] == row && HeaderStored(row, order, wide, 0, h)
    ensures HeaderStored(data, order, wide, at, h)
  {
    StoredInside(data, at, row, order, 0, 4, h.name);
    StoredInside(data, at, row, order, 4, 4, h.kind);
    if wide {
      StoredInside(data, at, row, order, 8, 8, h.flags);
      StoredInside(data, at, row, order, 16, 8, h.address);
      StoredInside(data, at, row, order, 24, 8, h.offset);
      StoredInside(data, at, row, order, 32, 8, h.size);
    } else {
      StoredInside(data, at, row, order, 8, 4, h.flags);
      StoredInside(data, at, row, order, 12, 4, h.address);
      StoredInside(data, at, row, order, 16, 4, h.offset);
      StoredInside(data, at, row, order, 20, 4, h.size);
    }
  }

  /** Rows of one size, one after another. */
  function Concat(rows: seq<seq<Byte>>): seq<Byte> {
    if rows == [] then [] else Concat(rows[..|rows| - 1]) + rows[|rows| - 1]
  }

  lemma {:induction false} ConcatLength(rows: seq<seq<Byte>>, size: nat)
    requires forall i :: 0 <= i < |rows| ==> |rows[i]| == size
    ensures |Concat(rows)| == EntryAt(0, size, |rows|)
  {
    if rows != [] {
      ConcatLength(rows[..|rows| - 1], size);
      assert |rows| * size == (|rows| - 1) * size + size;
    }
  }

  lemma {:induction false} ConcatAt(rows: seq<seq<Byte>>, size: nat, i: nat)
    requires i < |rows| && forall j :: 0 <= j < |rows| ==> |rows[j]| == size
    ensures EntryAt(0, size, i) + size <= |Concat(rows)|
    ensures Concat(rows)[EntryAt(0, size, i)..EntryAt(0, size, i) + size] == rows[i]
    decreases |rows|
  {
    var before := rows[..|rows| - 1];
    ConcatLength(before, size);
    if i < |before| {
      ConcatAt(before, size, i);
    }
  }

  function PackTable(order: Order, wide: bool, headers: seq<SectionHeader>): seq<Byte> {
    Concat(Rows(order, wide, headers))
  }

  function Rows(order: Order, wide: bool, headers: seq<SectionHeader>): seq<seq<Byte>> {
    seq(|headers|, i requires 0 <= i < |headers| => PackRow(order, wide, headers[i]))
  }

  // ----- Files -------------------------------------------------------------------

  function HeaderSize(wide: bool): nat {
    if wide then 64 else 52
  }

  function Identification(wide: bool, order: Order): (bytes: seq<Byte>)
    ensures |bytes| == 16
  {
    MAGIC + [if wide then 2 else 1, if order.Little? then 1 else 2] + seq(10, _ => 0)
  }

  /** The identification bytes read as one integer. */
  function IdentityValue(f: File): nat {
    Decode(f.order, Identification(f.wide, f.order))
  }

  function HeaderValues(f: File, id: nat): seq<nat> {
    [id, 0, 0, 0, 0, 0, f.table, 0, 0, 0, 0, f.stride, |f.headers|, f.namesIndex]
  }

  function PackHeader(f: File): seq<Byte> {
    Pack(f.order, HeaderFormat(f.wide), HeaderValues(f, IdentityValue(f)), 14)
  }

  predicate HeaderInRange(f: File) {
    && f.table < Pow256(if f.wide then 8 else 4)
    && f.stride < Pow256(2) && |f.headers| < Pow256(2) && f.namesIndex < Pow256(2)
  }

  lemma NarrowHeaderFits(f: File, id: nat)
    requires HeaderInRange(f) && !f.wide && id < Pow256(16)
    ensures Fit(HEADER32, HeaderValues(f, id))
  {
  }

  lemma WideHeaderFits(f: File, id: nat)
    requires HeaderInRange(f) && f.wide && id < Pow256(16)
    ensures Fit(HEADER64, HeaderValues(f, id))
  {
  }

  lemma HeaderFits(f: File)
    requires HeaderInRange(f)
    ensures Fit(HeaderFormat(f.wide), HeaderValues(f, IdentityValue(f)))
  {
    WritesBack(f.order, Identification(f.wide, f.order));
    if f.wide {
      WideHeaderFits(f, IdentityValue(f));
    } else {
      NarrowHeaderFits(f, IdentityValue(f));
    }
  }

  lemma HeaderStoredFirst(data: seq<Byte>, f: File)
    requires HeaderInRange(f) && PackHeader(f) <= data
    ensures |PackHeader(f)| == HeaderSize(f.wide)
    ensures TableStored(data, f)
  {
    HeaderOffsets();
    HeaderFits(f);
    var header := PackHeader(f);
    var format, values := HeaderFormat(f.wide), HeaderValues(f, IdentityValue(f));
    assert data[0..0 + |header|] == header;
    PackStored(f.order, format, values, 14, 6);
    StoredInside(data, 0, header, f.order, OffsetOf(format, 6), format[6], f.table);
    PackStored(f.order, format, values, 14, 11);
    StoredInside(data, 0, header, f.order, OffsetOf(format, 11), format[11], f.stride);
    PackStored(f.order, format, values, 14, 12);
    StoredInside(data, 0, header, f.order, OffsetOf(format, 12), format[12], |f.headers|);
    PackStored(f.order, format, values, 14, 13);
    StoredInside(data, 0, header, f.order, OffsetOf(format, 13), format[13], f.namesIndex);
  }

  lemma StartsWith(data: seq<Byte>, order: Order, bytes: seq<Byte>)
    requires Stored(data, order, 0, |bytes|, Decode(order, bytes))
    ensures bytes <= data
  {
    WritesBack(order, bytes);
    assert data[0..|bytes|] == bytes;
  }

  lemma HeaderStarts(f: File)
    requires HeaderInRange(f)
    ensures Identification(f.wide, f.order) <= PackHeader(f)
  {
    HeaderFits(f);
    PackStored(f.order, HeaderFormat(f.wide), HeaderValues(f, IdentityValue(f)), 14, 0);
    StartsWith(PackHeader(f), f.order, Identification(f.wide, f.order));
  }

  lemma IdentifiedFirst(data: seq<Byte>, f: File)
    requires Identification(f.wide, f.order) <= data
    ensures Identified(data, f)
  {
    var id := Identification(f.wide, f.order);
    assert data[0] == id[0] && data[1] == id[1] && data[2] == id[2] && data[3] == id[3] && data[4] == id[4] && data[5] == id[5];
  }

  /** The file for a table of section headers, with anything after it. */
  function Image(wide: bool, order: Order, namesIndex: nat, headers: seq<SectionHeader>): File {
    File(wide, order, HeaderSize(wide), RowSize(wide), namesIndex, headers)
  }

  function Write(f: File, body: seq<Byte>): seq<Byte> {
    PackHeader(f) + PackTable(f.order, f.wide, f.headers) + body
  }

  lemma RowPlaced(data: seq<Byte>, at: nat, rows: seq<seq<Byte>>, size: nat, i: nat)
    requires i < |rows| && forall j :: 0 <= j < |rows| ==> |rows[j]| == size
    requires var table := Concat(rows); at + |table| <= |data| && data[at..at + |table|] == table
    ensures EntryAt(at, size, i) + size <= |data|
    ensures data[EntryAt(at, size, i)..EntryAt(at, size, i) + size] == rows[i]
  {
    ConcatAt(rows, size, i);
    SliceOfSlice(data, at, |Concat(rows)|, EntryAt(0, size, i), size);
  }

  lemma RowStoredAt(data: seq<Byte>, f: File, rows: seq<seq<Byte>>, size: nat, i: nat)
    requires i < |rows| == |f.headers| && forall j :: 0 <= j < |rows| ==> |rows[j]| == size
    requires var table := Concat(rows); f.table + |table| <= |data| && data[f.table..f.table + |table|] == table
    requires f.stride == size && HeaderStored(rows[i], f.order, f.wide, 0, f.headers[i])
    ensures HeaderStored(data, f.order, f.wide, EntryAt(f.table, f.stride, i), f.headers[i])
  {
    RowPlaced(data, f.table, rows, size, i);
    HeaderInside(data, EntryAt(f.table, size, i), rows[i], f.order, f.wide, f.headers[i]);
  }

  lemma RowsStored(data: seq<Byte>, f: File)
    requires forall i :: 0 <= i < |f.headers| ==> InRange(f.wide, f.headers[i])
    requires f.stride == RowSize(f.wide)
    requires var table := PackTable(f.order, f.wide, f.headers);
             f.table + |table| <= |data| && data[f.table..f.table + |table|] == table
    ensures HeadersStored(data, f)
  {
    var rows, size := Rows(f.order, f.wide, f.headers), RowSize(f.wide);
    forall i | 0 <= i < |rows|
      ensures |rows[i]| == size
    {
      RowStored(f.order, f.wide, f.headers[i]);
    }
    forall i | 0 <= i < |rows|
      ensures HeaderStored(data, f.order, f.wide, EntryAt(f.table, f.stride, i), f.headers[i])
    {
      RowStored(f.order, f.wide, f.headers[i]);
      RowStoredAt(data, f, rows, size, i);
    }
  }

  /** Every table that fits its fields has a laid-out file. */
  lemma WriteIsLaidOut(wide: bool, order: Order, namesIndex: nat, headers: seq<SectionHeader>, body: seq<Byte>)
    requires namesIndex < |headers| < Pow256(2)
    requires forall i :: 0 <= i < |headers| ==> InRange(wide, headers[i])
    ensures var f := Image(wide, order, namesIndex, headers); LaidOut(Write(f, body), f)
  {
    var f := Image(wide, order, namesIndex, headers);
    WritePlaces(f, body);
    var data := Write(f, body);
    HeaderStoredFirst(data, f);
    HeaderStarts(f);
    IdentifiedFirst(data, f);
    RowsStored(data, f);
  }

  lemma WritePlaces(f: File, body: seq<Byte>)
    ensures var at, table := |PackHeader(f)|, PackTable(f.order, f.wide, f.headers);
            PackHeader(f) <= Write(f, body)
            && at + |table| <= |Write(f, body)| && Write(f, body)[at..at + |table|] == table
  {
  }

  /** The reader inverts the writer, provided the body holds the names. */
  lemma ReaderInvertsWriter(wide: bool, order: Order, namesIndex: nat, headers: seq<SectionHeader>, body: seq<Byte>,
                            names: seq<seq<Byte>>)
    requires namesIndex < |headers| < Pow256(2)
    requires forall i :: 0 <= i < |headers| ==> InRange(wide, headers[i])
    requires NamesStored(Write(Image(wide, order, namesIndex, headers), body), headers[namesIndex], headers, names)
    ensures ParseElfSections(Write(Image(wide, order, namesIndex, headers), body)) == Ok(Described(headers, names))
  {
    var f := Image(wide, order, namesIndex, headers);
    WriteIsLaidOut(wide, order, namesIndex, headers, body);
    ParsesEveryLaidOutFile(Write(f, body), f, names);
  }
}
