/**
 The section table reader of tools/verify_resources.py, against the file layout of the System V gABI,
 chapter 4, "Object Files". The reader unpacks whole structures by format; the gABI fixes the place of
 every field. Names are the bytes before text decoding.
 */
module ElfSections {
  import opened Common

  datatype Section = Section(name: seq<Byte>, address: nat, size: nat, sectionType: nat, flags: nat) {
    /** Flag value 2 marks a section that occupies memory at run time. */
    predicate Alloc(): (r: bool)
      ensures r <==> flags % 4 == 2 || flags % 4 == 3
    {
      flags / 2 % 2 == 1
    }

    function End(): nat {
      address + size
    }
  }

  // ----- Integers in files -------------------------------------------------------

  datatype Order = Little | Big

  function Pow256(width: nat): (p: nat)
    ensures p >= 1
  {
    if width == 0 then 1 else 256 * Pow256(width - 1)
  }

  function DecodeLittle(bytes: seq<Byte>): nat {
    if bytes == [] then 0 else bytes[0] + 256 * DecodeLittle(bytes[1..])
  }

  function DecodeBig(bytes: seq<Byte>): nat {
    if bytes == [] then 0 else 256 * DecodeBig(bytes[..|bytes| - 1]) + bytes[|bytes| - 1]
  }

  function EncodeLittle(n: nat, width: nat): (bytes: seq<Byte>)
    ensures |bytes| == width
  {
    if width == 0 then [] else [n % 256] + EncodeLittle(n / 256, width - 1)
  }

  function EncodeBig(n: nat, width: nat): (bytes: seq<Byte>)
    ensures |bytes| == width
  {
    if width == 0 then [] else EncodeBig(n / 256, width - 1) + [n % 256]
  }

  function Decode(order: Order, bytes: seq<Byte>): nat {
    if order.Little? then DecodeLittle(bytes) else DecodeBig(bytes)
  }

  function Encode(order: Order, n: nat, width: nat): (bytes: seq<Byte>)
    ensures |bytes| == width
  {
    if order.Little? then EncodeLittle(n, width) else EncodeBig(n, width)
  }

  lemma Shrinks(n: nat, width: nat)
    requires width > 0 && n < Pow256(width)
    ensures n / 256 < Pow256(width - 1) && n == 256 * (n / 256) + n % 256
  {
  }

  lemma {:induction false} LittleReadsBack(n: nat, width: nat)
    requires n < Pow256(width)
    ensures DecodeLittle(EncodeLittle(n, width)) == n
  {
    if width > 0 {
      Shrinks(n, width);
      LittleReadsBack(n / 256, width - 1);
      assert EncodeLittle(n, width)[1..] == EncodeLittle(n / 256, width - 1);
    }
  }

  lemma {:induction false} BigReadsBack(n: nat, width: nat)
    requires n < Pow256(width)
    ensures DecodeBig(EncodeBig(n, width)) == n
  {
    if width > 0 {
      Shrinks(n, width);
      BigReadsBack(n / 256, width - 1);
      assert EncodeBig(n, width)[..width - 1] == EncodeBig(n / 256, width - 1);
    }
  }

  lemma {:induction false} LittleWritesBack(bytes: seq<Byte>)
    ensures DecodeLittle(bytes) < Pow256(|bytes|)
    ensures EncodeLittle(DecodeLittle(bytes), |bytes|) == bytes
  {
    if bytes != [] {
      LittleWritesBack(bytes[1..]);
      assert DecodeLittle(bytes) / 256 == DecodeLittle(bytes[1..]);
    }
  }

  lemma {:induction false} BigWritesBack(bytes: seq<Byte>)
    ensures DecodeBig(bytes) < Pow256(|bytes|)
    ensures EncodeBig(DecodeBig(bytes), |bytes|) == bytes
  {
    if bytes != [] {
      BigWritesBack(bytes[..|bytes| - 1]);
      assert DecodeBig(bytes) / 256 == DecodeBig(bytes[..|bytes| - 1]);
    }
  }

  lemma WritesBack(order: Order, bytes: seq<Byte>)
    ensures Decode(order, bytes) < Pow256(|bytes|)
    ensures Encode(order, Decode(order, bytes), |bytes|) == bytes
  {
    if order.Little? {
      LittleWritesBack(bytes);
    } else {
      BigWritesBack(bytes);
    }
  }

  lemma ReadsBack(order: Order, n: nat, width: nat)
    requires n < Pow256(width)
    ensures Decode(order, Encode(order, n, width)) == n
  {
    if order.Little? {
      LittleReadsBack(n, width);
    } else {
      BigReadsBack(n, width);
    }
  }

  /** In little-endian order each further byte weighs 256 times as much as the one before it. */
  lemma {:induction false} LittleWeights(bytes: seq<Byte>, b: Byte)
    ensures Decode(Little, bytes + [b]) == Decode(Little, bytes) + Pow256(|bytes|) * b
  {
    if bytes == [] {
      assert [] + [b] == [b] && [b][1..] == [];
    } else {
      LittleWeights(bytes[1..], b);
      assert (bytes + [b])[1..] == bytes[1..] + [b];
      var p := Pow256(|bytes| - 1);
      assert 256 * (p * b) == (256 * p) * b;
    }
  }

  /** In big-endian order the first byte weighs most. */
  lemma {:induction false} BigWeights(b: Byte, bytes: seq<Byte>)
    ensures Decode(Big, [b] + bytes) == Pow256(|bytes|) * b + Decode(Big, bytes)
  {
    if bytes == [] {
      assert [b] + [] == [b] && [b][..0] == [];
    } else {
      var n := |bytes| - 1;
      BigWeights(b, bytes[..n]);
      assert ([b] + bytes)[..n + 1] == [b] + bytes[..n];
      var p := Pow256(n);
      assert 256 * (p * b) == (256 * p) * b;
    }
  }

  /** The two orders of a 16-bit field. */
  lemma HalfWordOrders(a: Byte, b: Byte)
    ensures Decode(Little, [a, b]) == a + 256 * b
    ensures Decode(Big, [a, b]) == 256 * a + b
  {
    LittleWeights([], a);
    LittleWeights([a], b);
    BigWeights(b, []);
    BigWeights(a, [b]);
    assert [] + [a] == [a] && [a] + [b] == [a, b] && [b] + [] == [b];
  }

  // ----- The reader --------------------------------------------------------------

  /** `Truncated` stands for the exceptions raised when the data ends too early; the others are refusals. */
  datatype Outcome<+T> = Ok(value: T) | NotElf | Unsupported | NoTable | Truncated

  /** A half-open slice, cut off at the end of the data. */
  function Slice(data: seq<Byte>, low: nat, high: nat): seq<Byte> {
    var from := Min(low, |data|);
    data[from..Max(from, Min(high, |data|))]
  }

  lemma SliceOfSlice(data: seq<Byte>, at: nat, length: nat, from: nat, size: nat)
    requires at + length <= |data| && from + size <= length
    ensures data[at..at + length][from..from + size] == data[at + from..at + from + size]
  {
    var whole := data[at..at + length];
    var part := whole[from..from + size];
    forall k | 0 <= k < size
      ensures part[k] == data[at + from + k]
    {
      assert part[k] == whole[from + k];
    }
  }

  /** The widths of a packed structure, in order; the identification counts as one field of 16. */
  const HEADER32: seq<nat> := [16, 2, 2, 4, 4, 4, 4, 4, 2, 2, 2, 2, 2, 2]
  const HEADER64: seq<nat> := [16, 2, 2, 4, 8, 8, 8, 4, 2, 2, 2, 2, 2, 2]
  const SECTION32: seq<nat> := [4, 4, 4, 4, 4, 4, 4, 4, 4, 4]
  const SECTION64: seq<nat> := [4, 4, 8, 8, 8, 8, 4, 4, 8, 8]

  function HeaderFormat(wide: bool): seq<nat> {
    if wide then HEADER64 else HEADER32
  }

  function SectionFormat(wide: bool): seq<nat> {
    if wide then SECTION64 else SECTION32
  }

  function OffsetOf(format: seq<nat>, k: nat): nat
    requires k <= |format|
  {
    if k == 0 then 0 else OffsetOf(format, k - 1) + format[k - 1]
  }

  function Field(order: Order, format: seq<nat>, data: seq<Byte>, offset: nat, k: nat): nat
    requires k < |format|
  {
    var at := offset + OffsetOf(format, k);
    Decode(order, Slice(data, at, at + format[k]))
  }

  /** All fields of a structure; nothing if the data ends inside it. */
  function Unpack(order: Order, format: seq<nat>, data: seq<Byte>, offset: nat): (fields: Option<seq<nat>>)
    ensures fields.Some? <==> offset + OffsetOf(format, |format|) <= |data|
    ensures fields.Some? ==> |fields.value| == |format|
  {
    if offset + OffsetOf(format, |format|) > |data| then None
    else Some(seq(|format|, k requires 0 <= k < |format| => Field(order, format, data, offset, k)))
  }

  function EntryAt(table: nat, stride: nat, i: nat): nat {
    table + i * stride
  }

  /** The first `count` entries of a table. */
  function UnpackTable(order: Order, format: seq<nat>, data: seq<Byte>, table: nat, stride: nat, count: nat)
    : (rows: Option<seq<seq<nat>>>)
    ensures rows.Some? ==> |rows.value| == count && forall i :: 0 <= i < count ==> |rows.value[i]| == |format|
  {
    if count == 0 then Some([])
    else
      var rows := UnpackTable(order, format, data, table, stride, count - 1);
      var row := Unpack(order, format, data, EntryAt(table, stride, count - 1));
      if rows.None? || row.None? then None else Some(rows.value + [row.value])
  }

  /** The place of the next zero byte, or the end. */
  function NameEnd(names: seq<Byte>, from: nat): nat
    decreases |names| - from
  {
    if from >= |names| then |names| else if names[from] == 0 then from else NameEnd(names, from + 1)
  }

  function SectionName(names: seq<Byte>, from: nat): seq<Byte> {
    Slice(names, from, NameEnd(names, from))
  }

  /** The section list, with names taken from the table that one of the rows describes. */
  function Assemble(data: seq<Byte>, rows: seq<seq<nat>>, namesIndex: nat): seq<Section>
    requires namesIndex < |rows| && forall i :: 0 <= i < |rows| ==> |rows[i]| == 10
  {
    var table := rows[namesIndex];
    var names := Slice(data, table[4], table[4] + table[5]);
    seq(|rows|, i requires 0 <= i < |rows| =>
      Section(SectionName(names, rows[i][0]), rows[i][3], rows[i][5], rows[i][1], rows[i][2]))
  }

  function ReadSections(order: Order, format: seq<nat>, data: seq<Byte>, header: seq<nat>): Outcome<seq<Section>>
    requires |format| == 10 && |header| == 14
  {
    if header[12] == 0 || header[13] >= header[12] then NoTable
    else
      var rows := UnpackTable(order, format, data, header[6], header[11], header[12]);
      if rows.None? then Truncated else Ok(Assemble(data, rows.value, header[13]))
  }

  function ReadFile(order: Order, headerFormat: seq<nat>, sectionFormat: seq<nat>, data: seq<Byte>)
    : Outcome<seq<Section>>
    requires |headerFormat| == 14 && |sectionFormat| == 10
  {
    var header := Unpack(order, headerFormat, data, 0);
    if header.None? then Truncated else ReadSections(order, sectionFormat, data, header.value)
  }

  const MAGIC: seq<Byte> := [0x7f, 0x45, 0x4c, 0x46]

  datatype Identity = Identity(wide: bool, order: Order)

  function Identify(data: seq<Byte>): Outcome<Identity> {
    if Slice(data, 0, 4) != MAGIC then NotElf
    else if |data| < 6 then Truncated
    else if data[5] !in {1, 2} || data[4] !in {1, 2} then Unsupported
    else Ok(Identity(data[4] == 2, if data[5] == 1 then Little else Big))
  }

  function ParseElfSections(data: seq<Byte>): Outcome<seq<Section>> {
    match Identify(data)
    case Ok(id) => ReadFile(id.order, HeaderFormat(id.wide), SectionFormat(id.wide), data)
    case NotElf => NotElf
    case Unsupported => Unsupported
    case NoTable => NoTable
    case Truncated => Truncated
  }

  // ----- The gABI's layout -------------------------------------------------------

  /** An integer stored at a place in a file. */
  ghost predicate Stored(data: seq<Byte>, order: Order, at: nat, width: nat, n: nat) {
    n < Pow256(width) && at + width <= |data| && data[at..at + width] == Encode(order, n, width)
  }

  datatype SectionHeader = SectionHeader(name: nat, kind: nat, flags: nat, address: nat, offset: nat, size: nat)

  datatype File = File(wide: bool, order: Order, table: nat, stride: nat, namesIndex: nat, headers: seq<SectionHeader>)

  /** Elf32_Shdr and Elf64_Shdr. */
  ghost predicate HeaderStored(data: seq<Byte>, order: Order, wide: bool, at: nat, h: SectionHeader) {
    && Stored(data, order, at, 4, h.name)
    && Stored(data, order, at + 4, 4, h.kind)
    && if wide then
         && at + 64 <= |data|
         && Stored(data, order, at + 8, 8, h.flags)
         && Stored(data, order, at + 16, 8, h.address)
         && Stored(data, order, at + 24, 8, h.offset)
         && Stored(data, order, at + 32, 8, h.size)
       else
         && at + 40 <= |data|
         && Stored(data, order, at + 8, 4, h.flags)
         && Stored(data, order, at + 12, 4, h.address)
         && Stored(data, order, at + 16, 4, h.offset)
         && Stored(data, order, at + 20, 4, h.size)
  }

  /** Elf32_Ehdr and Elf64_Ehdr: the fields that locate the section table. */
  ghost predicate TableStored(data: seq<Byte>, f: File) {
    if f.wide then
      && 64 <= |data|
      && Stored(data, f.order, 40, 8, f.table)
      && Stored(data, f.order, 58, 2, f.stride)
      && Stored(data, f.order, 60, 2, |f.headers|)
      && Stored(data, f.order, 62, 2, f.namesIndex)
    else
      && 52 <= |data|
      && Stored(data, f.order, 32, 4, f.table)
      && Stored(data, f.order, 46, 2, f.stride)
      && Stored(data, f.order, 48, 2, |f.headers|)
      && Stored(data, f.order, 50, 2, f.namesIndex)
  }

  /** The section table: one header every `stride` bytes. */
  ghost predicate HeadersStored(data: seq<Byte>, f: File) {
    forall i :: 0 <= i < |f.headers| ==> HeaderStored(data, f.order, f.wide, EntryAt(f.table, f.stride, i), f.headers[i])
  }

  /** The identification bytes: magic number, class and data encoding. */
  ghost predicate Identified(data: seq<Byte>, f: File) {
    && |data| >= 6
    && data[0] == 0x7f && data[1] == 0x45 && data[2] == 0x4c && data[3] == 0x46
    && data[4] == (if f.wide then 2 else 1)
    && data[5] == (if f.order.Little? then 1 else 2)
  }

  /** A file laid out by the gABI, with a section table and a section name table. */
  ghost predicate LaidOut(data: seq<Byte>, f: File) {
    && Identified(data, f)
    && TableStored(data, f)
    && f.namesIndex < |f.headers|
    && HeadersStored(data, f)
  }

  /** A zero-terminated name inside the name table. */
  ghost predicate NameStored(data: seq<Byte>, names: SectionHeader, from: nat, name: seq<Byte>) {
    var at := names.offset + from;
    && from + |name| < names.size
    && names.offset + names.size <= |data|
    && data[at..at + |name|] == name
    && 0 !in name
    && data[at + |name|] == 0
  }

  // ----- Formats and layout agree ------------------------------------------------

  /** A stored integer is what decoding its bytes gives, and every slice stores what it decodes to. */
  lemma StoredExactly(data: seq<Byte>, order: Order, at: nat, width: nat, n: nat)
    requires at + width <= |data|
    ensures Stored(data, order, at, width, n) <==> Decode(order, Slice(data, at, at + width)) == n
  {
    var bytes := Slice(data, at, at + width);
    assert bytes == data[at..at + width];
    WritesBack(order, bytes);
    if n < Pow256(width) {
      ReadsBack(order, n, width);
    }
  }

  /** A field of an unpacked structure is what decoding the bytes at its offset gives. */
  lemma UnpackAt(data: seq<Byte>, order: Order, format: seq<nat>, offset: nat, k: nat, at: nat, width: nat)
    requires k < |format| && at == OffsetOf(format, k) && width == format[k]
    requires Unpack(order, format, data, offset).Some?
    ensures Unpack(order, format, data, offset).value[k] == Decode(order, Slice(data, offset + at, offset + at + width))
  {
  }

  lemma FieldExactly(data: seq<Byte>, order: Order, format: seq<nat>, offset: nat, k: nat, at: nat, width: nat, n: nat)
    requires k < |format| && at == OffsetOf(format, k) && width == format[k]
    requires offset + at + width <= |data| && Unpack(order, format, data, offset).Some?
    ensures Stored(data, order, offset + at, width, n) <==> Unpack(order, format, data, offset).value[k] == n
  {
    UnpackAt(data, order, format, offset, k, at, width);
    StoredExactly(data, order, offset + at, width, n);
  }

  lemma HeaderOffsets()
    ensures OffsetOf(HEADER64, 6) == 40 && OffsetOf(HEADER64, 11) == 58
    ensures OffsetOf(HEADER64, 12) == 60 && OffsetOf(HEADER64, 13) == 62 && OffsetOf(HEADER64, 14) == 64
    ensures OffsetOf(HEADER32, 6) == 32 && OffsetOf(HEADER32, 11) == 46
    ensures OffsetOf(HEADER32, 12) == 48 && OffsetOf(HEADER32, 13) == 50 && OffsetOf(HEADER32, 14) == 52
  {
  }

  lemma SectionOffsets()
    ensures OffsetOf(SECTION64, 0) == 0 && OffsetOf(SECTION64, 1) == 4 && OffsetOf(SECTION64, 2) == 8
    ensures OffsetOf(SECTION64, 3) == 16 && OffsetOf(SECTION64, 4) == 24 && OffsetOf(SECTION64, 5) == 32
    ensures OffsetOf(SECTION64, 10) == 64
    ensures OffsetOf(SECTION32, 0) == 0 && OffsetOf(SECTION32, 1) == 4 && OffsetOf(SECTION32, 2) == 8
    ensures OffsetOf(SECTION32, 3) == 12 && OffsetOf(SECTION32, 4) == 16 && OffsetOf(SECTION32, 5) == 20
    ensures OffsetOf(SECTION32, 10) == 40
  {
  }

  /** The fields the reader takes from an unpacked section header. */
  ghost predicate RowMatches(row: seq<nat>, h: SectionHeader) {
    && |row| == 10
    && row[0] == h.name && row[1] == h.kind && row[2] == h.flags
    && row[3] == h.address && row[4] == h.offset && row[5] == h.size
  }

  lemma NarrowRowFirst(data: seq<Byte>, order: Order, at: nat, h: SectionHeader)
    requires at + 40 <= |data|
    ensures Unpack(order, SECTION32, data, at).Some?
    ensures Stored(data, order, at, 4, h.name) <==> Unpack(order, SECTION32, data, at).value[0] == h.name
    ensures Stored(data, order, at + 4, 4, h.kind) <==> Unpack(order, SECTION32, data, at).value[1] == h.kind
    ensures Stored(data, order, at + 8, 4, h.flags) <==> Unpack(order, SECTION32, data, at).value[2] == h.flags
  {
    SectionOffsets();
    FieldExactly(data, order, SECTION32, at, 0, 0, 4, h.name);
    FieldExactly(data, order, SECTION32, at, 1, 4, 4, h.kind);
    FieldExactly(data, order, SECTION32, at, 2, 8, 4, h.flags);
  }

  lemma NarrowRowLast(data: seq<Byte>, order: Order, at: nat, h: SectionHeader)
    requires at + 40 <= |data|
    ensures Unpack(order, SECTION32, data, at).Some?
    ensures Stored(data, order, at + 12, 4, h.address) <==> Unpack(order, SECTION32, data, at).value[3] == h.address
    ensures Stored(data, order, at + 16, 4, h.offset) <==> Unpack(order, SECTION32, data, at).value[4] == h.offset
    ensures Stored(data, order, at + 20, 4, h.size) <==> Unpack(order, SECTION32, data, at).value[5] == h.size
  {
    SectionOffsets();
    FieldExactly(data, order, SECTION32, at, 3, 12, 4, h.address);
    FieldExactly(data, order, SECTION32, at, 4, 16, 4, h.offset);
    FieldExactly(data, order, SECTION32, at, 5, 20, 4, h.size);
  }

  lemma WideRowFirst(data: seq<Byte>, order: Order, at: nat, h: SectionHeader)
    requires at + 64 <= |data|
    ensures Unpack(order, SECTION64, data, at).Some?
    ensures Stored(data, order, at, 4, h.name) <==> Unpack(order, SECTION64, data, at).value[0] == h.name
    ensures Stored(data, order, at + 4, 4, h.kind) <==> Unpack(order, SECTION64, data, at).value[1] == h.kind
    ensures Stored(data, order, at + 8, 8, h.flags) <==> Unpack(order, SECTION64, data, at).value[2] == h.flags
  {
    SectionOffsets();
    FieldExactly(data, order, SECTION64, at, 0, 0, 4, h.name);
    FieldExactly(data, order, SECTION64, at, 1, 4, 4, h.kind);
    FieldExactly(data, order, SECTION64, at, 2, 8, 8, h.flags);
  }

  lemma WideRowLast(data: seq<Byte>, order: Order, at: nat, h: SectionHeader)
    requires at + 64 <= |data|
    ensures Unpack(order, SECTION64, data, at).Some?
    ensures Stored(data, order, at + 16, 8, h.address) <==> Unpack(order, SECTION64, data, at).value[3] == h.address
    ensures Stored(data, order, at + 24, 8, h.offset) <==> Unpack(order, SECTION64, data, at).value[4] == h.offset
    ensures Stored(data, order, at + 32, 8, h.size) <==> Unpack(order, SECTION64, data, at).value[5] == h.size
  {
    SectionOffsets();
    FieldExactly(data, order, SECTION64, at, 3, 16, 8, h.address);
    FieldExactly(data, order, SECTION64, at, 4, 24, 8, h.offset);
    FieldExactly(data, order, SECTION64, at, 5, 32, 8, h.size);
  }

  /** Unpacking an entry reads the section header the gABI places there, and nothing else fits it. */
  lemma RowExactly(data: seq<Byte>, order: Order, wide: bool, at: nat, h: SectionHeader)
    ensures HeaderStored(data, order, wide, at, h)
       <==> var row := Unpack(order, SectionFormat(wide), data, at);
            row.Some? && RowMatches(row.value, h)
  {
    if wide {
      if at + 64 <= |data| {
        WideRowFirst(data, order, at, h);
        WideRowLast(data, order, at, h);
      } else {
        SectionOffsets();
      }
    } else if at + 40 <= |data| {
      NarrowRowFirst(data, order, at, h);
      NarrowRowLast(data, order, at, h);
    } else {
      SectionOffsets();
    }
  }

  ghost predicate HeaderMatches(header: seq<nat>, f: File) {
    && |header| == 14
    && header[6] == f.table && header[11] == f.stride
    && header[12] == |f.headers| && header[13] == f.namesIndex
  }

  lemma NarrowHeader(data: seq<Byte>, f: File)
    requires !f.wide && 52 <= |data|
    ensures OffsetOf(HEADER32, 14) == 52
    ensures TableStored(data, f) <==> HeaderMatches(Unpack(f.order, HEADER32, data, 0).value, f)
  {
    HeaderOffsets();
    FieldExactly(data, f.order, HEADER32, 0, 6, 32, 4, f.table);
    FieldExactly(data, f.order, HEADER32, 0, 11, 46, 2, f.stride);
    FieldExactly(data, f.order, HEADER32, 0, 12, 48, 2, |f.headers|);
    FieldExactly(data, f.order, HEADER32, 0, 13, 50, 2, f.namesIndex);
  }

  lemma WideHeader(data: seq<Byte>, f: File)
    requires f.wide && 64 <= |data|
    ensures OffsetOf(HEADER64, 14) == 64
    ensures TableStored(data, f) <==> HeaderMatches(Unpack(f.order, HEADER64, data, 0).value, f)
  {
    HeaderOffsets();
    FieldExactly(data, f.order, HEADER64, 0, 6, 40, 8, f.table);
    FieldExactly(data, f.order, HEADER64, 0, 11, 58, 2, f.stride);
    FieldExactly(data, f.order, HEADER64, 0, 12, 60, 2, |f.headers|);
    FieldExactly(data, f.order, HEADER64, 0, 13, 62, 2, f.namesIndex);
  }

  lemma HeaderExactly(data: seq<Byte>, f: File)
    ensures TableStored(data, f)
       <==> var header := Unpack(f.order, HeaderFormat(f.wide), data, 0);
            header.Some? && HeaderMatches(header.value, f)
  {
    HeaderOffsets();
    if f.wide {
      if 64 <= |data| {
        WideHeader(data, f);
      }
    } else if 52 <= |data| {
      NarrowHeader(data, f);
    }
  }

  // ----- The table ---------------------------------------------------------------

  lemma {:induction false} UnpackTableExactly(
      order: Order, format: seq<nat>, data: seq<Byte>, table: nat, stride: nat, count: nat)
    ensures var rows := UnpackTable(order, format, data, table, stride, count);
            rows.Some? <==> forall i :: 0 <= i < count ==> Unpack(order, format, data, EntryAt(table, stride, i)).Some?
    ensures var rows := UnpackTable(order, format, data, table, stride, count);
            rows.Some? ==> forall i :: 0 <= i < count ==>
              Unpack(order, format, data, EntryAt(table, stride, i)) == Some(rows.value[i])
  {
    if count > 0 {
      UnpackTableExactly(order, format, data, table, stride, count - 1);
    }
  }

  ghost predicate RowsMatch(rows: seq<seq<nat>>, headers: seq<SectionHeader>) {
    |rows| == |headers| && forall i :: 0 <= i < |rows| ==> RowMatches(rows[i], headers[i])
  }

  lemma TableExactly(data: seq<Byte>, f: File)
    ensures HeadersStored(data, f)
       <==> var rows := UnpackTable(f.order, SectionFormat(f.wide), data, f.table, f.stride, |f.headers|);
            rows.Some? && RowsMatch(rows.value, f.headers)
  {
    UnpackTableExactly(f.order, SectionFormat(f.wide), data, f.table, f.stride, |f.headers|);
    forall i | 0 <= i < |f.headers|
      ensures HeaderStored(data, f.order, f.wide, EntryAt(f.table, f.stride, i), f.headers[i])
         <==> var row := Unpack(f.order, SectionFormat(f.wide), data, EntryAt(f.table, f.stride, i));
              row.Some? && RowMatches(row.value, f.headers[i])
    {
      RowExactly(data, f.order, f.wide, EntryAt(f.table, f.stride, i), f.headers[i]);
    }
  }
}
