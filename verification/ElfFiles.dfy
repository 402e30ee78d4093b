/**
 What the section table reader returns for whole files: it accepts exactly the files laid out by the
 gABI, returns exactly the sections they describe, and inverts a writer of such files.
 */
module ElfFiles {
  import opened Common
  import opened ElfSections

  // ----- Names -------------------------------------------------------------------

  lemma {:induction false} NameEndExactly(names: seq<Byte>, from: nat, end: nat)
    requires from <= end < |names| && names[end] == 0
    requires forall k :: from <= k < end ==> names[k] != 0
    ensures NameEnd(names, from) == end
    decreases end - from
  {
    if from < end {
      NameEndExactly(names, from + 1, end);
    }
  }

  lemma {:induction false} NameEndIsFirst(names: seq<Byte>, from: nat)
    requires from <= |names|
    ensures var end := NameEnd(names, from);
      && from <= end <= |names| && (end < |names| ==> names[end] == 0)
      && forall k :: from <= k < end ==> names[k] != 0
    decreases |names| - from
  {
    if from < |names| && names[from] != 0 {
      NameEndIsFirst(names, from + 1);
    }
  }

  /** A name runs up to the next zero byte or the end of the table, and is empty from beyond the end. */
  lemma SectionNameExactly(names: seq<Byte>, from: nat)
    ensures from > |names| ==> SectionName(names, from) == []
    ensures from <= |names| ==>
      && var end := from + |SectionName(names, from)|;
      && end <= |names| && SectionName(names, from) == names[from..end] && (end < |names| ==> names[end] == 0)
      && forall k :: from <= k < end ==> names[k] != 0
  {
    if from <= |names| {
      NameEndIsFirst(names, from);
    }
  }

  lemma NamePlaced(data: seq<Byte>, table: SectionHeader, from: nat, name: seq<Byte>)
    requires NameStored(data, table, from, name)
    ensures var names := data[table.offset..table.offset + table.size];
      names[from..from + |name|] == name && names[from + |name|] == 0
  {
    SliceOfSlice(data, table.offset, table.size, from, |name|);
  }

  lemma NameRead(names: seq<Byte>, from: nat, name: seq<Byte>)
    requires from + |name| < |names| && names[from..from + |name|] == name
    requires 0 !in name && names[from + |name|] == 0
    ensures SectionName(names, from) == name
  {
    forall k | from <= k < from + |name|
      ensures names[k] != 0
    {
      assert name[k - from] == names[k];
      assert name[k - from] in name;
    }
    NameEndExactly(names, from, from + |name|);
  }

  /** The reader returns a stored name without its terminator. */
  lemma NameReadsBack(data: seq<Byte>, table: SectionHeader, from: nat, name: seq<Byte>)
    requires NameStored(data, table, from, name)
    ensures SectionName(Slice(data, table.offset, table.offset + table.size), from) == name
  {
    NamePlaced(data, table, from, name);
    NameRead(data[table.offset..table.offset + table.size], from, name);
  }

  // ----- Reading -----------------------------------------------------------------

  /** The file begins with the bytes of the magic number. */
  predicate HasMagic(data: seq<Byte>) {
    |data| >= 4 && data[0] == 0x7f && data[1] == 0x45 && data[2] == 0x4c && data[3] == 0x46
  }

  lemma MagicExactly(data: seq<Byte>)
    ensures Slice(data, 0, 4) == MAGIC <==> HasMagic(data)
  {
    var m := Slice(data, 0, 4);
    if |data| >= 4 {
      assert m[0] == data[0] && m[1] == data[1] && m[2] == data[2] && m[3] == data[3];
    }
  }

  /** Which files are refused before their header is read, and how; data that ends too early is not read on. */
  lemma RefusalsExactly(data: seq<Byte>)
    ensures ParseElfSections(data) == NotElf <==> !HasMagic(data)
    ensures ParseElfSections(data) == Unsupported <==>
      HasMagic(data) && |data| >= 6 && !(1 <= data[4] <= 2 && 1 <= data[5] <= 2)
    ensures HasMagic(data) && |data| < 6 ==> ParseElfSections(data) == Truncated
  {
    MagicExactly(data);
  }

  lemma IdentifyExactly(data: seq<Byte>, f: File)
    ensures Identified(data, f) <==> Identify(data) == Ok(Identity(f.wide, f.order))
  {
    if |data| >= 6 {
      var m := Slice(data, 0, 4);
      assert m[0] == data[0] && m[1] == data[1] && m[2] == data[2] && m[3] == data[3];
    }
  }

  /** An identified file is read with its class's formats and its byte order. */
  lemma ReadsIdentified(data: seq<Byte>, f: File)
    requires Identified(data, f)
    ensures ParseElfSections(data) == ReadFile(f.order, HeaderFormat(f.wide), SectionFormat(f.wide), data)
  {
    IdentifyExactly(data, f);
  }

  lemma ReadFileGives(order: Order, headerFormat: seq<nat>, sectionFormat: seq<nat>, data: seq<Byte>,
                      header: seq<nat>, rows: seq<seq<nat>>)
    requires |headerFormat| == 14 && |sectionFormat| == 10
    requires Unpack(order, headerFormat, data, 0) == Some(header) && header[13] < header[12]
    requires UnpackTable(order, sectionFormat, data, header[6], header[11], header[12]) == Some(rows)
    ensures ReadFile(order, headerFormat, sectionFormat, data) == Ok(Assemble(data, rows, header[13]))
  {
  }

  lemma ReadFileNeeds(order: Order, headerFormat: seq<nat>, sectionFormat: seq<nat>, data: seq<Byte>)
    returns (header: seq<nat>, rows: seq<seq<nat>>)
    requires |headerFormat| == 14 && |sectionFormat| == 10
    requires ReadFile(order, headerFormat, sectionFormat, data).Ok?
    ensures Unpack(order, headerFormat, data, 0) == Some(header) && header[13] < header[12]
    ensures UnpackTable(order, sectionFormat, data, header[6], header[11], header[12]) == Some(rows)
    ensures ReadFile(order, headerFormat, sectionFormat, data) == Ok(Assemble(data, rows, header[13]))
  {
    header := Unpack(order, headerFormat, data, 0).value;
    rows := UnpackTable(order, sectionFormat, data, header[6], header[11], header[12]).value;
  }

  /** What the reader makes of a laid-out file. */
  lemma ReadsLaidOut(data: seq<Byte>, f: File) returns (rows: seq<seq<nat>>)
    requires LaidOut(data, f)
    ensures RowsMatch(rows, f.headers)
    ensures ParseElfSections(data) == Ok(Assemble(data, rows, f.namesIndex))
  {
    ReadsIdentified(data, f);
    HeaderExactly(data, f);
    TableExactly(data, f);
    var headerFormat, sectionFormat := HeaderFormat(f.wide), SectionFormat(f.wide);
    var header := Unpack(f.order, headerFormat, data, 0).value;
    rows := UnpackTable(f.order, sectionFormat, data, f.table, f.stride, |f.headers|).value;
    ReadFileGives(f.order, headerFormat, sectionFormat, data, header, rows);
  }

  /** The sections a file describes, once its names are known. */
  function Described(headers: seq<SectionHeader>, names: seq<seq<Byte>>): seq<Section>
    requires |names| == |headers|
  {
    seq(|names|, i requires 0 <= i < |names| =>
      Section(names[i], headers[i].address, headers[i].size, headers[i].kind, headers[i].flags))
  }

  ghost predicate NamesStored(data: seq<Byte>, table: SectionHeader, headers: seq<SectionHeader>, names: seq<seq<Byte>>) {
    && |names| == |headers|
    && forall i :: 0 <= i < |names| ==> NameStored(data, table, headers[i].name, names[i])
  }

  lemma AssembleExactly(data: seq<Byte>, rows: seq<seq<nat>>, k: nat, headers: seq<SectionHeader>, names: seq<seq<Byte>>)
    requires RowsMatch(rows, headers) && k < |headers| && NamesStored(data, headers[k], headers, names)
    ensures Assemble(data, rows, k) == Described(headers, names)
  {
    assert RowMatches(rows[k], headers[k]);
    forall i | 0 <= i < |rows|
      ensures Assemble(data, rows, k)[i] == Described(headers, names)[i]
    {
      assert RowMatches(rows[i], headers[i]);
      NameReadsBack(data, headers[k], headers[i].name, names[i]);
    }
  }

  /** For every laid-out file, in either class and byte order, the reader returns exactly its sections. */
  lemma ParsesEveryLaidOutFile(data: seq<Byte>, f: File, names: seq<seq<Byte>>)
    requires LaidOut(data, f) && NamesStored(data, f.headers[f.namesIndex], f.headers, names)
    ensures ParseElfSections(data) == Ok(Described(f.headers, names))
  {
    var rows := ReadsLaidOut(data, f);
    AssembleExactly(data, rows, f.namesIndex, f.headers, names);
  }

  function HeaderOf(row: seq<nat>): (h: SectionHeader)
    requires |row| == 10
    ensures RowMatches(row, h)
  {
    SectionHeader(row[0], row[1], row[2], row[3], row[4], row[5])
  }

  /** A list of sections with the address, size, type and flags of some section headers. */
  ghost predicate Lists(sections: seq<Section>, headers: seq<SectionHeader>) {
    && |sections| == |headers|
    && forall i :: 0 <= i < |sections| ==>
         && sections[i].address == headers[i].address && sections[i].size == headers[i].size
         && sections[i].sectionType == headers[i].kind && sections[i].flags == headers[i].flags
  }

  function HeadersOf(rows: seq<seq<nat>>): (headers: seq<SectionHeader>)
    requires forall i :: 0 <= i < |rows| ==> |rows[i]| == 10
    ensures RowsMatch(rows, headers)
  {
    seq(|rows|, i requires 0 <= i < |rows| => HeaderOf(rows[i]))
  }

  lemma AssembleLists(data: seq<Byte>, rows: seq<seq<nat>>, k: nat)
    requires k < |rows| && forall i :: 0 <= i < |rows| ==> |rows[i]| == 10
    ensures Lists(Assemble(data, rows, k), HeadersOf(rows))
  {
    forall i | 0 <= i < |rows|
      ensures RowMatches(rows[i], HeadersOf(rows)[i])
    {
    }
  }

  /** What the reader found in an accepted file. */
  lemma AcceptedReads(data: seq<Byte>) returns (id: Identity, header: seq<nat>, rows: seq<seq<nat>>)
    requires ParseElfSections(data).Ok?
    ensures Identify(data) == Ok(id)
    ensures Unpack(id.order, HeaderFormat(id.wide), data, 0) == Some(header) && header[13] < header[12]
    ensures UnpackTable(id.order, SectionFormat(id.wide), data, header[6], header[11], header[12]) == Some(rows)
    ensures ParseElfSections(data) == Ok(Assemble(data, rows, header[13]))
  {
    id := Identify(data).value;
    header, rows := ReadFileNeeds(id.order, HeaderFormat(id.wide), SectionFormat(id.wide), data);
  }

  /** An accepted file is laid out, and the list returned is that of its section headers. */
  lemma AcceptedIsLaidOut(data: seq<Byte>) returns (f: File)
    requires ParseElfSections(data).Ok?
    ensures LaidOut(data, f) && Lists(ParseElfSections(data).value, f.headers)
  {
    var id, header, rows := AcceptedReads(data);
    f := File(id.wide, id.order, header[6], header[11], header[13], HeadersOf(rows));
    IdentifyExactly(data, f);
    HeaderExactly(data, f);
    TableExactly(data, f);
    AssembleLists(data, rows, header[13]);
  }

  /** The reader accepts exactly the laid-out files. */
  lemma AcceptsExactly(data: seq<Byte>)
    ensures ParseElfSections(data).Ok? <==> exists f :: LaidOut(data, f)
  {
    if ParseElfSections(data).Ok? {
      var f := AcceptedIsLaidOut(data);
    }
    forall f | LaidOut(data, f)
      ensures ParseElfSections(data).Ok?
    {
      var rows := ReadsLaidOut(data, f);
    }
  }

  lemma RefusesTable(order: Order, headerFormat: seq<nat>, sectionFormat: seq<nat>, data: seq<Byte>, header: seq<nat>)
    requires |headerFormat| == 14 && |sectionFormat| == 10 && Unpack(order, headerFormat, data, 0) == Some(header)
    ensures ReadFile(order, headerFormat, sectionFormat, data) == NoTable <==> header[13] >= header[12]
  {
  }

  /** A complete header is refused for its table exactly if it counts no sections or misplaces the names. */
  lemma NoTableExactly(data: seq<Byte>, f: File)
    requires Identified(data, f) && TableStored(data, f)
    ensures ParseElfSections(data) == NoTable <==> f.namesIndex >= |f.headers|
  {
    ReadsIdentified(data, f);
    HeaderExactly(data, f);
    var headerFormat, sectionFormat := HeaderFormat(f.wide), SectionFormat(f.wide);
    RefusesTable(f.order, headerFormat, sectionFormat, data, Unpack(f.order, headerFormat, data, 0).value);
  }
}
