/**
  A writer of PE32+ headers, field by field in the order and with the widths of the Microsoft PE/COFF
  specification, so that the offsets the parser of `pe_loader_pure.rs` uses are sums of widths. What the
  parser does not read is any bytes of the right length.
*/
module PeWriter {
  import opened Orders
  import opened LittleEndian
  import opened PeLoader

  /** A row of the section table. */
  datatype Row = Row(
    name: seq<byte>,          // 8 bytes
    virtSize: nat,
    virtAddr: nat,
    rawSize: nat,
    rawOffset: nat,
    relocations: seq<byte>,   // 12 bytes: where relocations and line numbers are, and how many
    executable: bool,
    lowFlags: nat,            // the other characteristics, below and above that bit
    highFlags: nat)
  {
    predicate IsEncodable() {
      && |name| == 8 && |relocations| == 12
      && virtSize < 0x1_0000_0000 && virtAddr < 0x1_0000_0000
      && rawSize < 0x1_0000_0000 && rawOffset < 0x1_0000_0000
      && lowFlags < 0x2000_0000 && highFlags < 4
    }

    function Characteristics(): nat {
      lowFlags + (if executable then 0x2000_0000 else 0) + highFlags * 0x4000_0000
    }

    /** At most the virtual size is copied. */
    function Meaning(): Section {
      Section(virtAddr, virtSize, rawOffset, Min(rawSize, virtSize), executable)
    }
  }

  datatype Image = Image(
    dos: seq<byte>,           // 58 bytes
    stub: seq<byte>,
    machine: nat,
    stamps: seq<byte>,        // 12 bytes: time stamp and symbol table
    flags: seq<byte>,         // 2 bytes
    linker: seq<byte>,        // 14 bytes: linker version and sizes
    entry: nat,
    code: seq<byte>,          // 4 bytes
    base: nat,
    versions: seq<byte>,      // 24 bytes: alignments and versions
    size: nat,
    checks: seq<byte>,        // 8 bytes: size of the headers and checksum
    subsystem: nat,
    memory: seq<byte>,        // 38 bytes: characteristics, stack, heap and loader flags
    dirs: seq<DataDir>,
    gap: seq<byte>,           // the rest of the optional header
    rows: seq<Row>,
    content: seq<byte>)
  {
    function NtOffset(): nat { 64 + |stub| }

    function OptionalSize(): nat { 112 + 8 * |dirs| + |gap| }

    predicate HasWidths() {
      && |dos| == 58 && |stamps| == 12 && |flags| == 2 && |linker| == 14 && |code| == 4
      && |versions| == 24 && |checks| == 8 && |memory| == 38
    }

    predicate IsEncodable() {
      && HasWidths() && NtOffset() < 0x1_0000_0000 && OptionalSize() < 0x1_0000
      && machine < 0x1_0000 && entry < 0x1_0000_0000 && base < 0x1_0000_0000_0000_0000
      && size < 0x1_0000_0000 && subsystem < 0x1_0000 && |rows| <= 256
      && (forall i | 0 <= i < |dirs| :: dirs[i].rva < 0x1_0000_0000 && dirs[i].size < 0x1_0000_0000)
      && forall i | 0 <= i < |rows| :: rows[i].IsEncodable()
    }

    /** The directory at `i`; an empty one counts as missing. */
    function Dir(i: nat): Option<DataDir> {
      if i < |dirs| && dirs[i] != DataDir(0, 0) then Some(dirs[i]) else None
    }

    function SizeOfDir(i: nat): nat { if Dir(i).Some? then Dir(i).value.size else 0 }

    function Sections(): seq<Section> {
      seq(|rows|, i requires 0 <= i < |rows| => rows[i].Meaning())
    }

    /** What a parser should find: base relocations are directory 5, imports 1 and TLS 9. */
    function Meaning(): Summary {
      Summary(
        Header(machine, |rows|, 0x20B, NtOffset() + 24 + OptionalSize(), entry, base, size, subsystem,
               Dir(5), SizeOfDir(1), SizeOfDir(9)),
        Sections(), EntryIsExecutable(Sections(), entry))
    }
  }

  // ---------------------------------------------------------------------------
  // Writing
  // ---------------------------------------------------------------------------

  function WriteRow(r: Row, rest: seq<byte>): seq<byte> {
    r.name + (Bytes(r.virtSize, 4) + (Bytes(r.virtAddr, 4) + (Bytes(r.rawSize, 4) +
    (Bytes(r.rawOffset, 4) + (r.relocations + (Bytes(r.Characteristics(), 4) + rest))))))
  }

  function WriteRows(rows: seq<Row>, rest: seq<byte>): seq<byte> {
    if |rows| == 0 then rest else WriteRow(rows[0], WriteRows(rows[1..], rest))
  }

  function WriteDirs(dirs: seq<DataDir>): (r: seq<byte>)
    ensures |r| == 8 * |dirs|
  {
    if |dirs| == 0 then [] else Bytes(dirs[0].rva, 4) + (Bytes(dirs[0].size, 4) + WriteDirs(dirs[1..]))
  }

  function WriteDos(m: Image, rest: seq<byte>): seq<byte> {
    [0x4D, 0x5A] + (m.dos + (Bytes(m.NtOffset(), 4) + (m.stub + rest)))
  }

  function WriteFileHeader(m: Image, rest: seq<byte>): seq<byte> {
    [0x50, 0x45, 0, 0] + (Bytes(m.machine, 2) + (Bytes(|m.rows|, 2) +
    (m.stamps + (Bytes(m.OptionalSize(), 2) + (m.flags + rest)))))
  }

  /** The optional header up to the image base, ... */
  function WriteEntry(m: Image, rest: seq<byte>): seq<byte> {
    Bytes(0x20B, 2) + (m.linker + (Bytes(m.entry, 4) + (m.code + rest)))
  }

  /** ... up to the subsystem, ... */
  function WriteBase(m: Image, rest: seq<byte>): seq<byte> {
    Bytes(m.base, 8) + (m.versions + (Bytes(m.size, 4) + (m.checks + rest)))
  }

  /** ... and to its end. */
  function WriteSubsystem(m: Image, rest: seq<byte>): seq<byte> {
    Bytes(m.subsystem, 2) + (m.memory + (Bytes(|m.dirs|, 4) + (WriteDirs(m.dirs) + (m.gap + rest))))
  }

  function WriteImage(m: Image): seq<byte> {
    WriteDos(m, WriteFileHeader(m, WriteEntry(m, WriteBase(m, WriteSubsystem(m, WriteRows(m.rows, m.content))))))
  }

  // ---------------------------------------------------------------------------
  // Where the fields stand
  // ---------------------------------------------------------------------------

  lemma FourParts(bytes: seq<byte>, i: nat, a: seq<byte>, b: seq<byte>, c: seq<byte>, d: seq<byte>)
    requires HasAt(bytes, i, a + (b + (c + d)))
    ensures HasAt(bytes, i, a) && HasAt(bytes, i + |a|, b) && HasAt(bytes, i + |a| + |b|, c)
    ensures HasAt(bytes, i + |a| + |b| + |c|, d)
  {
    HasAtConcat(bytes, i, a, b + (c + d));
    HasAtConcat(bytes, i + |a|, b, c + d);
    HasAtConcat(bytes, i + |a| + |b|, c, d);
  }

  lemma {:induction false} FieldAt(bytes: seq<byte>, i: nat, v: nat, n: nat)
    requires HasAt(bytes, i, Bytes(v, n)) && v < Power(n)
    ensures Field(bytes, i, n) == Ok(v)
  {
    ValueAt(bytes, i, v, n);
  }

  lemma {:induction false} Field2(bytes: seq<byte>, i: nat, v: nat)
    requires HasAt(bytes, i, Bytes(v, 2)) && v < 0x1_0000
    ensures Field(bytes, i, 2) == Ok(v)
  {
    assert Power(2) == 0x1_0000;
    FieldAt(bytes, i, v, 2);
  }

  lemma {:induction false} Field4(bytes: seq<byte>, i: nat, v: nat)
    requires HasAt(bytes, i, Bytes(v, 4)) && v < 0x1_0000_0000
    ensures Field(bytes, i, 4) == Ok(v)
  {
    assert Power(4) == 0x1_0000_0000;
    FieldAt(bytes, i, v, 4);
  }

  lemma {:induction false} Field8(bytes: seq<byte>, i: nat, v: nat)
    requires HasAt(bytes, i, Bytes(v, 8)) && v < 0x1_0000_0000_0000_0000
    ensures Field(bytes, i, 8) == Ok(v)
  {
    assert Power(8) == 0x1_0000_0000_0000_0000;
    FieldAt(bytes, i, v, 8);
  }

  lemma {:induction false} DosFields(bytes: seq<byte>, m: Image, rest: seq<byte>)
    requires m.IsEncodable() && HasAt(bytes, 0, WriteDos(m, rest))
    ensures HasAt(bytes, 0, [0x4D, 0x5A]) && Field(bytes, 0x3C, 4) == Ok(m.NtOffset())
    ensures HasAt(bytes, m.NtOffset(), rest)
  {
    FourParts(bytes, 0, [0x4D, 0x5A], m.dos, Bytes(m.NtOffset(), 4), m.stub + rest);
    HasAtConcat(bytes, 64, m.stub, rest);
    Field4(bytes, 0x3C, m.NtOffset());
  }

  lemma {:induction false} FileHeaderFields(bytes: seq<byte>, nt: nat, m: Image, rest: seq<byte>)
    requires m.IsEncodable() && HasAt(bytes, nt, WriteFileHeader(m, rest))
    ensures HasAt(bytes, nt, [0x50, 0x45, 0, 0]) && HasAt(bytes, nt + 24, rest)
    ensures Field(bytes, nt + 4, 2) == Ok(m.machine) && Field(bytes, nt + 6, 2) == Ok(|m.rows|)
    ensures Field(bytes, nt + 20, 2) == Ok(m.OptionalSize())
  {
    var more := m.stamps + (Bytes(m.OptionalSize(), 2) + (m.flags + rest));
    FourParts(bytes, nt, [0x50, 0x45, 0, 0], Bytes(m.machine, 2), Bytes(|m.rows|, 2), more);
    FourParts(bytes, nt + 8, m.stamps, Bytes(m.OptionalSize(), 2), m.flags, rest);
    Field2(bytes, nt + 4, m.machine);
    Field2(bytes, nt + 6, |m.rows|);
    Field2(bytes, nt + 20, m.OptionalSize());
  }

  lemma {:induction false} EntryFields(bytes: seq<byte>, opt: nat, m: Image, rest: seq<byte>)
    requires m.IsEncodable() && HasAt(bytes, opt, WriteEntry(m, rest))
    ensures Field(bytes, opt, 2) == Ok(0x20B) && Field(bytes, opt + 0x10, 4) == Ok(m.entry)
    ensures HasAt(bytes, opt + 0x18, rest)
  {
    FourParts(bytes, opt, Bytes(0x20B, 2), m.linker, Bytes(m.entry, 4), m.code + rest);
    HasAtConcat(bytes, opt + 0x14, m.code, rest);
    Field2(bytes, opt, 0x20B);
    Field4(bytes, opt + 0x10, m.entry);
  }

  lemma {:induction false} BaseParts(bytes: seq<byte>, at: nat, m: Image, rest: seq<byte>)
    requires m.HasWidths() && HasAt(bytes, at, WriteBase(m, rest))
    ensures HasAt(bytes, at, Bytes(m.base, 8)) && HasAt(bytes, at + 32, Bytes(m.size, 4)) && HasAt(bytes, at + 44, rest)
  {
    FourParts(bytes, at, Bytes(m.base, 8), m.versions, Bytes(m.size, 4), m.checks + rest);
    HasAtConcat(bytes, at + 36, m.checks, rest);
  }

  lemma {:induction false} BaseFields(bytes: seq<byte>, opt: nat, m: Image, rest: seq<byte>)
    requires m.IsEncodable() && HasAt(bytes, opt + 0x18, WriteBase(m, rest))
    ensures Field(bytes, opt + 0x18, 8) == Ok(m.base) && Field(bytes, opt + 0x38, 4) == Ok(m.size)
    ensures HasAt(bytes, opt + 0x44, rest)
  {
    BaseParts(bytes, opt + 0x18, m, rest);
    Field8(bytes, opt + 0x18, m.base);
    Field4(bytes, opt + 0x38, m.size);
  }

  lemma {:induction false} SubsystemParts(bytes: seq<byte>, at: nat, m: Image, rest: seq<byte>)
    requires m.HasWidths() && HasAt(bytes, at, WriteSubsystem(m, rest))
    ensures HasAt(bytes, at, Bytes(m.subsystem, 2)) && HasAt(bytes, at + 40, Bytes(|m.dirs|, 4))
    ensures HasAt(bytes, at + 44, WriteDirs(m.dirs)) && HasAt(bytes, at + 44 + 8 * |m.dirs| + |m.gap|, rest)
  {
    var more := WriteDirs(m.dirs) + (m.gap + rest);
    FourParts(bytes, at, Bytes(m.subsystem, 2), m.memory, Bytes(|m.dirs|, 4), more);
    HasAtConcat(bytes, at + 44, WriteDirs(m.dirs), m.gap + rest);
    HasAtConcat(bytes, at + 44 + 8 * |m.dirs|, m.gap, rest);
  }

  lemma {:induction false} SubsystemFields(bytes: seq<byte>, opt: nat, m: Image, rest: seq<byte>)
    requires m.IsEncodable() && HasAt(bytes, opt + 0x44, WriteSubsystem(m, rest))
    ensures Field(bytes, opt + 0x44, 2) == Ok(m.subsystem) && Field(bytes, opt + 0x6C, 4) == Ok(|m.dirs|)
    ensures HasAt(bytes, opt + 0x70, WriteDirs(m.dirs)) && HasAt(bytes, opt + m.OptionalSize(), rest)
  {
    SubsystemParts(bytes, opt + 0x44, m, rest);
    Field2(bytes, opt + 0x44, m.subsystem);
    Field4(bytes, opt + 0x6C, |m.dirs|);
  }

  lemma {:induction false} DirAt(bytes: seq<byte>, start: nat, dirs: seq<DataDir>, i: nat)
    requires HasAt(bytes, start, WriteDirs(dirs)) && i < |dirs|
    requires dirs[i].rva < 0x1_0000_0000 && dirs[i].size < 0x1_0000_0000
    ensures Field(bytes, start + i * 8, 4) == Ok(dirs[i].rva) && Field(bytes, start + i * 8 + 4, 4) == Ok(dirs[i].size)
    decreases i
  {
    var rva, size, rest := Bytes(dirs[0].rva, 4), Bytes(dirs[0].size, 4), WriteDirs(dirs[1..]);
    HasAtConcat(bytes, start, rva, size + rest);
    HasAtConcat(bytes, start + 4, size, rest);
    if i == 0 {
      Field4(bytes, start, dirs[0].rva);
      Field4(bytes, start + 4, dirs[0].size);
    } else {
      DirAt(bytes, start + 8, dirs[1..], i - 1);
    }
  }

  lemma {:induction false} DirReads(bytes: seq<byte>, start: nat, m: Image, i: nat)
    requires m.IsEncodable() && HasAt(bytes, start, WriteDirs(m.dirs))
    ensures ReadDataDir(bytes, start, |m.dirs|, i) == m.Dir(i)
  {
    if i < |m.dirs| {
      DirAt(bytes, start, m.dirs, i);
    }
  }

  lemma {:induction false} RowParts(bytes: seq<byte>, at: nat, r: Row, rest: seq<byte>)
    requires |r.name| == 8 && |r.relocations| == 12 && HasAt(bytes, at, WriteRow(r, rest))
    ensures HasAt(bytes, at + 8, Bytes(r.virtSize, 4)) && HasAt(bytes, at + 12, Bytes(r.virtAddr, 4))
    ensures HasAt(bytes, at + 16, Bytes(r.rawSize, 4)) && HasAt(bytes, at + 20, Bytes(r.rawOffset, 4))
    ensures HasAt(bytes, at + 36, Bytes(r.Characteristics(), 4)) && HasAt(bytes, at + 40, rest)
  {
    var flags := Bytes(r.Characteristics(), 4);
    var more := Bytes(r.rawSize, 4) + (Bytes(r.rawOffset, 4) + (r.relocations + (flags + rest)));
    FourParts(bytes, at, r.name, Bytes(r.virtSize, 4), Bytes(r.virtAddr, 4), more);
    FourParts(bytes, at + 16, Bytes(r.rawSize, 4), Bytes(r.rawOffset, 4), r.relocations, flags + rest);
    HasAtConcat(bytes, at + 36, flags, rest);
  }

  lemma ExecutableBit(r: Row)
    requires r.IsEncodable()
    ensures r.Characteristics() < 0x1_0000_0000 && (r.Characteristics() / 0x2000_0000 % 2 == 1 <==> r.executable)
  {
  }

  lemma {:induction false} RowReads(bytes: seq<byte>, at: nat, r: Row, rest: seq<byte>)
    requires r.IsEncodable() && HasAt(bytes, at, WriteRow(r, rest))
    ensures at + 40 <= |bytes| && SectionAt(bytes, at) == r.Meaning() && HasAt(bytes, at + 40, rest)
  {
    RowParts(bytes, at, r, rest);
    ExecutableBit(r);
    Field4(bytes, at + 8, r.virtSize);
    Field4(bytes, at + 12, r.virtAddr);
    Field4(bytes, at + 16, r.rawSize);
    Field4(bytes, at + 20, r.rawOffset);
    Field4(bytes, at + 36, r.Characteristics());
  }

  lemma {:induction false} RowsRead(bytes: seq<byte>, at: nat, rows: seq<Row>, rest: seq<byte>, i: nat)
    requires HasAt(bytes, at, WriteRows(rows, rest)) && i < |rows|
    requires forall k | 0 <= k < |rows| :: rows[k].IsEncodable()
    ensures at + 40 * |rows| <= |bytes| && SectionAt(bytes, at + 40 * i) == rows[i].Meaning()
    decreases |rows|
  {
    RowReads(bytes, at, rows[0], WriteRows(rows[1..], rest));
    if |rows| > 1 {
      RowsRead(bytes, at + 40, rows[1..], rest, if i == 0 then 0 else i - 1);
    }
  }

  // ---------------------------------------------------------------------------
  // Round trip
  // ---------------------------------------------------------------------------

  lemma {:induction false} RowsFit(bytes: seq<byte>, at: nat, rows: seq<Row>, rest: seq<byte>)
    requires HasAt(bytes, at, WriteRows(rows, rest))
    requires forall k | 0 <= k < |rows| :: rows[k].IsEncodable()
    ensures at + 40 * |rows| <= |bytes|
  {
    if |rows| > 0 {
      RowsRead(bytes, at, rows, rest, 0);
    }
  }

  lemma {:induction false} TableReads(bytes: seq<byte>, at: nat, m: Image)
    requires m.IsEncodable() && HasAt(bytes, at, WriteRows(m.rows, m.content))
    ensures at + 40 * |m.rows| <= |bytes| && SectionTable(bytes, at, |m.rows|) == m.Sections()
  {
    var rows, rest := m.rows, m.content;
    RowsFit(bytes, at, rows, rest);
    forall i | 0 <= i < |rows|
      ensures SectionTable(bytes, at, |rows|)[i] == rows[i].Meaning()
    {
      RowsRead(bytes, at, rows, rest, i);
    }
  }

  /** The fields that the parser reads in front of the optional header, ... */
  ghost predicate HasFront(bytes: seq<byte>, m: Image) {
    var nt := m.NtOffset();
    && HasAt(bytes, 0, [0x4D, 0x5A]) && Field(bytes, 0x3C, 4) == Ok(nt) && HasAt(bytes, nt, [0x50, 0x45, 0, 0])
    && Field(bytes, nt + 4, 2) == Ok(m.machine) && Field(bytes, nt + 6, 2) == Ok(|m.rows|)
    && Field(bytes, nt + 20, 2) == Ok(m.OptionalSize())
  }

  /** ... in it, ... */
  ghost predicate HasOptional(bytes: seq<byte>, m: Image, opt: nat) {
    && Field(bytes, opt, 2) == Ok(0x20B) && Field(bytes, opt + 0x10, 4) == Ok(m.entry)
    && Field(bytes, opt + 0x18, 8) == Ok(m.base) && Field(bytes, opt + 0x38, 4) == Ok(m.size)
    && Field(bytes, opt + 0x44, 2) == Ok(m.subsystem) && Field(bytes, opt + 0x6C, 4) == Ok(|m.dirs|)
  }

  /** ... and in the directories and sections. */
  ghost predicate HasTables(bytes: seq<byte>, m: Image, opt: nat) {
    && (forall i | i in {1, 5, 9} :: ReadDataDir(bytes, opt + 0x70, |m.dirs|, i) == m.Dir(i))
    && opt + m.OptionalSize() + 40 * |m.rows| <= |bytes|
    && SectionTable(bytes, opt + m.OptionalSize(), |m.rows|) == m.Sections()
  }

  lemma {:induction false} FrontStands(bytes: seq<byte>, m: Image, optional: seq<byte>)
    requires m.IsEncodable() && HasAt(bytes, 0, WriteDos(m, WriteFileHeader(m, optional)))
    ensures HasFront(bytes, m) && HasAt(bytes, m.NtOffset() + 24, optional)
  {
    DosFields(bytes, m, WriteFileHeader(m, optional));
    FileHeaderFields(bytes, m.NtOffset(), m, optional);
  }

  lemma {:induction false} OptionalStands(bytes: seq<byte>, opt: nat, m: Image, table: seq<byte>)
    requires m.IsEncodable() && HasAt(bytes, opt, WriteEntry(m, WriteBase(m, WriteSubsystem(m, table))))
    ensures HasOptional(bytes, m, opt)
    ensures HasAt(bytes, opt + 0x70, WriteDirs(m.dirs)) && HasAt(bytes, opt + m.OptionalSize(), table)
  {
    var subsystem := WriteSubsystem(m, table);
    EntryFields(bytes, opt, m, WriteBase(m, subsystem));
    BaseFields(bytes, opt, m, subsystem);
    SubsystemFields(bytes, opt, m, table);
  }

  lemma {:induction false} TablesStand(bytes: seq<byte>, opt: nat, m: Image)
    requires m.IsEncodable() && HasAt(bytes, opt + 0x70, WriteDirs(m.dirs))
    requires HasAt(bytes, opt + m.OptionalSize(), WriteRows(m.rows, m.content))
    ensures HasTables(bytes, m, opt)
  {
    forall i | i in {1, 5, 9}
      ensures ReadDataDir(bytes, opt + 0x70, |m.dirs|, i) == m.Dir(i)
    {
      DirReads(bytes, opt + 0x70, m, i);
    }
    TableReads(bytes, opt + m.OptionalSize(), m);
  }

  lemma {:induction false} FieldsRead(bytes: seq<byte>, m: Image)
    requires |m.rows| <= 256 && HasFront(bytes, m)
    requires HasOptional(bytes, m, m.NtOffset() + 24) && HasTables(bytes, m, m.NtOffset() + 24)
    ensures Summarize(bytes) == Ok(m.Meaning())
  {
    assert bytes[0] == bytes[0..2][0] && bytes[1] == bytes[0..2][1];
    assert 1 in {1, 5, 9} && 5 in {1, 5, 9} && 9 in {1, 5, 9};
  }

  lemma {:induction false} PartsRead(bytes: seq<byte>, m: Image, optional: seq<byte>, table: seq<byte>)
    requires m.IsEncodable() && table == WriteRows(m.rows, m.content)
    requires optional == WriteEntry(m, WriteBase(m, WriteSubsystem(m, table)))
    requires HasAt(bytes, 0, WriteDos(m, WriteFileHeader(m, optional)))
    ensures Summarize(bytes) == Ok(m.Meaning())
  {
    FrontStands(bytes, m, optional);
    OptionalStands(bytes, m.NtOffset() + 24, m, table);
    TablesStand(bytes, m.NtOffset() + 24, m);
    FieldsRead(bytes, m);
  }

  /** The image is for this machine, runs as an EFI program, is small enough, stands alone and has an entry. */
  ghost predicate IsBootable(m: Image, machine: nat, length: nat) {
    && m.machine == machine && m.subsystem in {10, 11, 12} && m.size <= 256 * 1024 * 1024
    && m.SizeOfDir(1) == 0 && m.SizeOfDir(9) == 0
    && (forall r | r in m.rows ::
          && r.virtAddr + r.virtSize <= m.size
          && (r.rawSize > 0 && r.virtSize > 0 ==> r.rawOffset + Min(r.rawSize, r.virtSize) <= length))
    && m.entry < m.size
    && exists r :: r in m.rows && r.executable && r.virtAddr <= m.entry < r.virtAddr + r.virtSize
  }

  lemma MeaningIsAcceptable(m: Image, machine: nat, length: nat)
    ensures Acceptable(m.Meaning(), length, machine) <==> IsBootable(m, machine, length)
  {
    var sections := m.Sections();
    assert forall i | 0 <= i < |m.rows| :: sections[i] == m.rows[i].Meaning() && m.rows[i] in m.rows;
  }

  /** The parser finds every field of a written image, and the sections it has. */
  lemma {:induction false} WrittenImageReads(m: Image)
    requires m.IsEncodable()
    ensures Summarize(WriteImage(m)) == Ok(m.Meaning())
  {
    var bytes, table := WriteImage(m), WriteRows(m.rows, m.content);
    assert bytes[0..|bytes|] == bytes;
    PartsRead(bytes, m, WriteEntry(m, WriteBase(m, WriteSubsystem(m, table))), table);
  }

  /** A written image is accepted exactly when it is bootable. */
  lemma {:induction false} WrittenIsAcceptedIff(m: Image, machine: nat)
    requires m.IsEncodable()
    ensures var bytes := WriteImage(m);
      && Summarize(bytes).Ok?
      && (Acceptable(Summarize(bytes).value, |bytes|, machine) <==> IsBootable(m, machine, |bytes|))
  {
    WrittenImageReads(m);
    MeaningIsAcceptable(m, machine, |WriteImage(m)|);
  }
}
