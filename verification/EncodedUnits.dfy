/** Whole units and whole sections as producers write them, and what the decoder makes of them: exactly the
    named rows of the abstract units, in order. */
module EncodedUnits {
  import opened Bytes
  import opened Wrappers
  import opened LineTables
  import opened LinePrograms
  import opened ProgramEncoding
  import opened Forms
  import opened EntryTables
  import opened Units
  import opened LineIndex
  import opened Sorting
  import opened NamedRows
  import opened NamedSections
  import opened EncodedTables
  import opened EncodedTables5

  // ---- Abstract units ----

  /** The entry tables: the layout of versions 2 to 4, the version 5 layout from lists of directories and files, or
      the version 5 layout from cells of whatever encoding. */
  datatype TableSource =
    | Layout4(dirs: seq<CString>, files: seq<FileEntry4>)
    | Layout5(dirList: TableList, fileList: TableList)
    | Cells5(dirTable: Table5, fileTable: Table5)

  /** A unit before it is serialized. `gap` is whatever a producer leaves between the tables and the program;
      the header length spans it. */
  datatype SourceUnit = SourceUnit(
    dwarf64: bool, version: u16, cfg: Config, defaultStmt: byte, tables: TableSource, gap: Bytes, prog: seq<Instr>)
  {
    function Size(): OffsetSize {
      if dwarf64 then 8 else 4
    }
  }

  ghost predicate TablesFit(tables: TableSource, size: OffsetSize, sections: Sections) {
    match tables
    case Layout4(dirs, files) =>
      NonEmptyStrings(dirs) && NonEmptyFiles(files) && |dirs| < 256 && |files| < 512
    case Layout5(d, f) =>
      && ListFits(d, false, size, sections, 256) && ListFits(f, true, size, sections, 512)
      && AllNameable(ItemNames(d.items), ItemFiles(f.items, HasIndex(f.specs)))
    case Cells5(d, f) =>
      && TableFits(d, false, size, sections, 256) && TableFits(f, true, size, sections, 512)
      && AllNameable(DirectoryNames(d.columns, d.rows, size, sections), FileEntries(f.columns, f.rows, size, sections))
  }

  /** The names of the files the tables list, joined with their directories. */
  ghost function ListedNames(tables: TableSource, size: OffsetSize, sections: Sections): seq<CString>
    requires TablesFit(tables, size, sections)
  {
    match tables
    case Layout4(dirs, files) => FileNames4(dirs, files)
    case Layout5(d, f) => JoinedNames(ItemNames(d.items), ItemFiles(f.items, HasIndex(f.specs)))
    case Cells5(d, f) =>
      JoinedNames(DirectoryNames(d.columns, d.rows, size, sections), FileEntries(f.columns, f.rows, size, sections))
  }

  /** The name of each file index: up to version 4 files count from one. */
  ghost function FileNames(tables: TableSource, size: OffsetSize, sections: Sections): NameList
    requires TablesFit(tables, size, sections)
  {
    (if tables.Layout4? then [None] else []) + SomeNames(ListedNames(tables, size, sections))
  }

  ghost function DirectoryRoom(tables: TableSource, size: OffsetSize, sections: Sections): nat
    requires TablesFit(tables, size, sections)
  {
    match tables
    case Layout4(dirs, _) => Room([[]] + dirs)
    case Layout5(d, _) => Room(ItemNames(d.items))
    case Cells5(d, _) => Room(DirectoryNames(d.columns, d.rows, size, sections))
  }

  /** Pool room the tables take. */
  ghost function TableRoom(tables: TableSource, size: OffsetSize, sections: Sections): nat
    requires TablesFit(tables, size, sections)
  {
    DirectoryRoom(tables, size, sections) + Room(ListedNames(tables, size, sections))
  }

  // ---- Serialization ----

  function EncodeTables(tables: TableSource, size: OffsetSize): Bytes {
    match tables
    case Layout4(dirs, files) => EncodeTables4(dirs, files)
    case Layout5(d, f) => EncodeTable(TableOf(d, size)) + EncodeTable(TableOf(f, size))
    case Cells5(d, f) => EncodeTable(d) + EncodeTable(f)
  }

  function EncodeParameters(version: u16, cfg: Config, defaultStmt: byte): Bytes {
    [cfg.minInst] + (if version >= 4 then [cfg.maxOps] else [])
      + ([defaultStmt, cfg.lineBase % 256, cfg.lineRange, cfg.opcodeBase] + cfg.stdLen)
  }

  function EncodeVersion(version: u16, addrSize: byte): Bytes {
    LeBytes(version, 2) + if version == 5 then [addrSize, 0] else []
  }

  /** Everything the header length counts. */
  function EncodeHeader(u: SourceUnit): Bytes {
    EncodeParameters(u.version, u.cfg, u.defaultStmt) + (EncodeTables(u.tables, u.Size()) + u.gap)
  }

  function EncodeLength(dwarf64: bool, n: nat): Bytes {
    if dwarf64 then [255, 255, 255, 255] + LeBytes(n, 8) else LeBytes(n, 4)
  }

  /** The unit with any bytes in place of its program. */
  function EncodeBodyWith(u: SourceUnit, code: Bytes): Bytes {
    EncodeVersion(u.version, u.cfg.addrSize)
      + (LeBytes(|EncodeHeader(u)|, u.Size()) + (EncodeHeader(u) + code))
  }

  function EncodeWith(u: SourceUnit, code: Bytes): Bytes {
    EncodeLength(u.dwarf64, |EncodeBodyWith(u, code)|) + EncodeBodyWith(u, code)
  }

  function EncodeUnit(u: SourceUnit): Bytes {
    EncodeWith(u, EncodeAll(u.cfg, u.prog))
  }

  /** Header and tables are those of the unit's version, and lengths fit their fields. */
  ghost predicate Framed(u: SourceUnit, code: Bytes, sections: Sections) {
    && (u.version < 5 <==> u.tables.Layout4?)
    && (u.version < 4 ==> u.cfg.maxOps == 1)
    && (u.version != 5 ==> u.cfg.addrSize == 8)
    && TablesFit(u.tables, u.Size(), sections)
    && |EncodeBodyWith(u, code)| < if u.dwarf64 then U64 else 0xffff_ffff
  }

  /** Units a producer can write: a well-formed frame around a program that can be encoded. */
  ghost predicate WellFormed(u: SourceUnit, sections: Sections) {
    Framed(u, EncodeAll(u.cfg, u.prog), sections) && AllEncodable(u.cfg, u.prog)
  }

  /** The named rows of a program in the frame of a unit: its matrix, seen through the unit's file names. */
  ghost function ProgramMeaning(u: SourceUnit, prog: seq<Instr>, sections: Sections): seq<NamedRow>
    requires TablesFit(u.tables, u.Size(), sections) && Executable(u.cfg, prog)
  {
    NamedRowsOf(FileNames(u.tables, u.Size(), sections), Snapshots(u.cfg, prog, INITIAL))
  }

  ghost function UnitMeaning(u: SourceUnit, sections: Sections): seq<NamedRow>
    requires WellFormed(u, sections)
  {
    EncodableExecutable(u.cfg, u.prog);
    ProgramMeaning(u, u.prog, sections)
  }

  ghost function UnitRoom(u: SourceUnit, sections: Sections): nat
    requires TablesFit(u.tables, u.Size(), sections)
  {
    TableRoom(u.tables, u.Size(), sections)
  }

  // ---- Reading it back ----

  lemma ParametersEncoded(version: u16, cfg: Config, defaultStmt: byte, tail: Bytes)
    requires version < 4 ==> cfg.maxOps == 1
    ensures ReadParameters(version, cfg.addrSize, EncodeParameters(version, cfg, defaultStmt) + tail)
         == Got(Usable(cfg), tail)
  {
    hide ReadOpcodes;
    var rest := [defaultStmt, cfg.lineBase % 256, cfg.lineRange, cfg.opcodeBase] + cfg.stdLen + tail;
    var s := EncodeParameters(version, cfg, defaultStmt) + tail;
    if version >= 4 {
      assert s == [cfg.minInst] + ([cfg.maxOps] + rest);
      assert s[1..] == [cfg.maxOps] + rest && s[1..][1..] == rest;
    } else {
      assert s == [cfg.minInst] + rest;
      assert s[1..] == rest;
    }
    OpcodesEncoded(cfg, defaultStmt, tail);
    assert SignedByte(cfg.lineBase % 256) == cfg.lineBase;
  }

  lemma OpcodesEncoded(cfg: Config, defaultStmt: byte, tail: Bytes)
    ensures ReadOpcodes([defaultStmt, cfg.lineBase % 256, cfg.lineRange, cfg.opcodeBase] + cfg.stdLen + tail)
         == Got(Opcodes(cfg.lineBase % 256, cfg.lineRange, cfg.opcodeBase, cfg.stdLen), tail)
  {
    var s := [defaultStmt, cfg.lineBase % 256, cfg.lineRange, cfg.opcodeBase] + cfg.stdLen + tail;
    var s4 := cfg.stdLen + tail;
    assert s[1..][1..][1..][1..] == s4;
    assert s4[..cfg.opcodeBase - 1] == cfg.stdLen && s4[cfg.opcodeBase - 1..] == tail;
  }

  lemma TablesEncoded(version: u16, tables: TableSource, size: OffsetSize, sections: Sections, tail: Bytes, pool: Bytes)
    requires |pool| <= 262144 && Closed(pool)
    requires (version < 5 <==> tables.Layout4?) && TablesFit(tables, size, sections)
    requires |pool| + TableRoom(tables, size, sections) <= 262144
    ensures var t := Tables(version, size, sections, EncodeTables(tables, size) + tail, pool);
      && t.status == Accepted && t.rest == tail
      && Closed(t.pool) && |t.pool| == |pool| + TableRoom(tables, size, sections)
      && Names(t.pool, t.offs, FileNames(tables, size, sections))
  {
    hide Tables4, Tables5, Closed, Names, Room, EncodeTable, EncodeTables4, ListFits, TableFits, AllNameable;
    assert [] + SomeNames(ListedNames(tables, size, sections)) == SomeNames(ListedNames(tables, size, sections));
    match tables
    case Layout4(dirs, files) => Tables4RoundTrip(dirs, files, tail, pool);
    case Layout5(d, f) => ListsRoundTrip(d, f, size, sections, tail, pool);
    case Cells5(d, f) => Tables5RoundTrip(d, f, size, sections, tail, pool);
  }

  lemma LengthEncoded(dwarf64: bool, n: nat, tail: Bytes)
    requires n < if dwarf64 then U64 else 0xffff_ffff
    ensures ReadUnitLength(EncodeLength(dwarf64, n) + tail)
         == Got(UnitLength(n, if dwarf64 then 8 else 4), tail)
  {
    hide LeValue, LeBytes;
    var s := EncodeLength(dwarf64, n) + tail;
    Pow256Words();
    if dwarf64 {
      var rest := LeBytes(n, 8) + tail;
      assert s == [255, 255, 255, 255] + rest;
      assert s[..4] == [255, 255, 255, 255] && s[4..] == rest;
      EscapeValue();
      LeOfEncoding(n, 8, tail);
    } else {
      LeOfEncoding(n, 4, tail);
    }
  }

  lemma EscapeValue()
    ensures LeValue([255, 255, 255, 255]) == 0xffff_ffff
  {
    assert LeValue([255]) == 255 + 256 * LeValue([]);
    assert [255, 255][1..] == [255];
    assert [255, 255, 255][1..] == [255, 255];
    assert [255, 255, 255, 255][1..] == [255, 255, 255];
  }

  lemma VersionEncoded(version: u16, addrSize: byte, tail: Bytes)
    requires version != 5 ==> addrSize == 8
    ensures ReadVersion(EncodeVersion(version, addrSize) + tail) == Got(Version(version, addrSize, 0), tail)
  {
    hide LeValue, LeBytes;
    var rest := (if version == 5 then [addrSize, 0] else []) + tail;
    assert EncodeVersion(version, addrSize) + tail == LeBytes(version, 2) + rest;
    Pow256Words();
    LeOfEncoding(version, 2, rest);
    if version == 5 {
      assert rest[1..][1..] == tail;
    } else {
      assert rest == tail;
    }
  }

  lemma PrologueEncoded(u: SourceUnit, code: Bytes, sections: Sections, tail: Bytes)
    requires Framed(u, code, sections)
    ensures var s, program := EncodeWith(u, code) + tail, code + tail;
      && Delimited(s) && AfterUnit(s) == tail
      && ReadPrologue(s) == Prologue(u.version, u.Size(), u.cfg.addrSize, EncodeHeader(u) + program, program)
  {
    hide EncodeHeader, EncodeVersion, EncodeLength, ReadUnitLength, ReadVersion, LeBytes, LeValue, TablesFit;
    var s, body, header, size := EncodeWith(u, code) + tail, EncodeBodyWith(u, code), EncodeHeader(u), u.Size();
    var program := code + tail;
    assert s == EncodeLength(u.dwarf64, |body|) + (body + tail);
    LengthEncoded(u.dwarf64, |body|, body + tail);
    assert (body + tail)[|body|..] == tail;
    VersionLength(u.version, u.cfg.addrSize);
    var s1 := LeBytes(|header|, size) + (header + program);
    assert body + tail == EncodeVersion(u.version, u.cfg.addrSize) + s1;
    VersionEncoded(u.version, u.cfg.addrSize, s1);
    Pow256Words();
    LeOfEncoding(|header|, size, header + program);
    assert (header + program)[|header|..] == program;
  }

  lemma VersionLength(version: u16, addrSize: byte)
    ensures |EncodeVersion(version, addrSize)| >= 2
  {
  }

  /** A serialized frame around any bytes is accepted, the cursor ends right after it, and its rows, by name, are
      exactly those of the instructions the bytes disassemble to where they stand, in order. */
  lemma FrameRoundTrip(u: SourceUnit, code: Bytes, sections: Sections, tail: Bytes, pool: Bytes)
    requires |pool| <= 262144 && Closed(pool)
    requires Framed(u, code, sections) && |pool| + UnitRoom(u, sections) <= 262144
    ensures var p := ParseUnit(EncodeWith(u, code) + tail, sections, pool);
      && p.status == Accepted && p.rest == tail
      && Closed(p.pool) && |p.pool| == |pool| + UnitRoom(u, sections)
      && NameRows(p.pool, p.rows) == ProgramMeaning(u, Disassemble(u.cfg, code + tail, |tail|), sections)
  {
    hide ReadPrologue, ReadParameters, Tables, EncodeWith, EncodeParameters, EncodeTables, Closed, Names,
      TablesFit, TableRoom, FileNames, Disassemble, ExecAll, Snapshots, NamedRowsOf, NameRows, EncodeHeader;
    var s, program := EncodeWith(u, code) + tail, code + tail;
    PrologueEncoded(u, code, sections, tail);
    var afterTables := u.gap + program;
    var afterParameters := EncodeTables(u.tables, u.Size()) + afterTables;
    HeaderSplits(u, program);
    ParametersEncoded(u.version, u.cfg, u.defaultStmt, afterParameters);
    TablesEncoded(u.version, u.tables, u.Size(), sections, afterTables, pool);
    var t := Tables(u.version, u.Size(), sections, afterParameters, pool);
    var prog := Disassemble(u.cfg, program, |tail|);
    RowsOfProgram(u.cfg, t.offs, prog, INITIAL);
    NamedMatrix(t.pool, t.offs, FileNames(u.tables, u.Size(), sections), Snapshots(u.cfg, prog, INITIAL));
  }

  lemma HeaderSplits(u: SourceUnit, program: Bytes)
    ensures EncodeHeader(u) + program
         == EncodeParameters(u.version, u.cfg, u.defaultStmt)
            + (EncodeTables(u.tables, u.Size()) + (u.gap + program))
  {
    hide EncodeParameters, EncodeTables;
  }

  /** A serialized unit is accepted, the cursor ends right after it, and its rows, by name, are exactly those
      of the abstract unit, in order. */
  lemma UnitRoundTrip(u: SourceUnit, sections: Sections, tail: Bytes, pool: Bytes)
    requires |pool| <= 262144 && Closed(pool)
    requires WellFormed(u, sections) && |pool| + UnitRoom(u, sections) <= 262144
    ensures var p := ParseUnit(EncodeUnit(u) + tail, sections, pool);
      && p.status == Accepted && p.rest == tail
      && Closed(p.pool) && |p.pool| == |pool| + UnitRoom(u, sections)
      && NameRows(p.pool, p.rows) == UnitMeaning(u, sections)
  {
    hide ParseUnit, EncodeWith, EncodeAll, Closed, TablesFit, Framed, TableRoom, ProgramMeaning, NameRows, AllEncodable,
      Disassemble;
    FrameRoundTrip(u, EncodeAll(u.cfg, u.prog), sections, tail, pool);
    DisassembleEncoded(u.cfg, u.prog, tail);
  }

  // ---- Sections ----

  ghost predicate AllWellFormed(us: seq<SourceUnit>, sections: Sections) {
    forall k | 0 <= k < |us| :: WellFormed(us[k], sections)
  }

  ghost function EncodeUnits(us: seq<SourceUnit>): Bytes
    decreases |us|
  {
    if us == [] then [] else EncodeUnit(us[0]) + EncodeUnits(us[1..])
  }

  ghost function SectionMeaning(us: seq<SourceUnit>, sections: Sections): seq<NamedRow>
    requires AllWellFormed(us, sections)
    decreases |us|
  {
    if us == [] then [] else UnitMeaning(us[0], sections) + SectionMeaning(us[1..], sections)
  }

  ghost function SectionRoom(us: seq<SourceUnit>, sections: Sections): nat
    requires AllWellFormed(us, sections)
    decreases |us|
  {
    if us == [] then 0 else UnitRoom(us[0], sections) + SectionRoom(us[1..], sections)
  }

  /** On a concatenation of serialized units every unit is accepted, and the emitted rows, by name, are the
      concatenation of the rows of the units. */
  lemma {:induction false} SectionRoundTrip(us: seq<SourceUnit>, sections: Sections, pool: Bytes)
    requires |pool| <= 262144 && Closed(pool)
    requires AllWellFormed(us, sections) && |pool| + SectionRoom(us, sections) <= 262144
    ensures var x := ParseSection(EncodeUnits(us), sections, pool);
      && x.status == Accepted
      && NameRows(x.pool, x.rows) == SectionMeaning(us, sections)
    decreases |us|
  {
    hide ParseUnit, EncodeUnit, UnitMeaning, UnitRoom, WellFormed, Closed, NameRows;
    if us == [] {
      NoRows(pool);
    } else {
      var u, tail := us[0], EncodeUnits(us[1..]);
      assert WellFormed(u, sections);
      var s := EncodeUnits(us);
      assert s == EncodeUnit(u) + tail;
      UnitRoundTrip(u, sections, tail, pool);
      var p := ParseUnit(s, sections, pool);
      AcceptedNotEmpty(s, sections, pool);
      SectionRoundTrip(us[1..], sections, p.pool);
      var x := ParseSection(tail, sections, p.pool);
      UnitSound(s, sections, pool);
      RowsStartGrow(p.pool, x.pool, p.rows);
      NameRowsAppend(x.pool, p.rows, x.rows);
    }
  }

  lemma AcceptedNotEmpty(s: Bytes, sections: Sections, pool: Bytes)
    requires |pool| <= 262144 && ParseUnit(s, sections, pool).status == Accepted
    ensures s != []
  {
    AcceptedEndsAtDeclaredLength(s, sections, pool);
  }

  // ---- End to end ----

  /** From abstract units to the answer of a lookup. After parsing the serialized units into an empty table,
      with any order among equal addresses, a row is found exactly when the units have one at or below the
      address (among the first rows the table has room for), and the file name and line it gives are those
      of a row of the units whose address is the greatest such one. */
  lemma EndToEnd(us: seq<SourceUnit>, sections: Sections, order: Order<Row>, addr: u64, row: Row)
    requires AllWellFormed(us, sections) && SectionRoom(us, sections) <= 262144 && IsSort(order, RowKey)
    ensures var x := ParseSection(EncodeUnits(us), sections, []);
      var table := order(Capped(x.rows));
      var meaning := Take(SectionMeaning(us, sections), 65536);
      && (HasFloor(table, RowKey, addr) <==> HasFloor(meaning, NamedKey, addr))
      && (IsFloor(table, RowKey, addr, row) ==> IsFloor(meaning, NamedKey, addr, NameRow(x.pool, row)))
  {
    hide ParseSection, EncodeUnits, SectionMeaning, IsFloor, HasFloor, NameRows;
    var x := ParseSection(EncodeUnits(us), sections, []);
    SectionRoundTrip(us, sections, []);
    NameTake(x.pool, x.rows, 65536);
    assert SortedPermutation(order(Capped(x.rows)), Capped(x.rows), RowKey);
    FloorOfPermutation(order(Capped(x.rows)), Capped(x.rows), RowKey, addr, row);
    FloorByName(x.pool, Capped(x.rows), addr, row);
  }

  /** The same, through the code: reset, parse, look up, and follow the file pointer into the pool. */
  method Resolve(tab: LineTable, section: Bytes, sections: Sections, order: Order<Row>, addr: u64,
                 ghost us: seq<SourceUnit>)
    returns (found: bool, name: CString, line: u32)
    requires tab.Valid() && IsSort(order, RowKey)
    requires AllWellFormed(us, sections) && SectionRoom(us, sections) <= 262144 && section == EncodeUnits(us)
    modifies tab, tab.rows, tab.strs
    ensures tab.Valid()
    ensures var meaning := Take(SectionMeaning(us, sections), 65536);
      && (found <==> HasFloor(meaning, NamedKey, addr))
      && (found ==> exists row | row in meaning ::
            IsFloor(meaning, NamedKey, addr, row) && name == row.name && line == row.line)
  {
    hide ParseSection, EncodeUnits, SectionMeaning, SectionRows, IsFloor, HasFloor, NameRows, WellFormed, Closed;
    EmptyPoolClosed();
    SectionRoundTrip(us, sections, []);
    SectionNamed(section, sections, []);
    found, name, line := ResolveName(tab, section, sections, order, addr);
  }
}
