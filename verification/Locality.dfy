/** When units disturb each other: appending bytes to a section changes nothing about the header and the tables
    of an accepted unit before them, and its rows exactly when its program leaks. */
module Locality {
  import opened Bytes
  import opened Leb128
  import opened LineTables
  import opened LinePrograms
  import opened Forms
  import opened EntryTables
  import opened Units
  import opened LineIndex
  import opened Truncation
  import opened NamedRows
  import opened EncodedTables
  import opened EncodedUnits
  import opened Wrappers

  lemma ByteStable(s: Bytes, tail: Bytes)
    requires s != []
    ensures Byte(s + tail) == Got(s[0], s[1..] + tail)
  {
    assert (s + tail)[1..] == s[1..] + tail;
  }

  // ---- The tables ----

  lemma NumbersStable(s: Bytes, tail: Bytes)
    requires FileNumbers(s).Got?
    ensures FileNumbers(s + tail) == Extend(FileNumbers(s), tail)
  {
    hide Uleb;
    UlebStable(s, tail);
    UlebStable(Uleb(s).rest, tail);
    UlebStable(Uleb(Uleb(s).rest).rest, tail);
  }

  lemma NameStays(s: Bytes, tail: Bytes)
    requires 0 in s
    ensures NameIn(s + tail) == NameIn(s) && AfterName(s + tail) == AfterName(s) + tail
  {
    hide StrLen, CStr;
    CStrStable(s, tail);
    var n := StrLen(s);
    assert (s + tail)[n] == 0;
    assert (s + tail)[n + 1..] == s[n + 1..] + tail;
  }

  lemma FileEntryStable(s: Bytes, tail: Bytes)
    requires FileEntry(s).Got?
    ensures FileEntry(s + tail) == Extend(FileEntry(s), tail)
  {
    hide NameIn, AfterName, FileNumbers;
    NameStays(s, tail);
    NumbersStable(AfterName(s), tail);
  }

  lemma {:induction false} Directories4Stable(s: Bytes, tail: Bytes, pool: Bytes, dirs: Files)
    requires |pool| <= STR_MAX && Directories4(s, pool, dirs).status == Accepted
    ensures Directories4(s + tail, pool, dirs)
         == Directories4(s, pool, dirs).(rest := Directories4(s, pool, dirs).rest + tail)
    decreases |s|
  {
    hide NameIn, AfterName, AddString, Directories4;
    Directories4Step(s, pool, dirs);
    Directories4Step(s + tail, pool, dirs);
    if s[0] != 0 && |dirs| < DIRS_MAX {
      NameStays(s, tail);
      var a := AddString(pool, NameIn(s));
      Directories4Stable(AfterName(s), tail, a.pool, dirs + [a.off]);
    } else {
      ByteStable(s, tail);
    }
  }

  lemma {:induction false} Files4Stable(s: Bytes, tail: Bytes, pool: Bytes, dirs: Files, files: Files)
    requires |pool| <= STR_MAX && Files4(s, pool, dirs, files).status == Accepted
    ensures Files4(s + tail, pool, dirs, files)
         == Files4(s, pool, dirs, files).(rest := Files4(s, pool, dirs, files).rest + tail)
    decreases |s|
  {
    hide AddString, Files4, FileEntry, Nameless, FileName;
    Files4Step(s, pool, dirs, files);
    Files4Step(s + tail, pool, dirs, files);
    if s[0] != 0 && |files| < FILES_MAX {
      FileEntryStable(s, tail);
      var r := FileEntry(s);
      var a := AddString(pool, FileName(pool, dirs, r.value));
      Files4Stable(r.rest, tail, a.pool, dirs, files + [a.off]);
    } else {
      ByteStable(s, tail);
    }
  }

  lemma {:induction false} ColumnsStable(n: nat, s: Bytes, tail: Bytes, columns: seq<Column>)
    requires ReadColumns(n, s, columns).Got?
    ensures ReadColumns(n, s + tail, columns) == Extend(ReadColumns(n, s, columns), tail)
    decreases n
  {
    hide Uleb;
    if n > 0 {
      UlebStable(s, tail);
      UlebStable(Uleb(s).rest, tail);
      var c := Column(Uleb(s).value, Uleb(Uleb(s).rest).value);
      ColumnsStable(n - 1, Uleb(Uleb(s).rest).rest, tail, columns + [c]);
    }
  }

  lemma TableHeadStable(s: Bytes, most: nat, tail: Bytes)
    requires ReadTableHead(s, most).Got?
    ensures ReadTableHead(s + tail, most) == Extend(ReadTableHead(s, most), tail)
  {
    hide Uleb, ReadColumns;
    ByteStable(s, tail);
    ColumnsStable(s[0], s[1..], tail, []);
    UlebStable(ReadFormat(s).rest, tail);
  }

  lemma {:induction false} EntryStable(columns: seq<Column>, isFile: bool, size: OffsetSize, sections: Sections,
                                       s: Bytes, tail: Bytes, e: Entry)
    requires ReadEntry(columns, isFile, size, sections, s, e).Got?
    ensures ReadEntry(columns, isFile, size, sections, s + tail, e)
         == Extend(ReadEntry(columns, isFile, size, sections, s, e), tail)
    decreases |columns|
  {
    hide FormPath, FormUdata, FormSkip;
    if columns != [] {
      var form := columns[0].form;
      if columns[0].content == CONTENT_PATH {
        FormPathStable(form, size, sections, s, tail);
        var r := FormPath(form, size, sections, s);
        EntryStable(columns[1..], isFile, size, sections, r.rest, tail, e.(path := r.value));
      } else if isFile && columns[0].content == CONTENT_DIRECTORY_INDEX {
        FormUdataStable(form, s, tail);
        var r := FormUdata(form, s);
        EntryStable(columns[1..], isFile, size, sections, r.rest, tail, e.(dir := Some(r.value)));
      } else {
        FormSkipStable(form, size, s, tail);
        EntryStable(columns[1..], isFile, size, sections, FormSkip(form, size, s).rest, tail, e);
      }
    }
  }

  lemma {:induction false} Directories5Stable(columns: seq<Column>, n: nat, size: OffsetSize, sections: Sections,
                                              s: Bytes, tail: Bytes, pool: Bytes, dirs: Files)
    requires |pool| <= STR_MAX && Directories5(columns, n, size, sections, s, pool, dirs).status == Accepted
    ensures var t := Directories5(columns, n, size, sections, s, pool, dirs);
      Directories5(columns, n, size, sections, s + tail, pool, dirs) == t.(rest := t.rest + tail)
    decreases n
  {
    hide ReadEntry, AddString;
    if n > 0 {
      EntryStable(columns, false, size, sections, s, tail, BLANK);
      var r := ReadEntry(columns, false, size, sections, s, BLANK);
      var a := AddString(pool, r.value.path);
      Directories5Stable(columns, n - 1, size, sections, r.rest, tail, a.pool, dirs + [a.off]);
    }
  }

  lemma {:induction false} Files5Stable(columns: seq<Column>, n: nat, size: OffsetSize, sections: Sections,
                                        s: Bytes, tail: Bytes, pool: Bytes, dirs: Files, files: Files)
    requires |pool| <= STR_MAX && Files5(columns, n, size, sections, s, pool, dirs, files).status == Accepted
    ensures var t := Files5(columns, n, size, sections, s, pool, dirs, files);
      Files5(columns, n, size, sections, s + tail, pool, dirs, files) == t.(rest := t.rest + tail)
    decreases n
  {
    hide ReadEntry, AddString, Nameless, FileName;
    if n > 0 {
      EntryStable(columns, true, size, sections, s, tail, BLANK);
      var r := ReadEntry(columns, true, size, sections, s, BLANK);
      var a := AddString(pool, FileName(pool, dirs, r.value));
      Files5Stable(columns, n - 1, size, sections, r.rest, tail, a.pool, dirs, files + [a.off]);
    }
  }

  lemma TablesStable(version: nat, size: OffsetSize, sections: Sections, s: Bytes, tail: Bytes, pool: Bytes)
    requires |pool| <= STR_MAX && Tables(version, size, sections, s, pool).status == Accepted
    ensures var t := Tables(version, size, sections, s, pool);
      Tables(version, size, sections, s + tail, pool) == t.(rest := t.rest + tail)
  {
    hide ReadTableHead, Directories5, Files5, Directories4, Files4, AddString, Tables5;
    if version >= 5 {
      Tables5Steps(size, sections, s, pool);
      Tables5Steps(size, sections, s + tail, pool);
      var head := ReadTableHead(s, DIRS_MAX);
      TableHeadStable(s, DIRS_MAX, tail);
      Directories5Stable(head.value.columns, head.value.count, size, sections, head.rest, tail, pool, []);
      var d := Directories5(head.value.columns, head.value.count, size, sections, head.rest, pool, []);
      TableHeadStable(d.rest, FILES_MAX, tail);
      var head' := ReadTableHead(d.rest, FILES_MAX);
      Files5Stable(head'.value.columns, head'.value.count, size, sections, head'.rest, tail, d.pool, d.offs, []);
    } else {
      var a := AddString(pool, []);
      Directories4Stable(s, tail, a.pool, [a.off]);
      var d := Directories4(s, a.pool, [a.off]);
      Files4Stable(d.rest, tail, d.pool, d.offs, [-1]);
    }
  }

  // ---- The header ----

  lemma UnitLengthStable(s: Bytes, tail: Bytes)
    requires Delimited(s)
    ensures ReadUnitLength(s + tail) == Extend(ReadUnitLength(s), tail)
    ensures Delimited(s + tail) && AfterUnit(s + tail) == AfterUnit(s) + tail
  {
    hide LeValue;
    LeStable(s, 4, tail);
    if LeValue(s[..4]) == 0xffff_ffff {
      LeStable(s[4..], 8, tail);
    }
    var r := ReadUnitLength(s);
    assert (r.rest + tail)[r.value.length..] == r.rest[r.value.length..] + tail;
  }

  lemma VersionStable(s: Bytes, tail: Bytes)
    requires ReadVersion(s).Got?
    ensures ReadVersion(s + tail) == Extend(ReadVersion(s), tail)
  {
    hide LeValue;
    LeStable(s, 2, tail);
    if LeValue(s[..2]) == 5 {
      ByteStable(s[2..], tail);
      ByteStable(s[2..][1..], tail);
    }
  }

  lemma PrologueStable(s: Bytes, tail: Bytes)
    requires !ReadPrologue(s).NoUnit?
    ensures ReadPrologue(s + tail) == match ReadPrologue(s)
      case Segmented => Segmented
      case Prologue(v, size, addrSize, rest, program) => Prologue(v, size, addrSize, rest + tail, program + tail)
  {
    hide LeValue, ReadUnitLength, ReadVersion;
    UnitLengthStable(s, tail);
    var length := ReadUnitLength(s);
    VersionStable(length.rest, tail);
    var v := ReadVersion(length.rest);
    if v.value.segmentSize == 0 {
      LeStable(v.rest, length.value.size, tail);
      var header := Le(v.rest, length.value.size);
      assert (header.rest + tail)[header.value..] == header.rest[header.value..] + tail;
    }
  }

  lemma ParametersStable(version: u16, addrSize: byte, s: Bytes, tail: Bytes)
    requires ReadParameters(version, addrSize, s).Got?
    ensures ReadParameters(version, addrSize, s + tail) == Extend(ReadParameters(version, addrSize, s), tail)
  {
    hide ReadOpcodes;
    ByteStable(s, tail);
    if version >= 4 {
      ByteStable(s[1..], tail);
    }
    var w := ReadWidths(version, s);
    if w.value.minInst != 0 && w.value.maxOps != 0 {
      OpcodesStable(w.rest, tail);
    }
  }

  lemma OpcodesStable(s: Bytes, tail: Bytes)
    requires ReadOpcodes(s).Got?
    ensures ReadOpcodes(s + tail) == Extend(ReadOpcodes(s), tail)
  {
    ByteStable(s, tail);
    ByteStable(s[1..], tail);
    ByteStable(s[1..][1..], tail);
    ByteStable(s[1..][1..][1..], tail);
    var s4 := s[1..][1..][1..][1..];
    var n := s[1..][1..][1..][0] - 1;
    assert (s4 + tail)[..n] == s4[..n] && (s4 + tail)[n..] == s4[n..] + tail;
  }

  // ---- Units ----

  /** What the loop of a unit is run on: its parameters, the bytes from the start of the program to the end of the
      section, and how many of them lie behind the unit. */
  datatype Loop = Loop(cfg: Config, code: Bytes, end: nat)

  function UnitLoop(s: Bytes): Option<Loop> {
    var p := ReadPrologue(s);
    if !p.Prologue? then None else
    var params := ReadParameters(p.version, p.addrSize, p.rest);
    if !params.Got? || params.value.Unusable? then None
    else Some(Loop(params.value.cfg, p.program, |AfterUnit(s)|))
  }

  /** The instructions executed for the unit at the front. */
  function UnitProgram(s: Bytes): seq<Instr> {
    match UnitLoop(s)
    case None => []
    case Some(l) => Disassemble(l.cfg, l.code, l.end)
  }

  /** An instruction of the unit, executed or stopped at, is truncated by the end of the section. */
  predicate UnitStarved(s: Bytes) {
    match UnitLoop(s)
    case None => false
    case Some(l) => Starved(l.cfg, l.code, l.end)
  }

  /** A `set_address` of the unit overruns the section, with a row of the unit to follow. */
  predicate UnitLeaks(s: Bytes, sections: Sections, pool: Bytes)
    requires |pool| <= STR_MAX
  {
    var p := ReadPrologue(s);
    p.Prologue? &&
    var params := ReadParameters(p.version, p.addrSize, p.rest);
    params.Got? && params.value.Usable? &&
    var files := Tables(p.version, p.size, sections, params.rest, pool).offs;
    Leaks(params.value.cfg, files, p.program, |AfterUnit(s)|, INITIAL)
  }

  ghost predicate UnitProgramLocal(s: Bytes) {
    forall tail: Bytes :: UnitProgram(s + tail) == UnitProgram(s)
  }

  lemma UnitHeadStable(s: Bytes, tail: Bytes, sections: Sections, pool: Bytes)
    requires |pool| <= STR_MAX && ParseUnit(s, sections, pool).status == Accepted
    ensures !ReadPrologue(s).NoUnit? && Delimited(s + tail) && AfterUnit(s + tail) == AfterUnit(s) + tail
    ensures var p, p' := ReadPrologue(s), ReadPrologue(s + tail);
      && (p.Segmented? ==> p' == Segmented)
      && (p.Prologue? ==>
        && p' == Prologue(p.version, p.size, p.addrSize, p.rest + tail, p.program + tail)
        && var params := ReadParameters(p.version, p.addrSize, p.rest);
           && params.Got?
           && ReadParameters(p.version, p.addrSize, p'.rest) == Extend(params, tail)
           && (params.value.Usable? ==>
              var t := Tables(p.version, p.size, sections, params.rest, pool);
              && t.status == Accepted
              && Tables(p.version, p.size, sections, params.rest + tail, pool) == t.(rest := t.rest + tail)))
  {
    hide ReadPrologue, ReadParameters, Tables, Run, Delimited, AfterUnit;
    PrologueStable(s, tail);
    UnitLengthStable(s, tail);
    var p := ReadPrologue(s);
    if p.Prologue? {
      ParametersStable(p.version, p.addrSize, p.rest, tail);
      var params := ReadParameters(p.version, p.addrSize, p.rest);
      if params.value.Usable? {
        TablesStable(p.version, p.size, sections, params.rest, tail, pool);
      }
    }
  }

  lemma UnitLoopExtends(s: Bytes, tail: Bytes, sections: Sections, pool: Bytes)
    requires |pool| <= STR_MAX && ParseUnit(s, sections, pool).status == Accepted
    ensures UnitLoop(s + tail) == match UnitLoop(s)
      case None => None
      case Some(l) => Some(Loop(l.cfg, l.code + tail, l.end + |tail|))
  {
    hide ReadPrologue, ReadParameters, Tables, ParseUnit, Delimited, AfterUnit;
    UnitHeadStable(s, tail, sections, pool);
  }

  /** Bytes behind an accepted unit leave its instructions alone exactly when none of them is truncated. */
  lemma UnitProgramLocalIff(s: Bytes, sections: Sections, pool: Bytes)
    requires |pool| <= STR_MAX && ParseUnit(s, sections, pool).status == Accepted
    ensures UnitProgramLocal(s) <==> !UnitStarved(s)
  {
    hide UnitLoop, ParseUnit, Disassemble, Starved, UnitProgram, Local;
    if UnitLoop(s).None? {
      forall tail: Bytes
        ensures UnitProgram(s + tail) == UnitProgram(s)
      {
        UnitProgramBehind(s, tail, sections, pool);
        UnitProgramBehind(s, [], sections, pool);
        assert s + [] == s;
      }
    } else {
      var l := UnitLoop(s).value;
      LocalIff(l.cfg, l.code, l.end);
      LocalUnitIsLocalProgram(s, sections, pool);
    }
  }

  lemma UnitProgramBehind(s: Bytes, tail: Bytes, sections: Sections, pool: Bytes)
    requires |pool| <= STR_MAX && ParseUnit(s, sections, pool).status == Accepted
    ensures UnitProgram(s + tail) == match UnitLoop(s)
      case None => []
      case Some(l) => Disassemble(l.cfg, l.code + tail, l.end + |tail|)
  {
    hide UnitLoop, ParseUnit, Disassemble;
    UnitLoopExtends(s, tail, sections, pool);
  }

  lemma LocalUnitIsLocalProgram(s: Bytes, sections: Sections, pool: Bytes)
    requires |pool| <= STR_MAX && ParseUnit(s, sections, pool).status == Accepted && UnitLoop(s).Some?
    ensures var l := UnitLoop(s).value; UnitProgramLocal(s) <==> Local(l.cfg, l.code, l.end)
  {
    hide UnitLoop, ParseUnit, Disassemble;
    var l := UnitLoop(s).value;
    if UnitProgramLocal(s) {
      forall tail: Bytes
        ensures Disassemble(l.cfg, l.code + tail, l.end + |tail|) == Disassemble(l.cfg, l.code, l.end)
      {
        UnitProgramBehind(s, tail, sections, pool);
        assert UnitProgram(s + tail) == UnitProgram(s);
      }
    } else {
      var tail: Bytes :| UnitProgram(s + tail) != UnitProgram(s);
      UnitProgramBehind(s, tail, sections, pool);
    }
  }

  /** Whatever follows an accepted unit, it stays accepted, adds the same names, and the same rows or more. */
  lemma UnitExtends(s: Bytes, tail: Bytes, sections: Sections, pool: Bytes)
    requires |pool| <= STR_MAX && ParseUnit(s, sections, pool).status == Accepted
    ensures var u, u' := ParseUnit(s, sections, pool), ParseUnit(s + tail, sections, pool);
      && u' == Unit(Accepted, u.rest + tail, u.pool, u'.rows) && u.rows <= u'.rows
      && (!UnitLeaks(s, sections, pool) ==> u'.rows == u.rows)
  {
    hide ReadPrologue, ReadParameters, Tables, Run, Leaks, Delimited, AfterUnit;
    UnitHeadStable(s, tail, sections, pool);
    var p := ReadPrologue(s);
    if p.Prologue? {
      var params := ReadParameters(p.version, p.addrSize, p.rest);
      if params.value.Usable? {
        var t := Tables(p.version, p.size, sections, params.rest, pool);
        RowsExtend(params.value.cfg, t.offs, p.program, |AfterUnit(s)|, INITIAL, tail);
      }
    }
  }

  lemma LeakingUnit(s: Bytes, sections: Sections, pool: Bytes) returns (tail: Bytes)
    requires |pool| <= STR_MAX && ParseUnit(s, sections, pool).status == Accepted
    requires UnitLeaks(s, sections, pool)
    ensures |ParseUnit(s, sections, pool).rows| < |ParseUnit(s + tail, sections, pool).rows|
  {
    hide ReadPrologue, ReadParameters, Tables, Run, Leaks, Delimited, AfterUnit;
    var p := ReadPrologue(s);
    var params := ReadParameters(p.version, p.addrSize, p.rest);
    var t := Tables(p.version, p.size, sections, params.rest, pool);
    tail := LeakingRows(params.value.cfg, t.offs, p.program, |AfterUnit(s)|, INITIAL);
    UnitHeadStable(s, tail, sections, pool);
  }

  /** No bytes behind the unit change what it yields. */
  ghost predicate UnitLocal(s: Bytes, sections: Sections, pool: Bytes)
    requires |pool| <= STR_MAX
  {
    var u := ParseUnit(s, sections, pool);
    forall tail: Bytes :: ParseUnit(s + tail, sections, pool) == u.(rest := u.rest + tail)
  }

  /** That is the case for an accepted unit exactly when it does not leak. */
  lemma UnitLocalIff(s: Bytes, sections: Sections, pool: Bytes)
    requires |pool| <= STR_MAX && ParseUnit(s, sections, pool).status == Accepted
    ensures UnitLocal(s, sections, pool) <==> !UnitLeaks(s, sections, pool)
  {
    hide ParseUnit, UnitLeaks;
    var u := ParseUnit(s, sections, pool);
    if UnitLeaks(s, sections, pool) {
      var tail := LeakingUnit(s, sections, pool);
      assert ParseUnit(s + tail, sections, pool) != u.(rest := u.rest + tail);
    } else {
      forall tail: Bytes
        ensures ParseUnit(s + tail, sections, pool) == u.(rest := u.rest + tail)
      {
        UnitExtends(s, tail, sections, pool);
      }
    }
  }

  // ---- Sections ----

  /** Some unit of the section leaks. */
  predicate SectionLeaks(s: Bytes, sections: Sections, pool: Bytes)
    requires |pool| <= STR_MAX
    decreases |s|
  {
    s != [] &&
    var u := ParseUnit(s, sections, pool);
    u.status == Accepted && (UnitLeaks(s, sections, pool) || SectionLeaks(u.rest, sections, u.pool))
  }

  /** Parsing one section and then another with the same table. */
  function OneThenOther(a: Bytes, b: Bytes, sections: Sections, pool: Bytes): Index
    requires |pool| <= STR_MAX
  {
    var x := ParseSection(a, sections, pool);
    var y := ParseSection(b, sections, x.pool);
    Index(y.status, y.pool, x.rows + y.rows)
  }

  lemma {:induction false} SectionExtends(a: Bytes, b: Bytes, sections: Sections, pool: Bytes)
    requires |pool| <= STR_MAX && ParseSection(a, sections, pool).status == Accepted
    ensures var both, j := ParseSection(a + b, sections, pool), OneThenOther(a, b, sections, pool);
      && both.status == j.status && both.pool == j.pool && |both.rows| >= |j.rows|
      && (!SectionLeaks(a, sections, pool) ==> both == j)
    decreases |a|
  {
    hide ParseUnit, UnitLeaks;
    if a == [] {
      assert a + b == b;
      assert [] + ParseSection(b, sections, pool).rows == ParseSection(b, sections, pool).rows;
    } else {
      UnitExtends(a, b, sections, pool);
      var u := ParseUnit(a, sections, pool);
      SectionExtends(u.rest, b, sections, u.pool);
      var x := ParseSection(u.rest, sections, u.pool);
      var y := ParseSection(b, sections, x.pool);
      assert u.rows + (x.rows + y.rows) == (u.rows + x.rows) + y.rows;
    }
  }

  lemma {:induction false} LeakingSection(a: Bytes, sections: Sections, pool: Bytes) returns (b: Bytes)
    requires |pool| <= STR_MAX && ParseSection(a, sections, pool).status == Accepted
    requires SectionLeaks(a, sections, pool)
    ensures |OneThenOther(a, b, sections, pool).rows| < |ParseSection(a + b, sections, pool).rows|
    decreases |a|
  {
    hide ParseUnit, UnitLeaks;
    var u := ParseUnit(a, sections, pool);
    if UnitLeaks(a, sections, pool) {
      b := LeakingUnit(a, sections, pool);
      SectionExtends(u.rest, b, sections, u.pool);
    } else {
      b := LeakingSection(u.rest, sections, u.pool);
    }
    UnitExtends(a, b, sections, pool);
  }

  /** Whatever follows, parsing the two together is parsing the one and then the other. */
  ghost predicate SectionLocal(a: Bytes, sections: Sections, pool: Bytes)
    requires |pool| <= STR_MAX
  {
    forall b: Bytes :: ParseSection(a + b, sections, pool) == OneThenOther(a, b, sections, pool)
  }

  /** That is the case for a section of accepted units exactly when none of them leaks. */
  lemma SectionsConcatenate(a: Bytes, sections: Sections, pool: Bytes)
    requires |pool| <= STR_MAX && ParseSection(a, sections, pool).status == Accepted
    ensures SectionLocal(a, sections, pool) <==> !SectionLeaks(a, sections, pool)
  {
    hide ParseSection, SectionLeaks, OneThenOther;
    if SectionLeaks(a, sections, pool) {
      var b := LeakingSection(a, sections, pool);
      assert ParseSection(a + b, sections, pool) != OneThenOther(a, b, sections, pool);
    } else {
      forall b: Bytes
        ensures ParseSection(a + b, sections, pool) == OneThenOther(a, b, sections, pool)
      {
        SectionExtends(a, b, sections, pool);
      }
    }
  }

  // ---- A section that leaks ----

  const SAMPLE: Config := Config(1, 1, 0, 1, 13, [0, 1, 1, 1, 1, 0, 0, 0, 1, 0, 0, 1], 8)

  const NO_STRINGS := Sections([], [])

  /** A version 2 unit with the file `a` and no directories. */
  const FRAME := SourceUnit(false, 2, SAMPLE, 1, Layout4([], [FileEntry4([97], 0, 0, 0)]), [], [])

  /** Its program: a `set_address` of one byte, that is, without an operand; and, as the decoder goes on behind the
      declared length, a copy. */
  const CODE: Bytes := [0, 1, 2, 1]

  /** The section, byte by byte: length, version, header length, parameters, tables, program. */
  const LEAKING: Bytes :=
    [34, 0, 0, 0] + [2, 0] + [24, 0, 0, 0]
    + [1, 1, 0, 1, 13, 0, 1, 1, 1, 1, 0, 0, 0, 1, 0, 0, 1] + [0, 97, 0, 0, 0, 0, 0] + [0, 1, 2, 1]

  lemma TruncatedSetAddress(behind: Bytes)
    ensures var s := CODE + behind;
      Decode(SAMPLE, s) == if |behind| < 7 then Stop else
      (LeFits([1] + behind, 8); Decoded(SetAddress(LeValue(([1] + behind)[..8])), [1] + behind, true))
  {
    hide Uleb, LeValue;
    var s, body := CODE + behind, [2, 1] + behind;
    OneByteUleb(1, body);
    assert s[1..] == [1] + body;
    assert body[1..] == [1] + behind;
    if |behind| >= 7 {
      LeFits([1] + behind, 8);
    }
  }

  lemma OneByteUleb(b: byte, tail: Bytes)
    requires b < 128
    ensures Uleb([b] + tail) == Got(b, tail)
  {
    UlebRoundTrip(b, tail);
  }

  lemma AddressOne(s: Bytes)
    requires s == [1, 0, 0, 0, 0, 0, 0, 0]
    ensures LeValue(s) == 1
  {
    hide LeValue, LeBytes;
    OneLe();
    Pow256Words();
    LeRoundTrip(1, 8);
  }

  lemma OneLe()
    ensures LeBytes(1, 8) == [1, 0, 0, 0, 0, 0, 0, 0]
  {
    assert LeBytes(0, 3) == [0, 0, 0];
    assert LeBytes(0, 5) == [0, 0] + LeBytes(0, 3);
    assert LeBytes(0, 7) == [0, 0] + LeBytes(0, 5);
  }

  lemma CopyInFront(next: Bytes)
    ensures Decode(SAMPLE, [1] + next) == Decoded(Copy, next, true)
  {
    assert ([1] + next)[1..] == next;
  }

  lemma LeakingProgram()
    ensures Disassemble(SAMPLE, CODE, 0) == []
    ensures Disassemble(SAMPLE, CODE + ZEROS, 8) == [SetAddress(1), Copy]
  {
    hide Decode, LeValue;
    TruncatedSetAddress([]);
    assert CODE + [] == CODE;
    TruncatedSetAddress(ZEROS);
    var rest := [1] + ZEROS;
    AddressOne(rest[..8]);
    CopyInFront(ZEROS);
    assert Disassemble(SAMPLE, ZEROS, 8) == [];
    assert Disassemble(SAMPLE, rest, 8) == [Copy];
  }

  lemma FrameFits()
    ensures TablesFit(FRAME.tables, 4, NO_STRINGS)
    ensures Framed(FRAME, CODE, NO_STRINGS) && UnitRoom(FRAME, NO_STRINGS) <= STR_MAX
    ensures FileNames(FRAME.tables, 4, NO_STRINGS) == [None, Some([97])]
  {
  }

  /** The eight zero bytes by themselves are a unit of length zero, which is refused. */
  lemma ZerosRefused(pool: Bytes)
    requires |pool| <= STR_MAX
    ensures ParseSection(ZEROS, NO_STRINGS, pool) == Index(Rejected, pool, [])
  {
    hide ParseUnit, ReadPrologue;
    ZeroLength();
    UndelimitedRefused(ZEROS, NO_STRINGS, pool);
  }

  lemma ZeroLength()
    ensures !Delimited(ZEROS)
  {
    hide LeValue;
    ZeroWord(ZEROS[..4]);
  }

  lemma UndelimitedRefused(s: Bytes, sections: Sections, pool: Bytes)
    requires |pool| <= STR_MAX && !Delimited(s)
    ensures ParseUnit(s, sections, pool) == Unit(Rejected, [], pool, [])
  {
    hide Delimited, ReadUnitLength, ReadVersion, Le, Tables, ReadParameters, Run;
  }

  lemma {:induction false} ZeroWord(s: Bytes)
    requires forall k | 0 <= k < |s| :: s[k] == 0
    ensures LeValue(s) == 0
    decreases |s|
  {
    if s != [] {
      ZeroWord(s[1..]);
    }
  }

  lemma SmallWord(v: byte)
    ensures LeBytes(v, 4) == [v, 0, 0, 0] && LeBytes(v, 2) == [v, 0]
  {
    assert LeBytes(0, 1) == [0];
    assert LeBytes(0, 3) == [0] + LeBytes(0, 2) == [0, 0, 0];
  }

  lemma FrameTables()
    ensures EncodeTables4([], [FileEntry4([97], 0, 0, 0)]) == [0, 97, 0, 0, 0, 0, 0]
  {
    var files := [FileEntry4([97], 0, 0, 0)];
    assert files[1..] == [];
    assert EncodeFile4(files[0]) == [97, 0, 0, 0, 0];
    assert EncodeFiles4(files) == [97, 0, 0, 0, 0];
  }

  lemma FrameBytes()
    ensures EncodeHeader(FRAME) ==
      [1, 1, 0, 1, 13, 0, 1, 1, 1, 1, 0, 0, 0, 1, 0, 0, 1] + [0, 97, 0, 0, 0, 0, 0]
  {
    hide EncodeTables4;
    FrameTables();
    assert EncodeParameters(2, SAMPLE, 1) == [1, 1, 0, 1, 13, 0, 1, 1, 1, 1, 0, 0, 0, 1, 0, 0, 1];
  }

  lemma LeakingBytes()
    ensures LEAKING == EncodeWith(FRAME, CODE)
  {
    hide EncodeHeader, LeBytes;
    FrameBytes();
    SmallWord(2);
    SmallWord(24);
    SmallWord(34);
    assert EncodeBodyWith(FRAME, CODE) == [2, 0] + ([24, 0, 0, 0] + (EncodeHeader(FRAME) + CODE));
  }

  lemma LeakingMeaning()
    requires TablesFit(FRAME.tables, 4, NO_STRINGS)
    requires FileNames(FRAME.tables, 4, NO_STRINGS) == [None, Some([97])]
    ensures ProgramMeaning(FRAME, [], NO_STRINGS) == []
    ensures ProgramMeaning(FRAME, [SetAddress(1), Copy], NO_STRINGS) == [NamedRow(1, [97], 1)]
  {
    hide FileNames, TablesFit;
    var r := INITIAL.(address := 1);
    assert [SetAddress(1), Copy][1..] == [Copy] && [Copy][1..] == [];
    assert Snapshots(SAMPLE, [Copy], r) == [r];
    assert Snapshots(SAMPLE, [SetAddress(1), Copy], INITIAL) == [r];
    assert NamedRowOf([None, Some([97])], r) == [NamedRow(1, [97], 1)];
    assert [r][1..] == [];
  }

  lemma UnitThenRest(s: Bytes, sections: Sections, pool: Bytes)
    requires |pool| <= STR_MAX && ParseUnit(s, sections, pool).status == Accepted
    ensures var u := ParseUnit(s, sections, pool);
      var x := ParseSection(u.rest, sections, u.pool);
      ParseSection(s, sections, pool) == Index(x.status, x.pool, u.rows + x.rows)
  {
    hide ParseUnit;
    AcceptedNotEmpty(s, sections, pool);
  }

  /** Alone this section yields no row; followed by bytes that yield none either, it yields one. */
  lemma TruncatedOperandReadsOn()
    ensures var alone, both := ParseSection(LEAKING, NO_STRINGS, []), ParseSection(LEAKING + ZEROS, NO_STRINGS, []);
      && alone.status == Accepted && alone.rows == []
      && ParseSection(ZEROS, NO_STRINGS, alone.pool).rows == []
      && NameRows(both.pool, both.rows) == [NamedRow(1, [97], 1)]
    ensures SectionLeaks(LEAKING, NO_STRINGS, [])
  {
    hide ParseUnit, EncodeWith, Framed, Disassemble, TablesFit, FileNames, ProgramMeaning, UnitRoom, SectionLeaks;
    LeakingBytes();
    FrameFits();
    LeakingProgram();
    LeakingMeaning();
    FrameRoundTrip(FRAME, CODE, NO_STRINGS, [], []);
    FrameRoundTrip(FRAME, CODE, NO_STRINGS, ZEROS, []);
    assert LEAKING + [] == LEAKING && CODE + [] == CODE;
    UnitThenRest(LEAKING, NO_STRINGS, []);
    UnitThenRest(LEAKING + ZEROS, NO_STRINGS, []);
    var u, u' := ParseUnit(LEAKING, NO_STRINGS, []), ParseUnit(LEAKING + ZEROS, NO_STRINGS, []);
    ZerosRefused(u.pool);
    ZerosRefused(u'.pool);
    assert u'.rows + [] == u'.rows;
    assert OneThenOther(LEAKING, ZEROS, NO_STRINGS, []).rows == [];
    SectionsConcatenate(LEAKING, NO_STRINGS, []);
  }

  /** A refusal, by contrast, may only be for want of bytes: the first four bytes of that section are refused. */
  lemma PrefixRefused()
    ensures [34, 0, 0, 0] <= LEAKING
    ensures ParseSection([34, 0, 0, 0], NO_STRINGS, []).status == Rejected
    ensures ParseSection(LEAKING, NO_STRINGS, []).status == Accepted
  {
    hide LeValue, LeBytes, ParseUnit, ParseSection;
    TruncatedOperandReadsOn();
    SmallWord(34);
    Pow256Words();
    LeRoundTrip(34, 4);
    TooShort([34, 0, 0, 0]);
    UndelimitedRefused([34, 0, 0, 0], NO_STRINGS, []);
    RefusedAlone([34, 0, 0, 0]);
  }

  lemma TooShort(s: Bytes)
    requires |s| == 4 && LeValue(s) == 34
    ensures !Delimited(s)
  {
    hide LeValue;
    assert s[..4] == s;
  }

  lemma RefusedAlone(s: Bytes)
    requires s != [] && ParseUnit(s, NO_STRINGS, []).status == Rejected
    ensures ParseSection(s, NO_STRINGS, []).status == Rejected
  {
    hide ParseUnit;
  }
}
