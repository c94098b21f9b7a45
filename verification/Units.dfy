/** One unit of `.debug_line` (`bw_parse_unit`): header, entry tables, line-number program. */
module Units {
  import opened Bytes
  import opened Cursors
  import opened LineTables
  import opened LinePrograms
  import opened Forms
  import opened EntryTables

  // ---- The unit length ----

  /** Length field and format: the escape value announces an 8-byte length. */
  datatype UnitLength = UnitLength(length: u64, size: OffsetSize)

  function ReadUnitLength(s: Bytes): (r: Read<UnitLength>)
    ensures !r.Overread?
    ensures r.Got? ==> |r.rest| + 4 <= |s|
  {
    var (l32, s1) :- Le(s, 4);
    LeFits(s, 4);
    if l32 == 0xffff_ffff then
      var (l64, s2) :- Le(s1, 8);
      LeFits(s1, 8);
      Got(UnitLength(l64, 8), s2)
    else Got(UnitLength(l32, 4), s1)
  }

  /** The unit fits in what is left of the section, and holds at least a version. */
  predicate Delimited(s: Bytes) {
    var r := ReadUnitLength(s);
    r.Got? && 2 <= r.value.length <= |r.rest|
  }

  /** What follows the unit: the section from the end its length declares. */
  function AfterUnit(s: Bytes): (t: Bytes)
    requires Delimited(s)
    ensures |t| + 6 <= |s|
  {
    ReadUnitLength(s).rest[ReadUnitLength(s).value.length..]
  }

  // ---- Header ----

  /** Version, and in version 5 the address size and segment selector size. */
  datatype Version = Version(version: u16, addrSize: byte, segmentSize: byte)

  function ReadVersion(s: Bytes): (r: Read<Version>)
    ensures !r.Overread?
    ensures r.Got? ==> |r.rest| <= |s|
  {
    var (v, s1) :- Le(s, 2);
    LeFits(s, 2);
    if v != 5 then Got(Version(v, 8, 0), s1) else
    var (addrSize, s2) :- Byte(s1);
    var (segmentSize, s3) :- Byte(s2);
    Got(Version(v, addrSize, segmentSize), s3)
  }

  /** Up to and including the header length. `Segmented` units are skipped. The program starts where the
      header length says, which must not be past the end of the unit. */
  datatype Prologue =
    | NoUnit
    | Segmented
    | Prologue(version: u16, size: OffsetSize, addrSize: byte, rest: Bytes, program: Bytes)

  function ReadPrologue(s: Bytes): (p: Prologue)
    ensures !p.NoUnit? ==> Delimited(s)
    ensures p.Prologue? ==> |p.rest| <= |s| && |AfterUnit(s)| <= |p.program|
  {
    if !Delimited(s) then NoUnit else
    var length := ReadUnitLength(s);
    var v := ReadVersion(length.rest);
    if v.IsFailure() then NoUnit
    else if v.value.segmentSize != 0 then Segmented
    else
      var header := Le(v.rest, length.value.size);
      if header.IsFailure() || header.value > |header.rest| - |AfterUnit(s)| then NoUnit
      else Prologue(v.value.version, length.value.size, v.value.addrSize, header.rest, header.rest[header.value..])
  }

  /** Minimum instruction length and operations per instruction, which version 4 introduced. */
  datatype Widths = Widths(minInst: byte, maxOps: byte)

  function ReadWidths(version: u16, s: Bytes): (r: Read<Widths>)
    ensures !r.Overread?
    ensures r.Got? ==> |r.rest| <= |s|
  {
    var (minInst, s1) :- Byte(s);
    if version < 4 then Got(Widths(minInst, 1), s1) else
    var (maxOps, s2) :- Byte(s1);
    Got(Widths(minInst, maxOps), s2)
  }

  /** Default statement flag (ignored), line base, line range, opcode base, operand counts. */
  datatype Opcodes = Opcodes(lineBase: byte, lineRange: byte, opcodeBase: byte, stdLen: Bytes) {
    predicate Valid() {
      lineRange > 0 && opcodeBase > 0 && |stdLen| == opcodeBase - 1
    }
  }

  function ReadOpcodes(s: Bytes): (r: Read<Opcodes>)
    ensures !r.Overread?
    ensures r.Got? ==> |r.rest| <= |s| && r.value.Valid()
  {
    var (_, s1) :- Byte(s);
    var (lineBase, s2) :- Byte(s1);
    var (lineRange, s3) :- Byte(s2);
    if lineRange == 0 then Bad(s3) else
    var (opcodeBase, s4) :- Byte(s3);
    if opcodeBase == 0 || |s4| < opcodeBase - 1 then Bad(s4) else
    Got(Opcodes(lineBase, lineRange, opcodeBase, s4[..opcodeBase - 1]), s4[opcodeBase - 1..])
  }

  /** The fixed parameters of the program; `Unusable` ones make the decoder skip the unit. */
  function ReadParameters(version: u16, addrSize: byte, s: Bytes): (r: Read<Parameters>)
    ensures !r.Overread?
    ensures r.Got? ==> |r.rest| <= |s|
  {
    var (w, s1) :- ReadWidths(version, s);
    if w.minInst == 0 || w.maxOps == 0 then Got(Unusable, s1) else
    var (o, s2) :- ReadOpcodes(s1);
    Got(Usable(Config(w.minInst, w.maxOps, SignedByte(o.lineBase), o.lineRange, o.opcodeBase, o.stdLen, addrSize)), s2)
  }

  datatype Parameters = Unusable | Usable(cfg: Config)

  function SignedByte(b: byte): int {
    if b < 128 then b else b - 256
  }

  // ---- The unit ----

  /** Result of a unit: whether it was accepted, the bytes after it, the pool, and every row its program
      emits. The bytes mean something only when it was accepted. */
  datatype Unit = Unit(status: Status, rest: Bytes, pool: Bytes, rows: seq<Row>)

  function ParseUnit(s: Bytes, sections: Sections, pool: Bytes): (u: Unit)
    requires |pool| <= STR_MAX
    ensures |u.pool| <= STR_MAX && pool <= u.pool
    ensures u.status == Accepted ==> |u.rest| + 6 <= |s|
  {
    var p := ReadPrologue(s);
    if p.NoUnit? then Unit(Rejected, [], pool, [])
    else if p.Segmented? then Unit(Accepted, AfterUnit(s), pool, [])
    else
      var params := ReadParameters(p.version, p.addrSize, p.rest);
      if params.IsFailure() then Unit(Rejected, [], pool, [])
      else if params.value.Unusable? then Unit(Accepted, AfterUnit(s), pool, [])
      else
        var t := Tables(p.version, p.size, sections, params.rest, pool);
        if t.status != Accepted then Unit(t.status, [], t.pool, []) else
        Unit(Accepted, AfterUnit(s), t.pool,
             Run(params.value.cfg, t.offs, p.program, |AfterUnit(s)|, INITIAL).rows)
  }

  /** An accepted unit leaves the cursor exactly at the end its length declares, whatever its tables and its
      program did; and it occupied at least six bytes. */
  lemma AcceptedEndsAtDeclaredLength(s: Bytes, sections: Sections, pool: Bytes)
    requires |pool| <= STR_MAX && ParseUnit(s, sections, pool).status == Accepted
    ensures Delimited(s) && ParseUnit(s, sections, pool).rest == AfterUnit(s)
    ensures |AfterUnit(s)| + 6 <= |s|
  {
    hide Tables, Run, ReadParameters;
  }

  // ---- The methods ----

  /** Outcome of the header part: the unit goes on, is skipped as a whole, or is refused. */
  datatype HeaderStatus = Proceed | SkipUnit | Refuse

  method ParseUnitLength(c: Cursor) returns (ok: bool, unitLen: u64, size: OffsetSize)
    requires c.Valid()
    modifies c`p, c`dwarf64
    ensures c.Valid()
    ensures var r := ReadUnitLength(old(c.Rest()));
      && (ok <==> r.Got?)
      && (ok ==> r == Got(UnitLength(unitLen, size), c.Rest()) && (c.dwarf64 <==> size == 8))
  {
    hide LeValue;
    ghost var s := c.Rest();
    unitLen, size := 0, 4;
    var w;
    ok, w := c.Word(4);
    if !ok {
      return;
    }
    LeFits(s, 4);
    if w == 0xffff_ffff {
      ghost var s1 := c.Rest();
      ok, w := c.Word(8);
      if !ok {
        return;
      }
      LeFits(s1, 8);
      c.dwarf64 := true;
      size := 8;
    } else {
      c.dwarf64 := false;
    }
    unitLen := w;
  }

  method ParseVersion(c: Cursor) returns (ok: bool, version: u16, addrSize: byte, segSize: byte)
    requires c.Valid()
    modifies c`p
    ensures c.Valid()
    ensures var r := ReadVersion(old(c.Rest()));
      (ok <==> r.Got?) && (ok ==> r == Got(Version(version, addrSize, segSize), c.Rest()))
  {
    hide LeValue;
    ghost var s := c.Rest();
    version, addrSize, segSize := 0, 8, 0;
    var w;
    ok, w := c.Word(2);
    if !ok {
      return;
    }
    LeFits(s, 2);
    version := w;
    if version == 5 {
      ok, addrSize := c.U8();
      if ok {
        ok, segSize := c.U8();
      }
    }
  }

  /** The unit length, and where the unit ends. */
  method ParseUnitEnd(c: Cursor) returns (ok: bool, unitEnd: nat, size: OffsetSize)
    requires c.Valid()
    modifies c`p, c`dwarf64
    ensures c.Valid()
    ensures ok <==> Delimited(old(c.Rest()))
    ensures ok ==> var length := ReadUnitLength(old(c.Rest()));
      && length.value.size == size && (c.dwarf64 <==> size == 8) && c.Rest() == length.rest
      && c.p <= unitEnd <= |c.data| && c.data[unitEnd..] == AfterUnit(old(c.Rest()))
  {
    hide ReadUnitLength;
    ghost var s := c.Rest();
    var unitLen;
    unitEnd := 0;
    ok, unitLen, size := ParseUnitLength(c);
    if !ok || unitLen < 2 || !c.Ok(unitLen) {
      return false, 0, size;
    }
    unitEnd := c.p + unitLen;
    assert c.data[unitEnd..] == c.Rest()[unitLen..] == AfterUnit(s);
  }

  /** The header length, and where the program starts. */
  method ParseHeaderLength(c: Cursor, unitEnd: nat, size: OffsetSize) returns (ok: bool, program: nat)
    requires c.Valid() && (c.dwarf64 <==> size == 8) && unitEnd <= |c.data|
    modifies c`p
    ensures c.Valid()
    ensures var header := Le(old(c.Rest()), size);
      ok <==> header.Got? && header.value <= |header.rest| - (|c.data| - unitEnd)
    ensures ok ==> program <= unitEnd
    ensures ok ==>
      var header := Le(old(c.Rest()), size);
      c.Rest() == header.rest && c.data[program..] == header.rest[header.value..]
  {
    hide LeValue;
    var headerLen;
    program := 0;
    if c.dwarf64 {
      ok, headerLen := c.Word(8);
    } else {
      ok, headerLen := c.Word(4);
    }
    if !ok || c.p + headerLen > unitEnd {
      return false, 0;
    }
    program := c.p + headerLen;
    assert c.data[program..] == c.Rest()[headerLen..];
  }

  method ParsePrologue(c: Cursor)
    returns (h: HeaderStatus, version: u16, size: OffsetSize, addrSize: byte, unitEnd: nat, program: nat)
    requires c.Valid()
    modifies c`p, c`dwarf64
    ensures c.Valid()
    ensures var p := ReadPrologue(old(c.Rest()));
      match p
      case NoUnit => h == Refuse
      case Segmented => h == SkipUnit && unitEnd <= |c.data| && c.data[unitEnd..] == AfterUnit(old(c.Rest()))
      case Prologue(_, _, _, _, _) =>
        && h == Proceed && version == p.version && size == p.size && addrSize == p.addrSize
        && c.Rest() == p.rest
        && program <= unitEnd <= |c.data| && c.data[program..] == p.program
        && c.data[unitEnd..] == AfterUnit(old(c.Rest()))
  {
    hide Le, ReadUnitLength, ReadVersion, Delimited, AfterUnit;
    ghost var s := c.Rest();
    h, version, size, addrSize, unitEnd, program := Refuse, 0, 4, 8, 0, 0;
    var ok, segSize;
    ok, unitEnd, size := ParseUnitEnd(c);
    if !ok {
      return;
    }
    ok, version, addrSize, segSize := ParseVersion(c);
    if !ok {
      return;
    }
    if segSize != 0 {
      h := SkipUnit;
      return;
    }
    ok, program := ParseHeaderLength(c, unitEnd, size);
    h := if ok then Proceed else Refuse;
  }

  method ParseWidths(c: Cursor, version: u16) returns (ok: bool, minInst: byte, maxOps: byte)
    requires c.Valid()
    modifies c`p
    ensures c.Valid()
    ensures var r := ReadWidths(version, old(c.Rest()));
      (ok <==> r.Got?) && (ok ==> r == Got(Widths(minInst, maxOps), c.Rest()))
  {
    maxOps := 1;
    ok, minInst := c.U8();
    if ok && version >= 4 {
      ok, maxOps := c.U8();
    }
  }

  method ParseOpcodes(c: Cursor) returns (ok: bool, o: Opcodes)
    requires c.Valid()
    modifies c`p
    ensures c.Valid()
    ensures var r := ReadOpcodes(old(c.Rest()));
      (ok <==> r.Got?) && (ok ==> r == Got(o, c.Rest()))
  {
    o := Opcodes(0, 1, 1, []);
    var defStmt, lineBase, lineRange, opcodeBase, stdLen;
    ok, defStmt := c.U8();
    if !ok {
      return;
    }
    ok, lineBase := c.U8();
    if !ok {
      return;
    }
    ok, lineRange := c.U8();
    if !ok || lineRange == 0 {
      return false, o;
    }
    ok, opcodeBase := c.U8();
    if !ok || opcodeBase == 0 {
      return false, o;
    }
    ok, stdLen := ReadStandardLengths(c, opcodeBase);
    o := Opcodes(lineBase, lineRange, opcodeBase, stdLen);
  }

  method ParseParameters(c: Cursor, version: u16, addrSize: byte) returns (h: HeaderStatus, cfg: Config)
    requires c.Valid()
    modifies c`p
    ensures c.Valid()
    ensures var r := ReadParameters(version, addrSize, old(c.Rest()));
      match h
      case Proceed => r == Got(Usable(cfg), c.Rest())
      case SkipUnit => r.Got? && r.value.Unusable?
      case Refuse => r.Bad?
  {
    hide ReadWidths, ReadOpcodes;
    h, cfg := Refuse, Config(1, 1, 0, 1, 1, [], 8);
    var ok, minInst, maxOps := ParseWidths(c, version);
    if !ok {
      return;
    }
    if minInst == 0 || maxOps == 0 {
      h := SkipUnit;
      return;
    }
    var o;
    ok, o := ParseOpcodes(c);
    if !ok {
      return;
    }
    h, cfg := Proceed, Config(minInst, maxOps, SignedByte(o.lineBase), o.lineRange, o.opcodeBase, o.stdLen, addrSize);
  }

  method ReadStandardLengths(c: Cursor, opcodeBase: byte) returns (ok: bool, stdLen: Bytes)
    requires c.Valid() && opcodeBase > 0
    modifies c`p
    ensures c.Valid()
    ensures var s := old(c.Rest());
      && (ok <==> |s| >= opcodeBase - 1)
      && (ok ==> stdLen == s[..opcodeBase - 1] && c.Rest() == s[opcodeBase - 1..])
  {
    stdLen := [];
    ghost var s := c.Rest();
    var i := 1;
    while i < opcodeBase
      invariant c.Valid() && 1 <= i <= opcodeBase
      invariant i - 1 <= |s| && stdLen == s[..i - 1] && c.Rest() == s[i - 1..]
    {
      var b;
      ok, b := c.U8();
      if !ok {
        return false, [];
      }
      stdLen := stdLen + [b];
      i := i + 1;
    }
    ok := true;
  }

  method ParseTables(c: Cursor, tab: LineTable, version: u16, size: OffsetSize, sections: Sections)
    returns (status: Status, files: Files)
    requires c.Valid() && tab.Valid() && Closed(tab.Pool())
    modifies c`p, tab`nstr, tab.strs
    ensures c.Valid() && tab.Valid() && Closed(tab.Pool()) && tab.Rows() == old(tab.Rows())
    ensures Reads(Tables(version, size, sections, old(c.Rest()), old(tab.Pool())), status, c.Rest(), tab.Pool(), files)
  {
    hide Tables5, Tables4, Closed, LineTable.Pool;
    if version >= 5 {
      status, files := ReadTables5(c, tab, size, sections);
    } else {
      status, files := ReadTables4(c, tab);
    }
  }

  /** `bw_parse_unit`: adds to the table, up to its capacity, the rows of `ParseUnit`, and to the pool the
      names of the unit's entries. */
  method ParseUnitOf(c: Cursor, tab: LineTable, sections: Sections) returns (status: Status)
    requires c.Valid() && tab.Valid() && Closed(tab.Pool())
    modifies c`p, c`dwarf64, tab`nrow, tab.rows, tab`nstr, tab.strs
    ensures c.Valid() && tab.Valid() && Closed(tab.Pool())
    ensures var u := ParseUnit(old(c.Rest()), sections, old(tab.Pool()));
      && status == u.status
      && tab.Pool() == u.pool
      && tab.Rows() == Capped(old(tab.Rows()) + u.rows)
      && (status == Accepted ==> c.Rest() == u.rest)
  {
    hide ReadPrologue, ReadParameters, Tables, Run, Capped;
    ghost var s, rows := c.Rest(), tab.Rows();
    NothingAppended(rows);
    var h, version, size, addrSize, unitEnd, program := ParsePrologue(c);
    if h == Refuse {
      return Rejected;
    }
    if h == SkipUnit {
      c.p := unitEnd;
      return Accepted;
    }
    var cfg;
    h, cfg := ParseParameters(c, version, addrSize);
    if h == Refuse {
      return Rejected;
    }
    if h == SkipUnit {
      c.p := unitEnd;
      return Accepted;
    }
    var files;
    status, files := ParseTables(c, tab, version, size, sections);
    if status != Accepted {
      return status;
    }
    c.p := program;
    ghost var final := RunProgram(c, tab, cfg, files, unitEnd);
    c.p := unitEnd;
    return Accepted;
  }
}
