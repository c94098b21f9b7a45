/** Rows by name: the line-number matrix of a program, independent of any pool, and the invariant that ties
    the offsets stored in rows and tables to the strings they stand for. */
module NamedRows {
  import opened Bytes
  import opened Wrappers
  import opened LineTables
  import opened LinePrograms
  import opened Forms
  import opened EntryTables
  import opened Units
  import opened LineIndex

  /** A row with the file name in place of its offset. */
  datatype NamedRow = NamedRow(addr: u64, name: CString, line: u32)

  type NameList = seq<Option<CString>>

  // ---- The matrix of a program ----

  /** The registers at each instruction that appends a row to the matrix. */
  function Snapshots(cfg: Config, prog: seq<Instr>, r: Regs): seq<Regs>
    requires Executable(cfg, prog)
    decreases |prog|
  {
    if prog == [] then [] else
    var r' := Exec(cfg, [], prog[0], r).regs;
    (if AppendsRow(prog[0]) then [r'] else []) + Snapshots(cfg, prog[1..], r')
  }

  /** The rows a table with these file offsets keeps of a matrix. */
  function RowsOf(files: Files, matrix: seq<Regs>): seq<Row>
    decreases |matrix|
  {
    if matrix == [] then [] else RowOf(files, matrix[0]) + RowsOf(files, matrix[1..])
  }

  function NamedRowOf(names: NameList, r: Regs): seq<NamedRow> {
    if r.fileIdx < |names| && names[r.fileIdx].Some? && r.address != 0 && 0 < r.line <= 0xffff_ffff
    then [NamedRow(r.address, names[r.fileIdx].value, r.line)] else []
  }

  /** The same rows, given the names of the files. */
  function NamedRowsOf(names: NameList, matrix: seq<Regs>): seq<NamedRow>
    decreases |matrix|
  {
    if matrix == [] then [] else NamedRowOf(names, matrix[0]) + NamedRowsOf(names, matrix[1..])
  }

  lemma RowsOfAppend(files: Files, a: seq<Regs>, b: seq<Regs>)
    requires |a| <= 1
    ensures RowsOf(files, a + b) == RowsOf(files, a) + RowsOf(files, b)
  {
    hide RowOf;
    if a == [] {
      assert a + b == b;
    } else {
      assert (a + b)[1..] == b;
      assert RowsOf(files, a[1..]) == [];
    }
  }

  /** The rows the interpreter emits are those of the matrix, in order: file names influence nothing else. */
  lemma {:induction false} RowsOfProgram(cfg: Config, files: Files, prog: seq<Instr>, r: Regs)
    requires Executable(cfg, prog)
    ensures ExecAll(cfg, files, prog, r).rows == RowsOf(files, Snapshots(cfg, prog, r))
    decreases |prog|
  {
    hide RowOf, Advance, MoveLine, OpAdvance, LineDelta;
    if prog != [] {
      var r' := Exec(cfg, [], prog[0], r).regs;
      var head := if AppendsRow(prog[0]) then [r'] else [];
      assert Exec(cfg, files, prog[0], r).rows == RowsOf(files, head) by {
        if AppendsRow(prog[0]) {
          assert head[1..] == [];
        }
      }
      RowsOfProgram(cfg, files, prog[1..], r');
      RowsOfAppend(files, head, Snapshots(cfg, prog[1..], r'));
    }
  }

  // ---- Offsets and names ----

  function NameRow(pool: Bytes, r: Row): NamedRow {
    NamedRow(r.addr, NameAt(pool, r.nameOff), r.line)
  }

  function NameRows(pool: Bytes, rows: seq<Row>): (n: seq<NamedRow>)
    ensures |n| == |rows|
    ensures forall k | 0 <= k < |rows| :: n[k] == NameRow(pool, rows[k])
    decreases |rows|
  {
    if rows == [] then [] else [NameRow(pool, rows[0])] + NameRows(pool, rows[1..])
  }

  lemma {:induction false} NameRowsAppend(pool: Bytes, a: seq<Row>, b: seq<Row>)
    ensures NameRows(pool, a + b) == NameRows(pool, a) + NameRows(pool, b)
  {
  }

  /** Offset `k` stands for name `k` in the pool. */
  ghost predicate Stands(pool: Bytes, off: int, name: Option<CString>) {
    match name
    case None => off == -1
    case Some(n) => StartsString(pool, off) && NameAt(pool, off) == n
  }

  ghost predicate Names(pool: Bytes, offs: Files, names: NameList) {
    |offs| == |names| && forall k | 0 <= k < |offs| :: Stands(pool, offs[k], names[k])
  }

  lemma StandsGrow(pool: Bytes, pool': Bytes, off: int, name: Option<CString>)
    requires Stands(pool, off, name) && pool <= pool'
    ensures Stands(pool', off, name)
  {
    hide NameAt, StartsString;
    if name.Some? {
      assert pool' == pool + pool'[|pool|..];
      NameStable(pool, pool'[|pool|..], off);
    }
  }

  lemma NamesGrow(pool: Bytes, pool': Bytes, offs: Files, names: NameList)
    requires Names(pool, offs, names) && pool <= pool'
    ensures Names(pool', offs, names)
  {
    hide Stands;
    forall k | 0 <= k < |offs|
      ensures Stands(pool', offs[k], names[k])
    {
      StandsGrow(pool, pool', offs[k], names[k]);
    }
  }

  /** Named or not, the rows are the same. */
  lemma {:induction false} NamedMatrix(pool: Bytes, files: Files, names: NameList, matrix: seq<Regs>)
    requires Names(pool, files, names)
    ensures NameRows(pool, RowsOf(files, matrix)) == NamedRowsOf(names, matrix)
    decreases |matrix|
  {
    hide NameAt;
    if matrix != [] {
      var r := matrix[0];
      NamedMatrix(pool, files, names, matrix[1..]);
      NameRowsAppend(pool, RowOf(files, r), RowsOf(files, matrix[1..]));
      if r.fileIdx < |files| {
        assert Stands(pool, files[r.fileIdx], names[r.fileIdx]);
      }
      assert NameRows(pool, RowOf(files, r)) == NamedRowOf(names, r);
    }
  }

  // ---- The pool over a whole parse ----

  /** Every offset handed out starts a string that is terminated inside the pool. */
  ghost predicate AllStart(pool: Bytes, offs: Files) {
    forall k | 0 <= k < |offs| :: offs[k] == -1 || StartsString(pool, offs[k])
  }

  ghost predicate RowsStart(pool: Bytes, rows: seq<Row>) {
    forall k | 0 <= k < |rows| :: StartsString(pool, rows[k].nameOff)
  }

  lemma StartsGrow(pool: Bytes, pool': Bytes, off: int)
    requires StartsString(pool, off) && pool <= pool'
    ensures StartsString(pool', off) && NameAt(pool', off) == NameAt(pool, off)
  {
    assert pool' == pool + pool'[|pool|..];
    NameStable(pool, pool'[|pool|..], off);
  }

  lemma AllStartAdd(pool: Bytes, s: Bytes, offs: Files)
    requires |pool| <= STR_MAX && Closed(pool) && AllStart(pool, offs)
    ensures var a := AddString(pool, s); Closed(a.pool) && AllStart(a.pool, offs + [a.off])
  {
    hide StartsString, AddString;
    AddStringFacts(pool, s);
    AllStartGrow(pool, AddString(pool, s).pool, offs);
  }

  lemma AllStartGrow(pool: Bytes, pool': Bytes, offs: Files)
    requires AllStart(pool, offs) && pool <= pool'
    ensures AllStart(pool', offs)
  {
    hide StartsString;
    forall k | 0 <= k < |offs| && offs[k] != -1
      ensures StartsString(pool', offs[k])
    {
      StartsGrow(pool, pool', offs[k]);
    }
  }

  /** What every table reader keeps: a closed pool, and only good offsets. */
  ghost predicate Sound(t: Interned) {
    Closed(t.pool) && AllStart(t.pool, t.offs)
  }

  lemma {:induction false} Directories4Sound(s: Bytes, pool: Bytes, dirs: Files)
    requires |pool| <= STR_MAX && Closed(pool) && AllStart(pool, dirs)
    ensures Sound(Directories4(s, pool, dirs))
    decreases |s|
  {
    hide AddString, AllStart, Closed, NameIn, AfterName;
    Directories4Step(s, pool, dirs);
    if s != [] && s[0] != 0 && |dirs| < DIRS_MAX && 0 in s {
      var a := AddString(pool, NameIn(s));
      AllStartAdd(pool, NameIn(s), dirs);
      Directories4Sound(AfterName(s), a.pool, dirs + [a.off]);
    }
  }

  lemma {:induction false} Files4Sound(s: Bytes, pool: Bytes, dirs: Files, files: Files)
    requires |pool| <= STR_MAX && Closed(pool) && AllStart(pool, files)
    ensures Sound(Files4(s, pool, dirs, files))
    decreases |s|
  {
    hide AddString, AllStart, Closed, FileEntry, Nameless, FileName;
    Files4Step(s, pool, dirs, files);
    if s != [] && s[0] != 0 && |files| < FILES_MAX && FileEntry(s).Got? {
      var r := FileEntry(s);
      if !Nameless(pool, dirs, r.value) {
        var name := FileName(pool, dirs, r.value);
        AllStartAdd(pool, name, files);
        Files4Sound(r.rest, AddString(pool, name).pool, dirs, files + [AddString(pool, name).off]);
      }
    }
  }

  lemma {:induction false} Directories5Sound(columns: seq<Column>, n: nat, size: OffsetSize, sections: Sections,
                                             s: Bytes, pool: Bytes, dirs: Files)
    requires |pool| <= STR_MAX && Closed(pool) && AllStart(pool, dirs)
    ensures Sound(Directories5(columns, n, size, sections, s, pool, dirs))
    decreases n
  {
    hide AddString, AllStart, Closed, ReadEntry;
    var r := ReadEntry(columns, false, size, sections, s, BLANK);
    if n > 0 && r.Got? {
      AllStartAdd(pool, r.value.path, dirs);
      var a := AddString(pool, r.value.path);
      Directories5Sound(columns, n - 1, size, sections, r.rest, a.pool, dirs + [a.off]);
    }
  }

  lemma {:induction false} Files5Sound(columns: seq<Column>, n: nat, size: OffsetSize, sections: Sections,
                                       s: Bytes, pool: Bytes, dirs: Files, files: Files)
    requires |pool| <= STR_MAX && Closed(pool) && AllStart(pool, files)
    ensures Sound(Files5(columns, n, size, sections, s, pool, dirs, files))
    decreases n
  {
    hide AddString, AllStart, Closed, ReadEntry, Nameless, FileName;
    var r := ReadEntry(columns, true, size, sections, s, BLANK);
    if n > 0 && r.Got? && !Nameless(pool, dirs, r.value) {
      var name := FileName(pool, dirs, r.value);
      AllStartAdd(pool, name, files);
      var a := AddString(pool, name);
      Files5Sound(columns, n - 1, size, sections, r.rest, a.pool, dirs, files + [a.off]);
    }
  }

  lemma TablesSound(version: nat, size: OffsetSize, sections: Sections, s: Bytes, pool: Bytes)
    requires |pool| <= STR_MAX && Closed(pool)
    ensures Sound(Tables(version, size, sections, s, pool))
  {
    hide AddString, Closed, StartsString, ReadTableHead, Directories4, Files4, Directories5, Files5;
    if version >= 5 {
      Tables5Steps(size, sections, s, pool);
      var head := ReadTableHead(s, DIRS_MAX);
      if head.Got? {
        Directories5Sound(head.value.columns, head.value.count, size, sections, head.rest, pool, []);
        var d := Directories5(head.value.columns, head.value.count, size, sections, head.rest, pool, []);
        var head' := ReadTableHead(d.rest, FILES_MAX);
        if d.status == Accepted && head'.Got? {
          Files5Sound(head'.value.columns, head'.value.count, size, sections, head'.rest, d.pool, d.offs, []);
        }
      }
    } else {
      AllStartAdd(pool, [], []);
      var a := AddString(pool, []);
      assert [] + [a.off] == [a.off];
      Directories4Sound(s, a.pool, [a.off]);
      var d := Directories4(s, a.pool, [a.off]);
      if d.status == Accepted {
        Files4Sound(d.rest, d.pool, d.offs, [-1]);
      }
    }
  }

  lemma {:induction false} RowsOfStart(pool: Bytes, files: Files, matrix: seq<Regs>)
    requires AllStart(pool, files)
    ensures RowsStart(pool, RowsOf(files, matrix))
    decreases |matrix|
  {
    hide StartsString;
    if matrix != [] {
      RowsOfStart(pool, files, matrix[1..]);
    }
  }

  lemma UnitSound(s: Bytes, sections: Sections, pool: Bytes)
    requires |pool| <= STR_MAX && Closed(pool)
    ensures var u := ParseUnit(s, sections, pool); Closed(u.pool) && RowsStart(u.pool, u.rows)
  {
    hide Tables, ReadPrologue, ReadParameters, StartsString, Closed, Disassemble;
    var p := ReadPrologue(s);
    if p.Prologue? {
      var params := ReadParameters(p.version, p.addrSize, p.rest);
      if params.Got? && params.value.Usable? {
        var t := Tables(p.version, p.size, sections, params.rest, pool);
        TablesSound(p.version, p.size, sections, params.rest, pool);
        var prog := Disassemble(params.value.cfg, p.program, |AfterUnit(s)|);
        RowsOfProgram(params.value.cfg, t.offs, prog, INITIAL);
        RowsOfStart(t.pool, t.offs, Snapshots(params.value.cfg, prog, INITIAL));
      }
    }
  }

  lemma RowsStartGrow(pool: Bytes, pool': Bytes, rows: seq<Row>)
    requires RowsStart(pool, rows) && pool <= pool'
    ensures RowsStart(pool', rows) && NameRows(pool', rows) == NameRows(pool, rows)
  {
    hide StartsString, NameAt;
    forall k | 0 <= k < |rows|
      ensures StartsString(pool', rows[k].nameOff) && NameRow(pool', rows[k]) == NameRow(pool, rows[k])
    {
      StartsGrow(pool, pool', rows[k].nameOff);
    }
  }

  /** Over a whole section: the pool stays within its size and closed, and every row's offset starts a string
      of the pool. No later string changes an earlier one, so the name of a row is, at the end, what it was
      when its unit was parsed. */
  lemma {:induction false} SectionSound(s: Bytes, sections: Sections, pool: Bytes)
    requires |pool| <= STR_MAX && Closed(pool)
    ensures var x := ParseSection(s, sections, pool);
      && |x.pool| <= STR_MAX && Closed(x.pool) && pool <= x.pool && RowsStart(x.pool, x.rows)
    ensures s != [] ==>
      var x, u := ParseSection(s, sections, pool), ParseUnit(s, sections, pool);
      |u.rows| <= |x.rows| && NameRows(x.pool, x.rows[..|u.rows|]) == NameRows(u.pool, u.rows)
    decreases |s|
  {
    hide ParseUnit, Closed, StartsString;
    if s != [] {
      var u := ParseUnit(s, sections, pool);
      UnitSound(s, sections, pool);
      if u.status == Accepted {
        SectionSound(u.rest, sections, u.pool);
        var y := ParseSection(u.rest, sections, u.pool);
        RowsStartGrow(u.pool, y.pool, u.rows);
        assert (u.rows + y.rows)[..|u.rows|] == u.rows;
      } else {
        assert u.rows[..|u.rows|] == u.rows;
      }
    }
  }
}
