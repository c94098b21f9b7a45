/** What any section means by name. The names a table interns are those of the entries that stand in its bytes,
    clipped where the pool is full; so the rows of a section, by name, are determined by its bytes alone. */
module NamedSections {
  import opened Bytes
  import opened Paths
  import opened Wrappers
  import opened LineTables
  import opened LinePrograms
  import opened Forms
  import opened EntryTables
  import opened Units
  import opened LineIndex
  import opened Sorting
  import opened NamedRows
  import opened EncodedTables

  // ---- Interning a list ----

  /** What a pool with `used` bytes keeps of a string: as much as there is room for, nothing when it is full. */
  function Kept(used: nat, s: Bytes): Option<CString> {
    if used >= STR_MAX then None else Some(CStr(Take(s, STR_MAX - used - 1)))
  }

  function UsedAfter(used: nat, s: Bytes): (n: nat)
    ensures used <= STR_MAX ==> n <= STR_MAX
  {
    if Kept(used, s).None? then used else used + |Kept(used, s).value| + 1
  }

  function KeptAll(used: nat, names: seq<Bytes>): (n: NameList)
    ensures |n| == |names|
    decreases |names|
  {
    if names == [] then [] else [Kept(used, names[0])] + KeptAll(UsedAfter(used, names[0]), names[1..])
  }

  function UsedAfterAll(used: nat, names: seq<Bytes>): nat
    decreases |names|
  {
    if names == [] then used else UsedAfterAll(UsedAfter(used, names[0]), names[1..])
  }

  /** With room for all of them, names are kept whole. */
  lemma {:induction false} KeptWhole(used: nat, names: seq<CString>)
    requires used + Room(names) <= STR_MAX
    ensures KeptAll(used, names) == SomeNames(names)
    decreases |names|
  {
    hide Kept;
    if names != [] {
      KeptOne(used, names[0]);
      KeptWhole(used + |names[0]| + 1, names[1..]);
    }
  }

  lemma KeptOne(used: nat, name: CString)
    requires used + |name| < STR_MAX
    ensures Kept(used, name) == Some(name)
  {
    hide StrLen;
    assert name[..|name|] == name;
    StrLenUnique(name, |name|);
  }

  lemma KeptIsAdded(pool: Bytes, offs: Files, names: NameList, s: Bytes)
    requires |pool| <= STR_MAX && Closed(pool) && Names(pool, offs, names)
    ensures var a := AddString(pool, s);
      && Closed(a.pool) && |a.pool| == UsedAfter(|pool|, s)
      && Names(a.pool, offs + [a.off], names + [Kept(|pool|, s)])
  {
    hide StartsString, NameAt, CStr, Closed, Stands;
    var a := AddString(pool, s);
    AddStringFacts(pool, s);
    NamesGrow(pool, a.pool, offs, names);
    KeptStands(pool, s);
  }

  lemma KeptStands(pool: Bytes, s: Bytes)
    requires |pool| <= STR_MAX && Closed(pool)
    ensures var a := AddString(pool, s); Stands(a.pool, a.off, Kept(|pool|, s))
  {
    hide StartsString, NameAt, CStr, Closed;
    AddStringFacts(pool, s);
  }

  // ---- The entries that stand in the bytes ----

  function Directories4In(s: Bytes, n: nat): seq<Bytes>
    decreases |s|
  {
    if s == [] || s[0] == 0 || n >= DIRS_MAX || 0 !in s then [] else
    [NameIn(s)] + Directories4In(AfterName(s), n + 1)
  }

  function Files4In(s: Bytes, n: nat): seq<Entry>
    decreases |s|
  {
    if s == [] || s[0] == 0 || n >= FILES_MAX || !FileEntry(s).Got? then [] else
    [FileEntry(s).value] + Files4In(FileEntry(s).rest, n + 1)
  }

  function Entries5In(columns: seq<Column>, n: nat, isFile: bool, size: OffsetSize, sections: Sections, s: Bytes)
    : seq<Entry>
    decreases n
  {
    var r := ReadEntry(columns, isFile, size, sections, s, BLANK);
    if n == 0 || !r.Got? then [] else [r.value] + Entries5In(columns, n - 1, isFile, size, sections, r.rest)
  }

  function PathsOf(entries: seq<Entry>): seq<Bytes>
    decreases |entries|
  {
    if entries == [] then [] else [entries[0].path] + PathsOf(entries[1..])
  }

  /** The name of a file: joined with its directory and clipped to the join buffer, when its directory has a name. */
  function FullName(dirs: NameList, e: Entry): CString {
    if e.dir.Some? && e.dir.value < |dirs| && dirs[e.dir.value].Some?
    then Take(IdealJoin(dirs[e.dir.value].value, e.path), 511) else e.path
  }

  function FullNames(dirs: NameList, entries: seq<Entry>): seq<Bytes>
    decreases |entries|
  {
    if entries == [] then [] else [FullName(dirs, entries[0])] + FullNames(dirs, entries[1..])
  }

  lemma FileNameIsFull(pool: Bytes, offs: Files, dirs: NameList, e: Entry)
    requires Names(pool, offs, dirs)
    ensures FileName(pool, offs, e) == FullName(dirs, e)
  {
    hide NameAt, IdealJoin;
    if e.dir.Some? && e.dir.value < |offs| {
      assert Stands(pool, offs[e.dir.value], dirs[e.dir.value]);
    }
  }

  // ---- Tables by name ----

  /** The offsets of an accepted table stand for these names, and the pool grew by what they take. */
  ghost predicate Interns(t: Interned, used: nat, names: NameList) {
    Closed(t.pool) && |t.pool| == used && Names(t.pool, t.offs, names)
  }

  lemma NothingInterned(t: Interned, names: NameList)
    requires Closed(t.pool) && Names(t.pool, t.offs, names)
    ensures Interns(t, UsedAfterAll(|t.pool|, []), names + KeptAll(|t.pool|, []))
  {
    assert names + KeptAll(|t.pool|, []) == names;
  }

  lemma KeptMove(used: nat, before: NameList, names: seq<Bytes>)
    requires names != []
    ensures before + KeptAll(used, names)
         == before + [Kept(used, names[0])] + KeptAll(UsedAfter(used, names[0]), names[1..])
    ensures UsedAfterAll(used, names) == UsedAfterAll(UsedAfter(used, names[0]), names[1..])
  {
    hide Kept, UsedAfter;
  }

  lemma {:induction false} Directories4Named(s: Bytes, pool: Bytes, offs: Files, names: NameList)
    requires |pool| <= STR_MAX && Closed(pool) && Names(pool, offs, names)
    requires Directories4(s, pool, offs).status == Accepted
    ensures var list := Directories4In(s, |offs|);
      Interns(Directories4(s, pool, offs), UsedAfterAll(|pool|, list), names + KeptAll(|pool|, list))
    decreases |s|
  {
    hide NameIn, AfterName, AddString, Directories4, Closed, Names, Kept, UsedAfter, Interns;
    Directories4Step(s, pool, offs);
    var list := Directories4In(s, |offs|);
    if s[0] != 0 && |offs| < DIRS_MAX {
      var name, rest := NameIn(s), AfterName(s);
      var a := AddString(pool, name);
      KeptIsAdded(pool, offs, names, name);
      Directories4Named(rest, a.pool, offs + [a.off], names + [Kept(|pool|, name)]);
      assert list[1..] == Directories4In(rest, |offs| + 1);
      KeptMove(|pool|, names, list);
    } else {
      NothingInterned(Directories4(s, pool, offs), names);
    }
  }

  lemma {:induction false} Files4Named(s: Bytes, pool: Bytes, dirOffs: Files, dirs: NameList,
                                       offs: Files, names: NameList)
    requires |pool| <= STR_MAX && Closed(pool) && Names(pool, dirOffs, dirs) && Names(pool, offs, names)
    requires Files4(s, pool, dirOffs, offs).status == Accepted
    ensures var list := FullNames(dirs, Files4In(s, |offs|));
      Interns(Files4(s, pool, dirOffs, offs), UsedAfterAll(|pool|, list), names + KeptAll(|pool|, list))
    decreases |s|
  {
    hide AddString, Files4, FileEntry, Nameless, FileName, FullName, Closed, Names, Kept, UsedAfter, Interns;
    Files4Step(s, pool, dirOffs, offs);
    var entries := Files4In(s, |offs|);
    if s[0] != 0 && |offs| < FILES_MAX {
      var e, rest := FileEntry(s).value, FileEntry(s).rest;
      var name := FullName(dirs, e);
      var a := AddString(pool, name);
      FileNameIsFull(pool, dirOffs, dirs, e);
      KeptIsAdded(pool, offs, names, name);
      NamesGrow(pool, a.pool, dirOffs, dirs);
      Files4Named(rest, a.pool, dirOffs, dirs, offs + [a.off], names + [Kept(|pool|, name)]);
      assert entries[1..] == Files4In(rest, |offs| + 1);
      FullNamesMove(|pool|, dirs, names, entries);
    } else {
      NothingInterned(Files4(s, pool, dirOffs, offs), names);
    }
  }

  lemma FullNamesMove(used: nat, dirs: NameList, before: NameList, entries: seq<Entry>)
    requires entries != []
    ensures var list, name := FullNames(dirs, entries), FullName(dirs, entries[0]);
      var rest := FullNames(dirs, entries[1..]);
      && before + KeptAll(used, list) == before + [Kept(used, name)] + KeptAll(UsedAfter(used, name), rest)
      && UsedAfterAll(used, list) == UsedAfterAll(UsedAfter(used, name), rest)
  {
    hide FullName;
    var list := FullNames(dirs, entries);
    assert list[1..] == FullNames(dirs, entries[1..]);
    KeptMove(used, before, list);
  }

  lemma {:induction false} Directories5Named(columns: seq<Column>, n: nat, size: OffsetSize, sections: Sections,
                                             s: Bytes, pool: Bytes, offs: Files, names: NameList)
    requires |pool| <= STR_MAX && Closed(pool) && Names(pool, offs, names)
    requires Directories5(columns, n, size, sections, s, pool, offs).status == Accepted
    ensures var list := PathsOf(Entries5In(columns, n, false, size, sections, s));
      Interns(Directories5(columns, n, size, sections, s, pool, offs),
              UsedAfterAll(|pool|, list), names + KeptAll(|pool|, list))
    decreases n
  {
    hide ReadEntry, AddString, Closed, Names, Kept, UsedAfter, Interns;
    var entries := Entries5In(columns, n, false, size, sections, s);
    if n > 0 {
      var r := ReadEntry(columns, false, size, sections, s, BLANK);
      var a := AddString(pool, r.value.path);
      KeptIsAdded(pool, offs, names, r.value.path);
      Directories5Named(columns, n - 1, size, sections, r.rest, a.pool, offs + [a.off],
                        names + [Kept(|pool|, r.value.path)]);
      assert entries[1..] == Entries5In(columns, n - 1, false, size, sections, r.rest);
      PathsMove(|pool|, names, entries);
    } else {
      NothingInterned(Directories5(columns, n, size, sections, s, pool, offs), names);
    }
  }

  lemma PathsMove(used: nat, before: NameList, entries: seq<Entry>)
    requires entries != []
    ensures var list, path := PathsOf(entries), entries[0].path;
      var rest := PathsOf(entries[1..]);
      && before + KeptAll(used, list) == before + [Kept(used, path)] + KeptAll(UsedAfter(used, path), rest)
      && UsedAfterAll(used, list) == UsedAfterAll(UsedAfter(used, path), rest)
  {
    var list := PathsOf(entries);
    assert list[1..] == PathsOf(entries[1..]);
    KeptMove(used, before, list);
  }

  lemma {:induction false} Files5Named(columns: seq<Column>, n: nat, size: OffsetSize, sections: Sections,
                                       s: Bytes, pool: Bytes, dirOffs: Files, dirs: NameList,
                                       offs: Files, names: NameList)
    requires |pool| <= STR_MAX && Closed(pool) && Names(pool, dirOffs, dirs) && Names(pool, offs, names)
    requires Files5(columns, n, size, sections, s, pool, dirOffs, offs).status == Accepted
    ensures var list := FullNames(dirs, Entries5In(columns, n, true, size, sections, s));
      Interns(Files5(columns, n, size, sections, s, pool, dirOffs, offs),
              UsedAfterAll(|pool|, list), names + KeptAll(|pool|, list))
    decreases n
  {
    hide ReadEntry, AddString, Nameless, FileName, FullName, Closed, Names, Kept, UsedAfter, Interns;
    var entries := Entries5In(columns, n, true, size, sections, s);
    if n > 0 {
      var r := ReadEntry(columns, true, size, sections, s, BLANK);
      var name := FullName(dirs, r.value);
      var a := AddString(pool, name);
      FileNameIsFull(pool, dirOffs, dirs, r.value);
      KeptIsAdded(pool, offs, names, name);
      NamesGrow(pool, a.pool, dirOffs, dirs);
      Files5Named(columns, n - 1, size, sections, r.rest, a.pool, dirOffs, dirs, offs + [a.off],
                  names + [Kept(|pool|, name)]);
      assert entries[1..] == Entries5In(columns, n - 1, true, size, sections, r.rest);
      FullNamesMove(|pool|, dirs, names, entries);
    } else {
      NothingInterned(Files5(columns, n, size, sections, s, pool, dirOffs, offs), names);
    }
  }

  // ---- The names of a unit's files ----

  /** Names by file index, and the bytes of the pool in use afterwards. */
  datatype TableNames = TableNames(files: NameList, used: nat)

  /** Where the file table of an accepted table starts is read off the bytes, too. */
  function AfterDirectories4(s: Bytes, n: nat): Bytes
    decreases |s|
  {
    if s != [] && s[0] != 0 && n < DIRS_MAX && 0 in s then AfterDirectories4(AfterName(s), n + 1)
    else if s == [] then [] else s[1..]
  }

  function AfterEntries5(columns: seq<Column>, n: nat, isFile: bool, size: OffsetSize, sections: Sections, s: Bytes)
    : Bytes
    decreases n
  {
    var r := ReadEntry(columns, isFile, size, sections, s, BLANK);
    if n == 0 || !r.Got? then s else AfterEntries5(columns, n - 1, isFile, size, sections, r.rest)
  }

  function Names4(s: Bytes, used: nat): TableNames {
    var dirs := [[]] + Directories4In(s, 1);
    var files := FullNames(KeptAll(used, dirs), Files4In(AfterDirectories4(s, 1), 1));
    var used1 := UsedAfterAll(used, dirs);
    TableNames([None] + KeptAll(used1, files), UsedAfterAll(used1, files))
  }

  function Names5(size: OffsetSize, sections: Sections, s: Bytes, used: nat): TableNames {
    var d := ReadTableHead(s, DIRS_MAX);
    if !d.Got? then TableNames([], used) else
    var dirs := PathsOf(Entries5In(d.value.columns, d.value.count, false, size, sections, d.rest));
    var f := ReadTableHead(AfterEntries5(d.value.columns, d.value.count, false, size, sections, d.rest), FILES_MAX);
    if !f.Got? then TableNames([], used) else
    var entries := Entries5In(f.value.columns, f.value.count, true, size, sections, f.rest);
    var files := FullNames(KeptAll(used, dirs), entries);
    var used1 := UsedAfterAll(used, dirs);
    TableNames(KeptAll(used1, files), UsedAfterAll(used1, files))
  }

  function NamesIn(version: nat, size: OffsetSize, sections: Sections, s: Bytes, used: nat): TableNames {
    if version >= 5 then Names5(size, sections, s, used) else Names4(s, used)
  }

  lemma {:induction false} Directories4End(s: Bytes, pool: Bytes, offs: Files)
    requires |pool| <= STR_MAX && Directories4(s, pool, offs).status == Accepted
    ensures Directories4(s, pool, offs).rest == AfterDirectories4(s, |offs|)
    decreases |s|
  {
    hide NameIn, AfterName, AddString, Directories4;
    Directories4Step(s, pool, offs);
    if s[0] != 0 && |offs| < DIRS_MAX {
      var a := AddString(pool, NameIn(s));
      Directories4End(AfterName(s), a.pool, offs + [a.off]);
    }
  }

  lemma {:induction false} Directories5End(columns: seq<Column>, n: nat, size: OffsetSize, sections: Sections,
                                           s: Bytes, pool: Bytes, offs: Files)
    requires |pool| <= STR_MAX && Directories5(columns, n, size, sections, s, pool, offs).status == Accepted
    ensures Directories5(columns, n, size, sections, s, pool, offs).rest
         == AfterEntries5(columns, n, false, size, sections, s)
    decreases n
  {
    hide ReadEntry, AddString;
    if n > 0 {
      var r := ReadEntry(columns, false, size, sections, s, BLANK);
      var a := AddString(pool, r.value.path);
      Directories5End(columns, n - 1, size, sections, r.rest, a.pool, offs + [a.off]);
    }
  }

  lemma Tables4Named(s: Bytes, pool: Bytes)
    requires |pool| <= STR_MAX && Closed(pool) && Tables4(s, pool).status == Accepted
    ensures Interns(Tables4(s, pool), Names4(s, |pool|).used, Names4(s, |pool|).files)
  {
    hide AddString, Directories4, Files4, Closed, Names, Kept, UsedAfter, Directories4In, Files4In, FullNames,
      AfterDirectories4;
    var list := Directories4In(s, 1);
    var a := AddString(pool, []);
    EmptyNames(pool);
    KeptIsAdded(pool, [], [], []);
    assert [] + [a.off] == [a.off] && [] + [Kept(|pool|, [])] == [Kept(|pool|, [])];
    Directories4Named(s, a.pool, [a.off], [Kept(|pool|, [])]);
    assert ([[]] + list)[1..] == list;
    KeptMove(|pool|, [], [[]] + list);
    var dirs := KeptAll(|pool|, [[]] + list);
    assert [] + dirs == dirs;
    var d := Directories4(s, a.pool, [a.off]);
    Directories4End(s, a.pool, [a.off]);
    NoNames(d.pool);
    Files4Named(d.rest, d.pool, d.offs, dirs, [-1], [None]);
  }

  lemma Tables5Named(size: OffsetSize, sections: Sections, s: Bytes, pool: Bytes)
    requires |pool| <= STR_MAX && Closed(pool) && Tables5(size, sections, s, pool).status == Accepted
    ensures var n := Names5(size, sections, s, |pool|);
      Interns(Tables5(size, sections, s, pool), n.used, n.files)
  {
    hide ReadTableHead, Tables5, Directories5, Files5, Closed, Names, Entries5In, AfterEntries5, FullNames, PathsOf,
      KeptAll, UsedAfterAll;
    Tables5Steps(size, sections, s, pool);
    var head := ReadTableHead(s, DIRS_MAX);
    var columns, count := head.value.columns, head.value.count;
    var d := Directories5(columns, count, size, sections, head.rest, pool, []);
    EmptyNames(pool);
    Directories5Named(columns, count, size, sections, head.rest, pool, [], []);
    Directories5End(columns, count, size, sections, head.rest, pool, []);
    var dirs := KeptAll(|pool|, PathsOf(Entries5In(columns, count, false, size, sections, head.rest)));
    assert [] + dirs == dirs;
    var head' := ReadTableHead(d.rest, FILES_MAX);
    EmptyNames(d.pool);
    Files5Named(head'.value.columns, head'.value.count, size, sections, head'.rest, d.pool, d.offs, dirs, [], []);
    var files := KeptAll(|d.pool|, FullNames(dirs, Entries5In(head'.value.columns, head'.value.count, true, size,
                                                              sections, head'.rest)));
    assert [] + files == files;
  }

  /** For every accepted table, whatever its bytes and however full the pool: the offset of each file is absent
      when the pool was full, and else names the file's clipped join with its directory, as far as there was room. */
  lemma TablesNamed(version: nat, size: OffsetSize, sections: Sections, s: Bytes, pool: Bytes)
    requires |pool| <= STR_MAX && Closed(pool) && Tables(version, size, sections, s, pool).status == Accepted
    ensures var t, n := Tables(version, size, sections, s, pool), NamesIn(version, size, sections, s, |pool|);
      Closed(t.pool) && |t.pool| == n.used && Names(t.pool, t.offs, n.files)
  {
    hide Tables4, Tables5, Names4, Names5, Closed, Names;
    if version >= 5 {
      Tables5Named(size, sections, s, pool);
    } else {
      Tables4Named(s, pool);
    }
  }

  // ---- Units and sections by name ----

  /** The named rows of the unit at the front, when it is accepted and `used` bytes of the pool are in use: the
      matrix of its program seen through the names of its files. */
  function UnitRows(s: Bytes, sections: Sections, used: nat): seq<NamedRow> {
    var p := ReadPrologue(s);
    if !p.Prologue? then [] else
    var params := ReadParameters(p.version, p.addrSize, p.rest);
    if !params.Got? || params.value.Unusable? then [] else
    var prog := Disassemble(params.value.cfg, p.program, |AfterUnit(s)|);
    NamedRowsOf(NamesIn(p.version, p.size, sections, params.rest, used).files,
                Snapshots(params.value.cfg, prog, INITIAL))
  }

  function SectionRows(s: Bytes, sections: Sections, pool: Bytes): seq<NamedRow>
    requires |pool| <= STR_MAX
    decreases |s|
  {
    if s == [] then [] else
    var u := ParseUnit(s, sections, pool);
    if u.status != Accepted then [] else UnitRows(s, sections, |pool|) + SectionRows(u.rest, sections, u.pool)
  }

  lemma UnitNamed(s: Bytes, sections: Sections, pool: Bytes)
    requires |pool| <= STR_MAX && Closed(pool) && ParseUnit(s, sections, pool).status == Accepted
    ensures var u := ParseUnit(s, sections, pool);
      Closed(u.pool) && NameRows(u.pool, u.rows) == UnitRows(s, sections, |pool|)
  {
    hide ReadPrologue, ReadParameters, Tables, NamesIn, Closed, Names, Disassemble, ExecAll, Snapshots, RowsOf,
      NamedRowsOf, Delimited, AfterUnit;
    var p := ReadPrologue(s);
    if p.Prologue? {
      var params := ReadParameters(p.version, p.addrSize, p.rest);
      if params.value.Usable? {
        var t := Tables(p.version, p.size, sections, params.rest, pool);
        var names := NamesIn(p.version, p.size, sections, params.rest, |pool|).files;
        TablesNamed(p.version, p.size, sections, params.rest, pool);
        var prog := Disassemble(params.value.cfg, p.program, |AfterUnit(s)|);
        RowsOfProgram(params.value.cfg, t.offs, prog, INITIAL);
        NamedMatrix(t.pool, t.offs, names, Snapshots(params.value.cfg, prog, INITIAL));
      }
    }
  }

  /** For every section: the rows of a parse, by name, are those its bytes state. */
  lemma {:induction false} SectionNamed(s: Bytes, sections: Sections, pool: Bytes)
    requires |pool| <= STR_MAX && Closed(pool)
    ensures var x := ParseSection(s, sections, pool); NameRows(x.pool, x.rows) == SectionRows(s, sections, pool)
    decreases |s|
  {
    hide ParseUnit, UnitRows, Closed, NameRows;
    if s == [] {
      NoRows(pool);
    } else {
      var u := ParseUnit(s, sections, pool);
      if u.status == Accepted {
        UnitNamed(s, sections, pool);
        SectionNamed(u.rest, sections, u.pool);
        var x := ParseSection(u.rest, sections, u.pool);
        UnitSound(s, sections, pool);
        RowsStartGrow(u.pool, x.pool, u.rows);
        NameRowsAppend(x.pool, u.rows, x.rows);
      } else {
        RefusedNoRows(s, sections, pool);
        NoRows(u.pool);
      }
    }
  }

  lemma NoRows(pool: Bytes)
    ensures NameRows(pool, []) == []
  {
  }

  lemma RefusedNoRows(s: Bytes, sections: Sections, pool: Bytes)
    requires |pool| <= STR_MAX && ParseUnit(s, sections, pool).status != Accepted
    ensures ParseUnit(s, sections, pool).rows == []
  {
    hide Tables, Run, ReadParameters, ReadPrologue;
  }

  // ---- Looking up a name ----

  function NamedKey(r: NamedRow): int {
    r.addr
  }

  lemma NameTake(pool: Bytes, rows: seq<Row>, n: nat)
    ensures NameRows(pool, Take(rows, n)) == Take(NameRows(pool, rows), n)
  {
  }

  lemma FloorByName(pool: Bytes, rows: seq<Row>, addr: u64, row: Row)
    ensures var named := NameRows(pool, rows);
      && (HasFloor(rows, RowKey, addr) <==> HasFloor(named, NamedKey, addr))
      && (IsFloor(rows, RowKey, addr, row) ==> IsFloor(named, NamedKey, addr, NameRow(pool, row)))
  {
    hide NameRows, IsFloor, HasFloor;
    HasFloorByName(pool, rows, addr);
    if IsFloor(rows, RowKey, addr, row) {
      IsFloorByName(pool, rows, addr, row);
    }
  }

  lemma HasFloorByName(pool: Bytes, rows: seq<Row>, addr: u64)
    ensures HasFloor(rows, RowKey, addr) <==> HasFloor(NameRows(pool, rows), NamedKey, addr)
  {
    hide NameAt;
    var named := NameRows(pool, rows);
    if HasFloor(rows, RowKey, addr) {
      var r :| r in rows && RowKey(r) <= addr;
      var k :| 0 <= k < |rows| && rows[k] == r;
      assert named[k] in named && NamedKey(named[k]) <= addr;
    }
    if HasFloor(named, NamedKey, addr) {
      var r :| r in named && NamedKey(r) <= addr;
      var k :| 0 <= k < |named| && named[k] == r;
      assert rows[k] in rows && RowKey(rows[k]) <= addr;
    }
  }

  lemma IsFloorByName(pool: Bytes, rows: seq<Row>, addr: u64, row: Row)
    requires IsFloor(rows, RowKey, addr, row)
    ensures IsFloor(NameRows(pool, rows), NamedKey, addr, NameRow(pool, row))
  {
    hide NameAt;
    var named := NameRows(pool, rows);
    var k :| 0 <= k < |rows| && rows[k] == row;
    assert named[k] in named;
    forall r | r in named && NamedKey(r) <= addr
      ensures NamedKey(r) <= row.addr
    {
      var j :| 0 <= j < |named| && named[j] == r;
      assert rows[j] in rows && RowKey(rows[j]) <= addr;
    }
  }

  lemma EmptyPoolClosed()
    ensures Closed([])
  {
  }

  lemma FloorMember(rows: seq<NamedRow>, addr: u64, row: NamedRow)
    requires IsFloor(rows, NamedKey, addr, row)
    ensures row in rows
  {
  }

  lemma RowStarts(section: Bytes, sections: Sections, row: Row)
    requires row in Capped(ParseSection(section, sections, []).rows)
    ensures var pool := ParseSection(section, sections, []).pool; Closed(pool) && row.nameOff < |pool|
  {
    hide ParseSection;
    SectionSound(section, sections, []);
    var rows := ParseSection(section, sections, []).rows;
    assert row in rows;
  }

  /** Reset, parse, look up, and follow the file pointer into the pool: for every section, file name and line are
      those of a row its bytes state whose address is the greatest not above the query, and nothing is found
      exactly when there is none (among the first rows the table has room for). */
  method ResolveName(tab: LineTable, section: Bytes, sections: Sections, order: Order<Row>, addr: u64)
    returns (found: bool, name: CString, line: u32)
    requires tab.Valid() && IsSort(order, RowKey)
    modifies tab, tab.rows, tab.strs
    ensures tab.Valid()
    ensures var meaning := Take(SectionRows(section, sections, []), ROW_MAX);
      && (found <==> HasFloor(meaning, NamedKey, addr))
      && (found ==> exists row | row in meaning ::
            IsFloor(meaning, NamedKey, addr, row) && name == row.name && line == row.line)
  {
    hide ParseSection, SectionRows, IsFloor, HasFloor, NameRows, StartsString, Closed;
    name := [];
    ghost var x := ParseSection(section, sections, []);
    ghost var emitted := Capped(x.rows);
    var fileOff;
    found, fileOff, line := ParseAndLookup(tab, section, sections, order, addr);
    EmptyPoolClosed();
    SectionNamed(section, sections, []);
    NameTake(x.pool, x.rows, ROW_MAX);
    FloorByName(x.pool, emitted, addr, Row(0, 0, 0));
    if found {
      ghost var row :| row in emitted && IsFloor(emitted, RowKey, addr, row)
                       && fileOff == row.nameOff && line == row.line;
      FloorByName(x.pool, emitted, addr, row);
      RowStarts(section, sections, row);
      name := tab.StringAt(fileOff);
      FloorMember(Take(SectionRows(section, sections, []), ROW_MAX), addr, NameRow(x.pool, row));
    }
  }
}
