/** Directory and file tables of a unit header, in the version 2-4 layout and in the version 5 layout
    (section 6.2.4 of the DWARF 5 standard). Reading them interns one string per entry in the pool. */
module EntryTables {
  import opened Bytes
  import opened Leb128
  import opened Cursors
  import opened LineTables
  import opened LinePrograms
  import opened Paths
  import opened Wrappers
  import opened Forms

  const DIRS_MAX := 256
  const FILES_MAX := 512
  const FORMAT_MAX := 16
  const JOINED_SIZE := 512

  const CONTENT_PATH: u64 := 1
  const CONTENT_DIRECTORY_INDEX: u64 := 2

  // ---- Entries ----

  /** What an entry says: its path, and its directory index when it has one. */
  datatype Entry = Entry(path: CString, dir: Option<u64>)

  const BLANK := Entry([], None)

  predicate HasDirectory(dirs: Files, e: Entry) {
    e.dir.Some? && e.dir.value < |dirs| && dirs[e.dir.value] >= 0
  }

  /** The name of a file: joined with its directory, clipped to the join buffer, when it has one. */
  function FileName(pool: Bytes, dirs: Files, e: Entry): (name: CString) {
    if HasDirectory(dirs, e) then
      Take(IdealJoin(NameAt(pool, dirs[e.dir.value]), e.path), JOINED_SIZE - 1)
    else e.path
  }

  /** A file whose join is empty makes the decoder give up on the unit. */
  predicate Nameless(pool: Bytes, dirs: Files, e: Entry) {
    HasDirectory(dirs, e) && FileName(pool, dirs, e) == []
  }

  /** Where a table read stops: the status, the bytes left, the pool, and the offsets of the names. The
      bytes left mean nothing unless the read was accepted. */
  datatype Interned = Interned(status: Status, rest: Bytes, pool: Bytes, offs: Files) {
    predicate Within(s: Bytes, before: Bytes) {
      |rest| <= |s| && |pool| <= STR_MAX && before <= pool
    }
  }

  // ---- Version 2-4 layout ----

  /** A name in line, and what follows its terminator. */
  function NameIn(s: Bytes): CString {
    CStr(s)
  }

  function AfterName(s: Bytes): (rest: Bytes)
    ensures 0 in s ==> |rest| < |s|
  {
    if 0 in s then s[StrLen(s) + 1..] else []
  }

  function Directories4(s: Bytes, pool: Bytes, dirs: Files): (t: Interned)
    requires |pool| <= STR_MAX
    ensures t.Within(s, pool)
    decreases |s|
  {
    if s != [] && s[0] != 0 && |dirs| < DIRS_MAX then
      if 0 !in s then Interned(Unterminated, [], pool, dirs) else
      var a := AddString(pool, NameIn(s));
      Directories4(AfterName(s), a.pool, dirs + [a.off])
    else if s == [] then Interned(Rejected, [], pool, dirs)
    else Interned(Accepted, s[1..], pool, dirs)
  }

  /** Directory index, modification time and length of a file entry. */
  function FileNumbers(s: Bytes): (r: Read<u64>)
    ensures r.Got? ==> |r.rest| < |s|
    ensures !r.Overread?
  {
    var (dir, s1) :- Uleb(s);
    var (_, s2) :- Uleb(s1);
    var (_, s3) :- Uleb(s2);
    Got(dir, s3)
  }

  /** A file entry: a name and three numbers, the first of which is its directory index. */
  function FileEntry(s: Bytes): (r: Read<Entry>)
    ensures r.Got? ==> |r.rest| < |s|
  {
    if 0 !in s then Overread else
    var (dir, s1) :- FileNumbers(AfterName(s));
    Got(Entry(NameIn(s), Some(dir)), s1)
  }

  function Files4(s: Bytes, pool: Bytes, dirs: Files, files: Files): (t: Interned)
    requires |pool| <= STR_MAX
    ensures t.Within(s, pool)
    decreases |s|
  {
    if s != [] && s[0] != 0 && |files| < FILES_MAX then
      match FileEntry(s)
      case Overread => Interned(Unterminated, [], pool, files)
      case Bad(_) => Interned(Rejected, [], pool, files)
      case Got(e, s1) =>
        if Nameless(pool, dirs, e) then Interned(Rejected, [], pool, files) else
        var a := AddString(pool, FileName(pool, dirs, e));
        Files4(s1, a.pool, dirs, files + [a.off])
    else if s == [] then Interned(Rejected, [], pool, files)
    else Interned(Accepted, s[1..], pool, files)
  }

  /** Directory 0 is the empty name; file 0 does not exist. */
  function Tables4(s: Bytes, pool: Bytes): (t: Interned)
    requires |pool| <= STR_MAX
    ensures t.Within(s, pool)
  {
    var a := AddString(pool, []);
    var d := Directories4(s, a.pool, [a.off]);
    if d.status != Accepted then d else Files4(d.rest, d.pool, d.offs, [-1])
  }

  // ---- Version 5 layout ----

  datatype Column = Column(content: u64, form: u64)

  function ReadColumns(n: nat, s: Bytes, columns: seq<Column>): (r: Read<seq<Column>>)
    ensures r.Got? ==> |r.rest| <= |s|
    ensures !r.Overread?
    decreases n
  {
    if n == 0 then Got(columns, s) else
    var (content, s1) :- Uleb(s);
    var (form, s2) :- Uleb(s1);
    ReadColumns(n - 1, s2, columns + [Column(content, form)])
  }

  function ReadFormat(s: Bytes): (r: Read<seq<Column>>)
    ensures r.Got? ==> |r.rest| <= |s|
    ensures !r.Overread?
  {
    var (n, s1) :- Byte(s);
    if n > FORMAT_MAX then Bad(s1) else ReadColumns(n, s1, [])
  }

  /** The columns of one entry, left to right. Only file entries interpret a directory index. */
  function ReadEntry(columns: seq<Column>, isFile: bool, size: OffsetSize, sections: Sections, s: Bytes, e: Entry)
    : (r: Read<Entry>)
    ensures r.Got? ==> |r.rest| <= |s|
    decreases |columns|
  {
    hide FormPath, FormUdata, FormSkip;
    if columns == [] then Got(e, s)
    else if columns[0].content == CONTENT_PATH then
      var (path, s1) :- FormPath(columns[0].form, size, sections, s);
      ReadEntry(columns[1..], isFile, size, sections, s1, e.(path := path))
    else if isFile && columns[0].content == CONTENT_DIRECTORY_INDEX then
      var (dir, s1) :- FormUdata(columns[0].form, s);
      ReadEntry(columns[1..], isFile, size, sections, s1, e.(dir := Some(dir)))
    else
      var (_, s1) :- FormSkip(columns[0].form, size, s);
      ReadEntry(columns[1..], isFile, size, sections, s1, e)
  }

  /** Skipping every column. */
  function SkipColumns(columns: seq<Column>, size: OffsetSize, s: Bytes): Read<()>
    decreases |columns|
  {
    if columns == [] then Got((), s) else
    var (_, s1) :- FormSkip(columns[0].form, size, s);
    SkipColumns(columns[1..], size, s1)
  }

  /** An entry occupies the same bytes whichever of its columns are interpreted: reading one, as a directory
      or as a file, ends where skipping it ends, and fails where skipping it fails, except that a file's
      directory index must have one of four forms and that a path may run into an unterminated string. */
  lemma {:induction false} EntryOccupiesSkippedBytes(columns: seq<Column>, isFile: bool, size: OffsetSize,
                                                     sections: Sections, s: Bytes, e: Entry)
    ensures var r, skip := ReadEntry(columns, isFile, size, sections, s, e), SkipColumns(columns, size, s);
      && (r.Got? ==> skip == Got((), r.rest))
      && (skip.Got? && (forall k | 0 <= k < |columns| && columns[k].content == CONTENT_DIRECTORY_INDEX ::
                          NumberForm(columns[k].form))
          ==> r.Got? || r.Overread?)
    decreases |columns|
  {
    hide FormPath, FormUdata, FormSkip;
    if columns != [] {
      var form := columns[0].form;
      PathOccupiesSkippedBytes(form, size, sections, s);
      UdataOccupiesSkippedBytes(form, size, s);
      if FormSkip(form, size, s).Got? {
        var s1 := FormSkip(form, size, s).rest;
        var path, dir := FormPath(form, size, sections, s), FormUdata(form, s);
        if columns[0].content == CONTENT_PATH {
          if path.Got? {
            EntryOccupiesSkippedBytes(columns[1..], isFile, size, sections, s1, e.(path := path.value));
          }
        } else if isFile && columns[0].content == CONTENT_DIRECTORY_INDEX {
          if dir.Got? {
            EntryOccupiesSkippedBytes(columns[1..], isFile, size, sections, s1, e.(dir := Some(dir.value)));
          }
        } else {
          EntryOccupiesSkippedBytes(columns[1..], isFile, size, sections, s1, e);
        }
      }
    }
  }

  function Directories5(columns: seq<Column>, n: nat, size: OffsetSize, sections: Sections,
                        s: Bytes, pool: Bytes, dirs: Files): (t: Interned)
    requires |pool| <= STR_MAX
    ensures t.Within(s, pool)
    decreases n
  {
    if n == 0 then Interned(Accepted, s, pool, dirs) else
    match ReadEntry(columns, false, size, sections, s, BLANK)
    case Got(e, s1) =>
      var a := AddString(pool, e.path);
      Directories5(columns, n - 1, size, sections, s1, a.pool, dirs + [a.off])
    case Bad(_) => Interned(Rejected, [], pool, dirs)
    case Overread => Interned(Unterminated, [], pool, dirs)
  }

  function Files5(columns: seq<Column>, n: nat, size: OffsetSize, sections: Sections,
                  s: Bytes, pool: Bytes, dirs: Files, files: Files): (t: Interned)
    requires |pool| <= STR_MAX
    ensures t.Within(s, pool)
    decreases n
  {
    if n == 0 then Interned(Accepted, s, pool, files) else
    match ReadEntry(columns, true, size, sections, s, BLANK)
    case Got(e, s1) =>
      if Nameless(pool, dirs, e) then Interned(Rejected, [], pool, files) else
      var a := AddString(pool, FileName(pool, dirs, e));
      Files5(columns, n - 1, size, sections, s1, a.pool, dirs, files + [a.off])
    case Bad(_) => Interned(Rejected, [], pool, files)
    case Overread => Interned(Unterminated, [], pool, files)
  }

  /** A table's format followed by its number of entries. */
  datatype TableHead = TableHead(columns: seq<Column>, count: nat)

  function ReadTableHead(s: Bytes, most: nat): (r: Read<TableHead>)
    ensures r.Got? ==> |r.rest| <= |s|
    ensures !r.Overread?
  {
    var (columns, s1) :- ReadFormat(s);
    var (count, s2) :- Uleb(s1);
    if count > most then Bad(s2) else Got(TableHead(columns, count), s2)
  }

  function Tables5(size: OffsetSize, sections: Sections, s: Bytes, pool: Bytes): (t: Interned)
    requires |pool| <= STR_MAX
    ensures t.Within(s, pool)
  {
    var head := ReadTableHead(s, DIRS_MAX);
    if head.IsFailure() then Interned(Rejected, [], pool, []) else
    var d := Directories5(head.value.columns, head.value.count, size, sections, head.rest, pool, []);
    if d.status != Accepted then d else
    var head' := ReadTableHead(d.rest, FILES_MAX);
    if head'.IsFailure() then Interned(Rejected, [], d.pool, []) else
    Files5(head'.value.columns, head'.value.count, size, sections, head'.rest, d.pool, d.offs, [])
  }

  function Tables(version: nat, size: OffsetSize, sections: Sections, s: Bytes, pool: Bytes): (t: Interned)
    requires |pool| <= STR_MAX
    ensures t.Within(s, pool)
  {
    if version >= 5 then Tables5(size, sections, s, pool) else Tables4(s, pool)
  }

  // ---- The readers ----

  method ReadFormatOf(c: Cursor) returns (ok: bool, columns: seq<Column>)
    requires c.Valid()
    modifies c`p
    ensures c.Valid()
    ensures var r := ReadFormat(old(c.Rest()));
      (ok <==> r.Got?) && (ok ==> r == Got(columns, c.Rest()))
  {
    hide Uleb;
    columns := [];
    var n, content, form;
    ok, n := c.U8();
    if !ok || n > FORMAT_MAX {
      return false, [];
    }
    var i := 0;
    ghost var start := c.Rest();
    while i < n
      invariant c.Valid() && i <= n
      invariant ReadColumns(n - i, c.Rest(), columns) == ReadColumns(n, start, [])
    {
      ok, content := c.ReadUleb();
      if !ok {
        return false, [];
      }
      ok, form := c.ReadUleb();
      if !ok {
        return false, [];
      }
      columns := columns + [Column(content, form)];
      i := i + 1;
    }
    return true, columns;
  }

  method ReadTableHeadOf(c: Cursor, most: nat) returns (ok: bool, columns: seq<Column>, count: nat)
    requires c.Valid()
    modifies c`p
    ensures c.Valid()
    ensures var r := ReadTableHead(old(c.Rest()), most);
      (ok <==> r.Got?) && (ok ==> r == Got(TableHead(columns, count), c.Rest()))
  {
    hide Uleb, ReadFormat;
    count := 0;
    ok, columns := ReadFormatOf(c);
    if ok {
      ok, count := c.ReadUleb();
      ok := ok && count <= most;
    }
  }

  method ReadEntryOf(c: Cursor, columns: seq<Column>, isFile: bool, size: OffsetSize, sections: Sections)
    returns (status: Status, e: Entry)
    requires c.Valid()
    modifies c`p
    ensures c.Valid()
    ensures var r := ReadEntry(columns, isFile, size, sections, old(c.Rest()), BLANK);
      match status
      case Accepted => r == Got(e, c.Rest())
      case Rejected => r.Bad?
      case Unterminated => r.Overread?
  {
    hide FormPath, FormSkip, FormUdata;
    e := BLANK;
    var f, ok := 0, true;
    ghost var start := c.Rest();
    while f < |columns|
      invariant c.Valid() && f <= |columns|
      invariant ReadEntry(columns[f..], isFile, size, sections, c.Rest(), e)
             == ReadEntry(columns, isFile, size, sections, start, BLANK)
    {
      assert columns[f..][1..] == columns[f + 1..];
      var column := columns[f];
      if column.content == CONTENT_PATH {
        var path;
        status, path := ReadPath(c, column.form, size, sections);
        if status != Accepted {
          return;
        }
        e := e.(path := path);
      } else if isFile && column.content == CONTENT_DIRECTORY_INDEX {
        var dir;
        ok, dir := ReadUdata(c, column.form);
        if !ok {
          return Rejected, e;
        }
        e := e.(dir := Some(dir));
      } else {
        ok := SkipForm(c, column.form, size);
        if !ok {
          return Rejected, e;
        }
      }
      f := f + 1;
    }
    return Accepted, e;
  }

  ghost predicate OffsetsWithin(pool: Bytes, offs: Files) {
    forall k | 0 <= k < |offs| :: offs[k] < |pool|
  }

  lemma EmptyWithin(pool: Bytes)
    ensures OffsetsWithin(pool, [])
  {
  }

  lemma OffsetsGrow(pool: Bytes, pool': Bytes, offs: Files, off: int)
    requires OffsetsWithin(pool, offs) && pool <= pool' && off < |pool'| <= STR_MAX
    ensures OffsetsWithin(pool', offs + [off])
  {
  }

  /** Interns the name of one directory and records its offset. */
  method InternDirectory(tab: LineTable, dirs: Files, name: Bytes) returns (dirs': Files)
    requires tab.Valid() && Closed(tab.Pool()) && OffsetsWithin(tab.Pool(), dirs)
    modifies tab`nstr, tab.strs
    ensures tab.Valid() && Closed(tab.Pool()) && OffsetsWithin(tab.Pool(), dirs')
    ensures var a := AddString(old(tab.Pool()), name); tab.Pool() == a.pool && dirs' == dirs + [a.off]
  {
    hide AddString, OffsetsWithin, Closed, LineTable.Pool;
    ghost var pool := tab.Pool();
    AddStringFacts(pool, name);
    var off := tab.AddStr(name);
    OffsetsGrow(pool, tab.Pool(), dirs, off);
    dirs' := dirs + [off];
  }

  lemma Directories4Step(s: Bytes, pool: Bytes, dirs: Files)
    requires |pool| <= STR_MAX
    ensures var t := Directories4(s, pool, dirs);
      if s != [] && s[0] != 0 && |dirs| < DIRS_MAX then
        if 0 !in s then t == Interned(Unterminated, [], pool, dirs) else
        var a := AddString(pool, NameIn(s));
        t == Directories4(AfterName(s), a.pool, dirs + [a.off])
      else t == if s == [] then Interned(Rejected, [], pool, dirs) else Interned(Accepted, s[1..], pool, dirs)
  {
    hide NameIn, AfterName, AddString;
  }

  lemma Files4Step(s: Bytes, pool: Bytes, dirs: Files, files: Files)
    requires |pool| <= STR_MAX
    ensures var t, r := Files4(s, pool, dirs, files), FileEntry(s);
      if s != [] && s[0] != 0 && |files| < FILES_MAX then
        if !r.Got? then t == Interned(if r.Bad? then Rejected else Unterminated, [], pool, files)
        else if Nameless(pool, dirs, r.value) then t == Interned(Rejected, [], pool, files) else
        var a := AddString(pool, FileName(pool, dirs, r.value));
        t == Files4(r.rest, a.pool, dirs, files + [a.off])
      else t == if s == [] then Interned(Rejected, [], pool, files) else Interned(Accepted, s[1..], pool, files)
  {
    hide AddString, FileEntry, Nameless, FileName;
  }

  /** Interns a file under its clipped join with the directory at `dirOff`, unless that is empty. */
  method InternJoined(tab: LineTable, dirOff: nat, path: CString) returns (ok: bool, off: int)
    requires tab.Valid() && Closed(tab.Pool()) && dirOff < |tab.Pool()|
    modifies tab`nstr, tab.strs
    ensures tab.Valid()
    ensures var name := Take(IdealJoin(NameAt(old(tab.Pool()), dirOff), path), JOINED_SIZE - 1);
      && (ok <==> name != [])
      && if ok then Added(tab.Pool(), off) == AddString(old(tab.Pool()), name) else tab.Pool() == old(tab.Pool())
  {
    hide IdealJoin, NameAt, AddString, Closed, LineTable.Pool;
    var dir := tab.StringAt(dirOff);
    var joined := new byte[JOINED_SIZE](_ => 0);
    ok := JoinPath(joined, Some(dir), Some(path));
    if !ok {
      return false, -1;
    }
    ghost var name := Take(IdealJoin(dir, path), JOINED_SIZE - 1);
    var n := StrLen(joined[..]);
    WrittenName(joined[..], name);
    off := tab.AddStr(joined[..n]);
  }

  lemma WrittenName(buffer: Bytes, name: CString)
    requires |name| < |buffer| && buffer[..|name| + 1] == name + [0]
    ensures buffer[..StrLen(buffer)] == name
  {
    hide StrLen;
    var rest := buffer[|name| + 1..];
    assert buffer == name + [0] + rest;
    CStrOfTerminated(name, rest);
  }

  /** Interns the name of one file entry. */
  method InternFile(tab: LineTable, dirs: Files, e: Entry) returns (ok: bool, off: int)
    requires tab.Valid() && Closed(tab.Pool()) && OffsetsWithin(tab.Pool(), dirs)
    modifies tab`nstr, tab.strs
    ensures tab.Valid() && Closed(tab.Pool()) && OffsetsWithin(tab.Pool(), dirs)
    ensures ok <==> !Nameless(old(tab.Pool()), dirs, e)
    ensures if ok then Added(tab.Pool(), off) == AddString(old(tab.Pool()), FileName(old(tab.Pool()), dirs, e))
            else tab.Pool() == old(tab.Pool())
  {
    hide IdealJoin, NameAt, AddString, LineTable.Pool, Closed;
    ghost var pool := tab.Pool();
    AddStringFacts(pool, FileName(pool, dirs, e));
    if e.dir.Some? && e.dir.value < |dirs| && dirs[e.dir.value] >= 0 {
      ok, off := InternJoined(tab, dirs[e.dir.value], e.path);
    } else {
      ok := true;
      off := tab.AddStr(e.path);
    }
    if ok {
      WithinGrows(pool, tab.Pool(), dirs);
    }
  }

  lemma WithinGrows(pool: Bytes, pool': Bytes, offs: Files)
    requires OffsetsWithin(pool, offs) && pool <= pool'
    ensures OffsetsWithin(pool', offs)
  {
  }

  method ReadTables5(c: Cursor, tab: LineTable, size: OffsetSize, sections: Sections)
    returns (status: Status, files: Files)
    requires c.Valid() && tab.Valid() && Closed(tab.Pool())
    modifies c`p, tab`nstr, tab.strs
    ensures c.Valid() && tab.Valid() && Closed(tab.Pool())
    ensures Reads(Tables5(size, sections, old(c.Rest()), old(tab.Pool())), status, c.Rest(), tab.Pool(), files)
  {
    hide Tables5, Directories5, Files5, ReadTableHead;
    ghost var start, pool := c.Rest(), tab.Pool();
    Tables5Steps(size, sections, start, pool);
    var ok, columns, count := ReadTableHeadOf(c, DIRS_MAX);
    if !ok {
      return Rejected, [];
    }
    var dirs;
    status, dirs := ReadDirectories5(c, tab, columns, count, size, sections);
    if status != Accepted {
      return status, [];
    }
    ok, columns, count := ReadTableHeadOf(c, FILES_MAX);
    if !ok {
      return Rejected, [];
    }
    status, files := ReadFiles5(c, tab, columns, count, size, sections, dirs);
  }

  /** A method met the specification of its table, up to what a failed read leaves unsaid. */
  ghost predicate Reads(t: Interned, status: Status, rest: Bytes, pool: Bytes, offs: Files) {
    status == t.status && pool == t.pool && (status == Accepted ==> rest == t.rest && offs == t.offs)
  }

  lemma Tables5Steps(size: OffsetSize, sections: Sections, s: Bytes, pool: Bytes)
    requires |pool| <= STR_MAX
    ensures var t, head := Tables5(size, sections, s, pool), ReadTableHead(s, DIRS_MAX);
      if !head.Got? then t.status == Rejected && t.pool == pool else
      var d := Directories5(head.value.columns, head.value.count, size, sections, head.rest, pool, []);
      if d.status != Accepted then t == d else
      var head' := ReadTableHead(d.rest, FILES_MAX);
      if !head'.Got? then t.status == Rejected && t.pool == d.pool else
      t == Files5(head'.value.columns, head'.value.count, size, sections, head'.rest, d.pool, d.offs, [])
  {
    hide Directories5, Files5, ReadTableHead;
  }

  method ReadDirectories5(c: Cursor, tab: LineTable, columns: seq<Column>, count: nat, size: OffsetSize,
                          sections: Sections)
    returns (status: Status, dirs: Files)
    requires c.Valid() && tab.Valid() && Closed(tab.Pool())
    modifies c`p, tab`nstr, tab.strs
    ensures c.Valid() && tab.Valid() && Closed(tab.Pool())
    ensures Reads(Directories5(columns, count, size, sections, old(c.Rest()), old(tab.Pool()), []),
                  status, c.Rest(), tab.Pool(), dirs)
    ensures OffsetsWithin(tab.Pool(), dirs)
  {
    hide ReadEntry, AddString, OffsetsWithin, Closed, LineTable.Pool;
    dirs := [];
    EmptyWithin(tab.Pool());
    var i := 0;
    ghost var t := Directories5(columns, count, size, sections, c.Rest(), tab.Pool(), []);
    while i < count
      invariant c.Valid() && tab.Valid() && Closed(tab.Pool()) && i <= count
      invariant OffsetsWithin(tab.Pool(), dirs)
      invariant Directories5(columns, count - i, size, sections, c.Rest(), tab.Pool(), dirs) == t
    {
      var e;
      status, e := ReadEntryOf(c, columns, false, size, sections);
      if status != Accepted {
        return;
      }
      dirs := InternDirectory(tab, dirs, e.path);
      i := i + 1;
    }
    return Accepted, dirs;
  }

  method ReadFiles5(c: Cursor, tab: LineTable, columns: seq<Column>, count: nat, size: OffsetSize,
                    sections: Sections, dirs: Files)
    returns (status: Status, files: Files)
    requires c.Valid() && tab.Valid() && Closed(tab.Pool()) && OffsetsWithin(tab.Pool(), dirs)
    modifies c`p, tab`nstr, tab.strs
    ensures c.Valid() && tab.Valid() && Closed(tab.Pool())
    ensures Reads(Files5(columns, count, size, sections, old(c.Rest()), old(tab.Pool()), dirs, []),
                  status, c.Rest(), tab.Pool(), files)
  {
    hide ReadEntry, AddString, Nameless, FileName, OffsetsWithin, Closed, LineTable.Pool;
    files := [];
    var i := 0;
    ghost var t := Files5(columns, count, size, sections, c.Rest(), tab.Pool(), dirs, []);
    while i < count
      invariant c.Valid() && tab.Valid() && Closed(tab.Pool()) && i <= count
      invariant OffsetsWithin(tab.Pool(), dirs)
      invariant Files5(columns, count - i, size, sections, c.Rest(), tab.Pool(), dirs, files) == t
    {
      var e;
      status, e := ReadEntryOf(c, columns, true, size, sections);
      if status != Accepted {
        return;
      }
      var ok, off := InternFile(tab, dirs, e);
      if !ok {
        return Rejected, files;
      }
      files := files + [off];
      i := i + 1;
    }
    return Accepted, files;
  }

  /** A NUL-terminated name in line; the cursor steps over it when it is terminated. */
  method ReadName(c: Cursor) returns (terminated: bool, name: Bytes)
    requires c.Valid()
    modifies c`p
    ensures c.Valid()
    ensures var s := old(c.Rest());
      if 0 in s then terminated && name == NameIn(s) && c.Rest() == AfterName(s)
      else !terminated && c.Rest() == s
  {
    hide StrLen;
    var n;
    terminated, n := c.StringLength();
    name := [];
    if terminated {
      ghost var s := c.Rest();
      name := c.data[c.p..c.p + n];
      c.p := c.p + n + 1;
      assert name == s[..n] && c.Rest() == s[n + 1..];
    }
  }

  method ReadDirectories4(c: Cursor, tab: LineTable, first: int) returns (status: Status, dirs: Files)
    requires c.Valid() && tab.Valid() && Closed(tab.Pool()) && first < |tab.Pool()|
    modifies c`p, tab`nstr, tab.strs
    ensures c.Valid() && tab.Valid() && Closed(tab.Pool())
    ensures Reads(Directories4(old(c.Rest()), old(tab.Pool()), [first]), status, c.Rest(), tab.Pool(), dirs)
    ensures OffsetsWithin(tab.Pool(), dirs)
  {
    hide NameIn, AfterName, AddString, Directories4, OffsetsWithin, Closed, LineTable.Pool;
    dirs := [first];
    EmptyWithin(tab.Pool());
    OffsetsGrow(tab.Pool(), tab.Pool(), [], first);
    assert [] + [first] == dirs;
    ghost var t := Directories4(c.Rest(), tab.Pool(), dirs);
    while c.Ok(1) && c.data[c.p] != 0 && |dirs| < DIRS_MAX
      invariant c.Valid() && tab.Valid() && Closed(tab.Pool())
      invariant OffsetsWithin(tab.Pool(), dirs)
      invariant Directories4(c.Rest(), tab.Pool(), dirs) == t
      decreases |c.data| - c.p
    {
      Directories4Step(c.Rest(), tab.Pool(), dirs);
      var terminated, name := ReadName(c);
      if !terminated {
        return Unterminated, dirs;
      }
      dirs := InternDirectory(tab, dirs, name);
    }
    Directories4Step(c.Rest(), tab.Pool(), dirs);
    var ok := c.SkipBytes(1);
    status := if ok then Accepted else Rejected;
  }

  method ReadFileEntry(c: Cursor) returns (status: Status, e: Entry)
    requires c.Valid()
    modifies c`p
    ensures c.Valid()
    ensures var r := FileEntry(old(c.Rest()));
      match status
      case Accepted => r == Got(e, c.Rest())
      case Rejected => r.Bad?
      case Unterminated => r.Overread?
  {
    hide Uleb, NameIn, AfterName;
    e := BLANK;
    var terminated, name := ReadName(c);
    if !terminated {
      return Unterminated, e;
    }
    var ok, dir, tmp;
    ok, dir := c.ReadUleb();
    if ok {
      ok, tmp := c.ReadUleb();
      if ok {
        ok, tmp := c.ReadUleb();
      }
    }
    if !ok {
      return Rejected, e;
    }
    return Accepted, Entry(name, Some(dir));
  }

  method ReadFiles4(c: Cursor, tab: LineTable, dirs: Files) returns (status: Status, files: Files)
    requires c.Valid() && tab.Valid() && Closed(tab.Pool()) && OffsetsWithin(tab.Pool(), dirs)
    modifies c`p, tab`nstr, tab.strs
    ensures c.Valid() && tab.Valid() && Closed(tab.Pool())
    ensures Reads(Files4(old(c.Rest()), old(tab.Pool()), dirs, [-1]), status, c.Rest(), tab.Pool(), files)
  {
    hide AddString, FileEntry, Nameless, FileName, Files4, OffsetsWithin, Closed, LineTable.Pool;
    files := [-1];
    ghost var t := Files4(c.Rest(), tab.Pool(), dirs, files);
    while c.Ok(1) && c.data[c.p] != 0 && |files| < FILES_MAX
      invariant c.Valid() && tab.Valid() && Closed(tab.Pool())
      invariant OffsetsWithin(tab.Pool(), dirs)
      invariant Files4(c.Rest(), tab.Pool(), dirs, files) == t
      decreases |c.Rest()|
    {
      Files4Step(c.Rest(), tab.Pool(), dirs, files);
      var e;
      status, e := ReadFileEntry(c);
      if status != Accepted {
        return;
      }
      var ok, off := InternFile(tab, dirs, e);
      if !ok {
        return Rejected, files;
      }
      files := files + [off];
    }
    Files4Step(c.Rest(), tab.Pool(), dirs, files);
    var ok := c.SkipBytes(1);
    status := if ok then Accepted else Rejected;
  }

  method ReadTables4(c: Cursor, tab: LineTable) returns (status: Status, files: Files)
    requires c.Valid() && tab.Valid() && Closed(tab.Pool())
    modifies c`p, tab`nstr, tab.strs
    ensures c.Valid() && tab.Valid() && Closed(tab.Pool())
    ensures Reads(Tables4(old(c.Rest()), old(tab.Pool())), status, c.Rest(), tab.Pool(), files)
  {
    hide Directories4, Files4, AddString;
    AddStringFacts(tab.Pool(), []);
    var first := tab.AddStr([]);
    var dirs;
    status, dirs := ReadDirectories4(c, tab, first);
    if status != Accepted {
      return status, [];
    }
    status, files := ReadFiles4(c, tab, dirs);
  }
}
