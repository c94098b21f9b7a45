/** Version 5 entry tables as producers write them: a format, a count, and one cell per column and entry.
    Cells are arbitrary encodings of their form, so any format a producer may choose is covered. */
module EncodedTables5 {
  import opened Bytes
  import opened Leb128
  import opened Wrappers
  import opened LineTables
  import opened LinePrograms
  import opened Forms
  import opened EntryTables
  import opened NamedRows
  import opened EncodedTables

  // ---- Entries ----

  /** How the decoder treats a column. */
  datatype Role = PathColumn | DirectoryColumn | OtherColumn

  function RoleOf(column: Column, isFile: bool): Role {
    if column.content == CONTENT_PATH then PathColumn
    else if isFile && column.content == CONTENT_DIRECTORY_INDEX then DirectoryColumn
    else OtherColumn
  }

  /** The bytes of a cell are exactly one value of the column's form. */
  ghost predicate CellFits(column: Column, isFile: bool, size: OffsetSize, sections: Sections, cell: Bytes) {
    match RoleOf(column, isFile)
    case PathColumn =>
      var r := FormPath(column.form, size, sections, cell); r.Got? && r.rest == []
    case DirectoryColumn =>
      var r := FormUdata(column.form, cell); r.Got? && r.rest == []
    case OtherColumn => FormSkip(column.form, size, cell) == Got((), [])
  }

  /** What a cell adds to an entry. */
  ghost function CellMeaning(column: Column, isFile: bool, size: OffsetSize, sections: Sections,
                             cell: Bytes, e: Entry): Entry
    requires CellFits(column, isFile, size, sections, cell)
  {
    match RoleOf(column, isFile)
    case PathColumn => e.(path := FormPath(column.form, size, sections, cell).value)
    case DirectoryColumn => e.(dir := Some(FormUdata(column.form, cell).value))
    case OtherColumn => e
  }

  ghost predicate CellsFit(columns: seq<Column>, isFile: bool, size: OffsetSize, sections: Sections,
                           cells: seq<Bytes>) {
    |cells| == |columns| && forall k | 0 <= k < |cells| :: CellFits(columns[k], isFile, size, sections, cells[k])
  }

  ghost function EntryMeaning(columns: seq<Column>, isFile: bool, size: OffsetSize, sections: Sections,
                              cells: seq<Bytes>, e: Entry): Entry
    requires CellsFit(columns, isFile, size, sections, cells)
    decreases |columns|
  {
    if columns == [] then e else
    EntryMeaning(columns[1..], isFile, size, sections, cells[1..],
                 CellMeaning(columns[0], isFile, size, sections, cells[0], e))
  }

  function Flatten(cells: seq<Bytes>): Bytes
    decreases |cells|
  {
    if cells == [] then [] else cells[0] + Flatten(cells[1..])
  }

  /** Every column is read from its own cell, whatever the other columns are and whatever follows. */
  lemma {:induction false} EntryEncoded(columns: seq<Column>, isFile: bool, size: OffsetSize, sections: Sections,
                                        cells: seq<Bytes>, tail: Bytes, e: Entry)
    requires CellsFit(columns, isFile, size, sections, cells)
    ensures ReadEntry(columns, isFile, size, sections, Flatten(cells) + tail, e)
         == Got(EntryMeaning(columns, isFile, size, sections, cells, e), tail)
    decreases |columns|
  {
    hide FormPath, FormUdata, FormSkip;
    if columns == [] {
      assert Flatten(cells) + tail == tail;
    } else {
      var cell, rest := cells[0], Flatten(cells[1..]) + tail;
      assert Flatten(cells) + tail == cell + rest;
      assert CellFits(columns[0], isFile, size, sections, cell);
      assert [] + rest == rest;
      match RoleOf(columns[0], isFile) {
        case PathColumn => FormPathStable(columns[0].form, size, sections, cell, rest);
        case DirectoryColumn => FormUdataStable(columns[0].form, cell, rest);
        case OtherColumn => FormSkipStable(columns[0].form, size, cell, rest);
      }
      EntryEncoded(columns[1..], isFile, size, sections, cells[1..], tail,
                   CellMeaning(columns[0], isFile, size, sections, cell, e));
    }
  }

  // ---- Tables ----

  datatype Table5 = Table5(columns: seq<Column>, rows: seq<seq<Bytes>>)

  function EncodeColumns(columns: seq<Column>): Bytes
    decreases |columns|
  {
    if columns == [] then [] else
    EncodeUleb(columns[0].content) + (EncodeUleb(columns[0].form) + EncodeColumns(columns[1..]))
  }

  function EncodeRows(rows: seq<seq<Bytes>>): Bytes
    decreases |rows|
  {
    if rows == [] then [] else Flatten(rows[0]) + EncodeRows(rows[1..])
  }

  function EncodeTable(t: Table5): Bytes {
    [|t.columns| % 256] + (EncodeColumns(t.columns) + (EncodeUleb(|t.rows|) + EncodeRows(t.rows)))
  }

  ghost predicate TableFits(t: Table5, isFile: bool, size: OffsetSize, sections: Sections, most: nat) {
    && |t.columns| <= FORMAT_MAX && |t.rows| <= most
    && RowsFit(t.columns, t.rows, isFile, size, sections)
  }

  ghost predicate RowsFit(columns: seq<Column>, rows: seq<seq<Bytes>>, isFile: bool, size: OffsetSize,
                          sections: Sections) {
    forall k | 0 <= k < |rows| :: CellsFit(columns, isFile, size, sections, rows[k])
  }

  lemma EncodeColumnsStep(columns: seq<Column>, tail: Bytes)
    requires columns != []
    ensures EncodeColumns(columns) + tail
         == EncodeUleb(columns[0].content) + (EncodeUleb(columns[0].form) + (EncodeColumns(columns[1..]) + tail))
  {
    hide EncodeUleb;
  }

  lemma ColumnEncoded(c: Column, n: nat, rest: Bytes, before: seq<Column>)
    requires n > 0
    ensures ReadColumns(n, EncodeUleb(c.content) + (EncodeUleb(c.form) + rest), before)
         == ReadColumns(n - 1, rest, before + [c])
  {
    hide Uleb, EncodeUleb;
    UlebRoundTrip(c.content, EncodeUleb(c.form) + rest);
    UlebRoundTrip(c.form, rest);
  }

  lemma {:induction false} ColumnsEncoded(columns: seq<Column>, tail: Bytes, before: seq<Column>)
    ensures ReadColumns(|columns|, EncodeColumns(columns) + tail, before) == Got(before + columns, tail)
    decreases |columns|
  {
    hide EncodeUleb, EncodeColumns, ReadColumns;
    if columns == [] {
      NoColumnsEncoded(tail, before);
    } else {
      EncodeColumnsStep(columns, tail);
      ColumnEncoded(columns[0], |columns|, EncodeColumns(columns[1..]) + tail, before);
      ColumnsEncoded(columns[1..], tail, before + [columns[0]]);
      Regroup(before, columns);
    }
  }

  lemma NoColumnsEncoded(tail: Bytes, before: seq<Column>)
    ensures ReadColumns(0, EncodeColumns([]) + tail, before) == Got(before + [], tail)
  {
    assert EncodeColumns([]) + tail == tail && before + [] == before;
  }

  lemma Regroup(before: seq<Column>, columns: seq<Column>)
    requires columns != []
    ensures before + [columns[0]] + columns[1..] == before + columns
  {
  }

  lemma TableHeadEncoded(t: Table5, most: nat, tail: Bytes)
    requires |t.columns| <= FORMAT_MAX && |t.rows| <= most < U64
    ensures ReadTableHead(EncodeTable(t) + tail, most)
         == Got(TableHead(t.columns, |t.rows|), EncodeRows(t.rows) + tail)
  {
    hide Uleb, EncodeUleb, EncodeColumns, EncodeRows, ReadColumns;
    var s1 := EncodeUleb(|t.rows|) + (EncodeRows(t.rows) + tail);
    assert (EncodeTable(t) + tail)[1..] == EncodeColumns(t.columns) + s1;
    ColumnsEncoded(t.columns, s1, []);
    assert [] + t.columns == t.columns;
    UlebRoundTrip(|t.rows|, EncodeRows(t.rows) + tail);
  }

  /** Directory names, in order. */
  ghost function DirectoryNames(columns: seq<Column>, rows: seq<seq<Bytes>>, size: OffsetSize, sections: Sections)
    : seq<CString>
    requires RowsFit(columns, rows, false, size, sections)
    decreases |rows|
  {
    if rows == [] then [] else
    [EntryMeaning(columns, false, size, sections, rows[0], BLANK).path]
      + DirectoryNames(columns, rows[1..], size, sections)
  }

  /** File entries, in order. */
  ghost function FileEntries(columns: seq<Column>, rows: seq<seq<Bytes>>, size: OffsetSize, sections: Sections)
    : seq<Entry>
    requires RowsFit(columns, rows, true, size, sections)
    decreases |rows|
  {
    if rows == [] then [] else
    [EntryMeaning(columns, true, size, sections, rows[0], BLANK)] + FileEntries(columns, rows[1..], size, sections)
  }

  function JoinedNames(dirs: seq<CString>, entries: seq<Entry>): seq<CString>
    decreases |entries|
  {
    if entries == [] then [] else [JoinedName(dirs, entries[0])] + JoinedNames(dirs, entries[1..])
  }

  predicate AllNameable(dirs: seq<CString>, entries: seq<Entry>) {
    forall k | 0 <= k < |entries| :: Nameable(dirs, entries[k])
  }

  lemma {:induction false} Directories5Encoded(columns: seq<Column>, rows: seq<seq<Bytes>>, size: OffsetSize,
                                               sections: Sections, tail: Bytes, pool: Bytes,
                                               offs: Files, names: NameList)
    requires |pool| <= STR_MAX && Closed(pool) && Names(pool, offs, names)
    requires RowsFit(columns, rows, false, size, sections)
    requires |pool| + Room(DirectoryNames(columns, rows, size, sections)) <= STR_MAX
    ensures var t := Directories5(columns, |rows|, size, sections, EncodeRows(rows) + tail, pool, offs);
      var dirs := DirectoryNames(columns, rows, size, sections);
      && t.status == Accepted && t.rest == tail
      && Closed(t.pool) && |t.pool| == |pool| + Room(dirs)
      && Names(t.pool, t.offs, names + SomeNames(dirs))
    decreases |rows|
  {
    hide AddString, Names, Closed, ReadEntry, EntryMeaning, CellsFit, Flatten;
    var dirs := DirectoryNames(columns, rows, size, sections);
    if rows == [] {
      assert EncodeRows(rows) + tail == tail && names + SomeNames(dirs) == names;
    } else {
      var rest := EncodeRows(rows[1..]) + tail;
      var e := EntryMeaning(columns, false, size, sections, rows[0], BLANK);
      assert EncodeRows(rows) + tail == Flatten(rows[0]) + rest;
      EntryEncoded(columns, false, size, sections, rows[0], rest, BLANK);
      InternOne(pool, offs, names, e.path);
      var a := AddString(pool, e.path);
      Directories5Encoded(columns, rows[1..], size, sections, tail, a.pool, offs + [a.off], names + [Some(e.path)]);
      NamesMove(names, dirs);
    }
  }

  lemma {:induction false} Files5Encoded(columns: seq<Column>, rows: seq<seq<Bytes>>, size: OffsetSize,
                                         sections: Sections, dirs: seq<CString>, tail: Bytes, pool: Bytes,
                                         dirOffs: Files, offs: Files, names: NameList)
    requires |pool| <= STR_MAX && Closed(pool) && Names(pool, offs, names)
    requires Names(pool, dirOffs, SomeNames(dirs))
    requires RowsFit(columns, rows, true, size, sections)
    requires AllNameable(dirs, FileEntries(columns, rows, size, sections))
    requires |pool| + Room(JoinedNames(dirs, FileEntries(columns, rows, size, sections))) <= STR_MAX
    ensures var t := Files5(columns, |rows|, size, sections, EncodeRows(rows) + tail, pool, dirOffs, offs);
      var files := JoinedNames(dirs, FileEntries(columns, rows, size, sections));
      && t.status == Accepted && t.rest == tail
      && Closed(t.pool) && |t.pool| == |pool| + Room(files)
      && Names(t.pool, t.offs, names + SomeNames(files))
    decreases |rows|
  {
    hide AddString, Names, Closed, ReadEntry, EntryMeaning, CellsFit, Flatten, JoinedName, Nameless, FileName, Nameable;
    var entries := FileEntries(columns, rows, size, sections);
    var files := JoinedNames(dirs, entries);
    if rows == [] {
      assert EncodeRows(rows) + tail == tail && names + SomeNames(files) == names;
    } else {
      var rest := EncodeRows(rows[1..]) + tail;
      var e := EntryMeaning(columns, true, size, sections, rows[0], BLANK);
      var name := JoinedName(dirs, e);
      assert EncodeRows(rows) + tail == Flatten(rows[0]) + rest;
      EntryEncoded(columns, true, size, sections, rows[0], rest, BLANK);
      FileNameIsJoined(pool, dirOffs, dirs, e);
      assert Nameable(dirs, entries[0]);
      assert entries[1..] == FileEntries(columns, rows[1..], size, sections);
      InternOne(pool, offs, names, name);
      var a := AddString(pool, name);
      NamesGrow(pool, a.pool, dirOffs, SomeNames(dirs));
      Files5Encoded(columns, rows[1..], size, sections, dirs, tail, a.pool, dirOffs,
                    offs + [a.off], names + [Some(name)]);
      assert files[1..] == JoinedNames(dirs, entries[1..]);
      NamesMove(names, files);
    }
  }

  /** The version 5 tables round-trip: every file offset names the clipped join of that file with its
      directory, for any format the producer chose. */
  lemma Tables5RoundTrip(d: Table5, f: Table5, size: OffsetSize, sections: Sections, tail: Bytes, pool: Bytes)
    requires |pool| <= STR_MAX && Closed(pool)
    requires TableFits(d, false, size, sections, DIRS_MAX) && TableFits(f, true, size, sections, FILES_MAX)
    requires var dirs := DirectoryNames(d.columns, d.rows, size, sections);
      var entries := FileEntries(f.columns, f.rows, size, sections);
      AllNameable(dirs, entries) && |pool| + Room(dirs) + Room(JoinedNames(dirs, entries)) <= STR_MAX
    ensures var t := Tables5(size, sections, EncodeTable(d) + EncodeTable(f) + tail, pool);
      var dirs := DirectoryNames(d.columns, d.rows, size, sections);
      var files := JoinedNames(dirs, FileEntries(f.columns, f.rows, size, sections));
      && t.status == Accepted && t.rest == tail
      && Closed(t.pool) && |t.pool| == |pool| + Room(dirs) + Room(files)
      && Names(t.pool, t.offs, SomeNames(files))
  {
    hide Names, Closed, Files5, Directories5, EncodeTable, Tables5, ReadTableHead, JoinedNames, FileEntries,
      DirectoryNames, EncodeRows, RowsFit, AllNameable, Room;
    var dirs := DirectoryNames(d.columns, d.rows, size, sections);
    var files := JoinedNames(dirs, FileEntries(f.columns, f.rows, size, sections));
    var s, s1 := EncodeTable(d) + EncodeTable(f) + tail, EncodeTable(f) + tail;
    assert s == EncodeTable(d) + s1;
    Tables5Steps(size, sections, s, pool);
    TableHeadEncoded(d, DIRS_MAX, s1);
    EmptyNames(pool);
    Directories5Encoded(d.columns, d.rows, size, sections, s1, pool, [], []);
    assert [] + SomeNames(dirs) == SomeNames(dirs);
    TableHeadEncoded(f, FILES_MAX, tail);
    var t := Directories5(d.columns, |d.rows|, size, sections, EncodeRows(d.rows) + s1, pool, []);
    EmptyNames(t.pool);
    Files5Encoded(f.columns, f.rows, size, sections, dirs, tail, t.pool, t.offs, [], []);
    assert [] + SomeNames(files) == SomeNames(files);
  }

  // ---- Values of the forms the decoder skips ----

  /** An attribute value (section 7.5.5 of the DWARF 5 standard). */
  datatype Value =
    | Address(address: u64)
    | Data1(v1: byte) | Data2(v2: u16) | Data4(v4: u32) | Data8(v8: u64) | Data16(digest: Bytes)
    | Unsigned(u: u64, zeros: nat)  // padded with that many zero groups
    | SignedNumber(d: i64)
    | Text(text: CString)
    | Flag(flag: byte) | FlagPresent | ImplicitConst
    | Block(payload: Bytes) | Block1(payload: Bytes) | Block2(payload: Bytes) | Block4(payload: Bytes)
    | Expression(payload: Bytes)
    | StringOffset(off: u64) | LineStringOffset(off: u64) | SectionOffset(off: u64) | Reference(off: u64)

  function FormCode(v: Value): u64 {
    match v
    case Address(_) => 0x01
    case Block2(_) => 0x03
    case Block4(_) => 0x04
    case Data2(_) => 0x05
    case Data4(_) => 0x06
    case Data8(_) => 0x07
    case Text(_) => 0x08
    case Block(_) => 0x09
    case Block1(_) => 0x0a
    case Data1(_) => 0x0b
    case Flag(_) => 0x0c
    case SignedNumber(_) => 0x0d
    case StringOffset(_) => 0x0e
    case Unsigned(_, _) => 0x0f
    case Reference(_) => 0x10
    case SectionOffset(_) => 0x17
    case Expression(_) => 0x18
    case FlagPresent => 0x19
    case Data16(_) => 0x1e
    case LineStringOffset(_) => 0x1f
    case ImplicitConst => 0x21
  }

  predicate ValueFits(v: Value) {
    match v
    case Data16(digest) => |digest| == 16
    case Unsigned(u, zeros) => |PadUleb(u, zeros)| <= 10
    case Block1(p) => |p| < 0x100
    case Block2(p) => |p| < 0x1_0000
    case Block4(p) => |p| < 0x1_0000_0000
    case Block(p) => |p| < U64
    case Expression(p) => |p| < U64
    case _ => true
  }

  function EncodeValue(v: Value, size: OffsetSize): Bytes {
    match v
    case Address(a) => LeBytes(a, 8)
    case Data1(b) => [b]
    case Data2(w) => LeBytes(w, 2)
    case Data4(w) => LeBytes(w, 4)
    case Data8(w) => LeBytes(w, 8)
    case Data16(digest) => digest
    case Unsigned(u, zeros) => PadUleb(u, zeros)
    case SignedNumber(d) => EncodeSleb(d)
    case Text(text) => text + [0]
    case Flag(b) => [b]
    case FlagPresent => []
    case ImplicitConst => []
    case Block(p) => EncodeUleb(|p|) + p
    case Block1(p) => LeBytes(|p|, 1) + p
    case Block2(p) => LeBytes(|p|, 2) + p
    case Block4(p) => LeBytes(|p|, 4) + p
    case Expression(p) => EncodeUleb(|p|) + p
    case StringOffset(off) => LeBytes(off, size)
    case LineStringOffset(off) => LeBytes(off, size)
    case SectionOffset(off) => LeBytes(off, size)
    case Reference(off) => LeBytes(off, size)
  }

  lemma SkipsPrefix(a: Bytes, tail: Bytes)
    ensures Skip(a + tail, |a|) == Got((), tail)
  {
    assert (a + tail)[|a|..] == tail;
  }

  lemma FixedValueSkipped(v: Value, size: OffsetSize, tail: Bytes)
    requires ValueFits(v)
    requires v.Address? || v.Data1? || v.Data2? || v.Data4? || v.Data8? || v.Data16? || v.Flag? || v.FlagPresent?
          || v.ImplicitConst? || v.StringOffset? || v.LineStringOffset? || v.SectionOffset? || v.Reference?
    ensures FormSkip(FormCode(v), size, EncodeValue(v, size) + tail) == Got((), tail)
  {
    hide LeBytes, Skip, Uleb, Sleb, StringForm, Le;
    SkipsPrefix(EncodeValue(v, size), tail);
  }

  lemma TextRead(text: CString, tail: Bytes)
    ensures StringForm(text + [0] + tail) == Got(text, tail)
  {
    hide StrLen;
    StringInFront(text, tail);
  }

  lemma NumberSkipped(v: Value, size: OffsetSize, tail: Bytes)
    requires ValueFits(v) && (v.Unsigned? || v.SignedNumber? || v.Text?)
    ensures FormSkip(FormCode(v), size, EncodeValue(v, size) + tail) == Got((), tail)
  {
    hide Skip, Uleb, Sleb, Le, PadUleb, EncodeSleb, StringForm;
    match v
    case Unsigned(u, zeros) => PaddedUlebRoundTrip(u, zeros, tail);
    case SignedNumber(d) => SlebRoundTrip(d, tail);
    case Text(text) => TextRead(text, tail);
  }

  lemma BlockSkipped(v: Value, size: OffsetSize, tail: Bytes)
    requires ValueFits(v) && (v.Block? || v.Block1? || v.Block2? || v.Block4? || v.Expression?)
    ensures FormSkip(FormCode(v), size, EncodeValue(v, size) + tail) == Got((), tail)
  {
    hide Skip, Uleb, Sleb, Le, EncodeUleb, LeBytes, StringForm;
    var p := v.payload;
    var width := if v.Block1? then 1 else if v.Block2? then 2 else 4;
    SkipsPrefix(p, tail);
    if v.Block? || v.Expression? {
      UlebRoundTrip(|p|, p + tail);
      assert EncodeValue(v, size) + tail == EncodeUleb(|p|) + (p + tail);
    } else {
      Pow256Words();
      LeOfEncoding(|p|, width, p + tail);
      assert EncodeValue(v, size) + tail == LeBytes(|p|, width) + (p + tail);
    }
  }

  /** Every value of every form is skipped exactly, whatever follows. */
  lemma ValueSkipped(v: Value, size: OffsetSize, tail: Bytes)
    requires ValueFits(v)
    ensures FormSkip(FormCode(v), size, EncodeValue(v, size) + tail) == Got((), tail)
  {
    hide FormSkip, EncodeValue, FormCode, ValueFits;
    if v.Unsigned? || v.SignedNumber? || v.Text? {
      NumberSkipped(v, size, tail);
    } else if v.Block? || v.Block1? || v.Block2? || v.Block4? || v.Expression? {
      BlockSkipped(v, size, tail);
    } else {
      FixedValueSkipped(v, size, tail);
    }
  }

  /** Every other form is refused. */
  lemma OtherFormRefused(form: u64, size: OffsetSize, s: Bytes)
    requires form !in {0x01, 0x03, 0x04, 0x05, 0x06, 0x07, 0x08, 0x09, 0x0a, 0x0b, 0x0c, 0x0d, 0x0e, 0x0f, 0x10,
                       0x17, 0x18, 0x19, 0x1e, 0x1f, 0x21}
    ensures FormSkip(form, size, s) == Bad(s)
  {
    hide Skip, Uleb, Sleb, Le, StringForm;
  }

  // ---- Tables from lists of names ----

  /** Where a path is: in line, or in `.debug_line_str` or `.debug_str` at an offset. */
  datatype PathForm = InLine | InLineStr | InDebugStr {
    function Code(): u64 {
      match this
      case InLine => 0x08
      case InLineStr => 0x1f
      case InDebugStr => 0x0e
    }
  }

  /** How a directory index is written. */
  datatype IndexForm = AsUleb | InOne | InTwo | InFour {
    function Code(): u64 {
      match this
      case AsUleb => 0x0f
      case InOne => 0x0b
      case InTwo => 0x05
      case InFour => 0x06
    }
  }

  /** A column as a producer chooses it: a path, a directory index, or something the decoder skips. */
  datatype Spec = PathIn(path: PathForm) | IndexIn(index: IndexForm) | Skipped(content: u64, form: u64)

  /** An entry as a producer has it: its name, the index of its directory (for a file), where the name lies in a
      string section (for a path stored there), and, by column, the values the decoder skips. */
  datatype Item = Item(name: CString, dir: u64, at: nat, skipped: seq<Value>)

  datatype TableListFields = TableList(specs: seq<Spec>, items: seq<Item>) {
    predicate Valid() {
      forall k | 0 <= k < |items| :: |items[k].skipped| == |specs|
    }
  }

  type TableList = t: TableListFields | t.Valid() witness TableList([], [])

  function ColumnOf(spec: Spec): Column {
    match spec
    case PathIn(form) => Column(1, form.Code())
    case IndexIn(form) => Column(2, form.Code())
    case Skipped(content, form) => Column(content, form)
  }

  predicate Lies(section: Bytes, at: nat, name: CString) {
    at < |section| && name + [0] <= section[at..]
  }

  function EncodeCell(spec: Spec, item: Item, skipped: Value, size: OffsetSize): Bytes {
    match spec
    case PathIn(form) => if form.InLine? then item.name + [0] else LeBytes(item.at, size)
    case IndexIn(form) =>
      (match form
       case AsUleb => EncodeUleb(item.dir)
       case InOne => LeBytes(item.dir, 1)
       case InTwo => LeBytes(item.dir, 2)
       case InFour => LeBytes(item.dir, 4))
    case Skipped(_, _) => EncodeValue(skipped, size)
  }

  /** The column can hold its part of the item. */
  predicate Holds(spec: Spec, item: Item, skipped: Value, isFile: bool, size: OffsetSize, sections: Sections) {
    match spec
    case PathIn(form) =>
      form.InLine? ||
      (&& item.at < (if size == 8 then U64 else U32)
       && Lies(if form.InLineStr? then sections.lineStr else sections.debugStr, item.at, item.name))
    case IndexIn(form) =>
      isFile && item.dir < (match form
                            case AsUleb => U64
                            case InOne => 0x100
                            case InTwo => U16
                            case InFour => U32)
    case Skipped(content, form) =>
      && content != 1 && (isFile ==> content != 2) && FormCode(skipped) == form && ValueFits(skipped)
  }

  lemma PathCell(form: PathForm, item: Item, skipped: Value, isFile: bool, size: OffsetSize, sections: Sections)
    requires Holds(PathIn(form), item, skipped, isFile, size, sections)
    ensures FormPath(form.Code(), size, sections, EncodeCell(PathIn(form), item, skipped, size)) == Got(item.name, [])
  {
    hide StrLen, LeValue, LeBytes, Pow256;
    if form.InLine? {
      hide StringForm;
      TextRead(item.name, []);
      assert item.name + [0] + [] == item.name + [0];
    } else {
      Pow256Words();
      LeOfEncoding(item.at, size, []);
      assert LeBytes(item.at, size) + [] == LeBytes(item.at, size);
      LiesThere(if form.InLineStr? then sections.lineStr else sections.debugStr, item.at, item.name);
    }
  }

  lemma LiesThere(section: Bytes, at: nat, name: CString)
    requires Lies(section, at, name)
    ensures 0 in section[at..] && CStr(section[at..]) == name
  {
    hide StrLen;
    var rest := section[at..][|name| + 1..];
    assert section[at..] == name + [0] + rest;
    StringInFront(name, rest);
  }

  lemma IndexCell(form: IndexForm, item: Item, skipped: Value, size: OffsetSize, sections: Sections)
    requires Holds(IndexIn(form), item, skipped, true, size, sections)
    ensures FormUdata(form.Code(), EncodeCell(IndexIn(form), item, skipped, size)) == Got(item.dir, [])
  {
    hide Uleb, EncodeUleb, LeValue, LeBytes, Pow256;
    if form.AsUleb? {
      UlebRoundTrip(item.dir, []);
      assert EncodeUleb(item.dir) + [] == EncodeUleb(item.dir);
    } else {
      var n := if form.InOne? then 1 else if form.InTwo? then 2 else 4;
      Pow256Words();
      LeOfEncoding(item.dir, n, []);
      assert LeBytes(item.dir, n) + [] == LeBytes(item.dir, n);
    }
  }

  lemma SkippedCell(v: Value, size: OffsetSize)
    requires ValueFits(v)
    ensures FormSkip(FormCode(v), size, EncodeValue(v, size)) == Got((), [])
  {
    hide FormSkip, EncodeValue, FormCode;
    ValueSkipped(v, size, []);
    assert EncodeValue(v, size) + [] == EncodeValue(v, size);
  }

  /** An encoded cell is a value of its form and stands for what was encoded. */
  lemma CellOfItem(spec: Spec, item: Item, skipped: Value, isFile: bool, size: OffsetSize, sections: Sections, e: Entry)
    requires Holds(spec, item, skipped, isFile, size, sections)
    ensures var column, cell := ColumnOf(spec), EncodeCell(spec, item, skipped, size);
      && CellFits(column, isFile, size, sections, cell)
      && CellMeaning(column, isFile, size, sections, cell, e) == match spec
         case PathIn(_) => e.(path := item.name)
         case IndexIn(_) => e.(dir := Some(item.dir))
         case Skipped(_, _) => e
  {
    hide FormPath, FormUdata, FormSkip, LeBytes, EncodeUleb, EncodeValue, FormCode, ValueFits;
    match spec
    case PathIn(form) => PathCell(form, item, skipped, isFile, size, sections);
    case IndexIn(form) => IndexCell(form, item, skipped, size, sections);
    case Skipped(_, _) => SkippedCell(skipped, size);
  }

  function ColumnsOf(specs: seq<Spec>): (columns: seq<Column>)
    ensures |columns| == |specs|
    ensures forall k | 0 <= k < |specs| :: columns[k] == ColumnOf(specs[k])
    decreases |specs|
  {
    if specs == [] then [] else [ColumnOf(specs[0])] + ColumnsOf(specs[1..])
  }

  function CellsOf(specs: seq<Spec>, item: Item, skipped: seq<Value>, size: OffsetSize): (cells: seq<Bytes>)
    requires |skipped| == |specs|
    ensures |cells| == |specs|
    ensures forall k | 0 <= k < |specs| :: cells[k] == EncodeCell(specs[k], item, skipped[k], size)
    decreases |specs|
  {
    if specs == [] then [] else
    [EncodeCell(specs[0], item, skipped[0], size)] + CellsOf(specs[1..], item, skipped[1..], size)
  }

  predicate HoldsAll(specs: seq<Spec>, item: Item, skipped: seq<Value>, isFile: bool, size: OffsetSize,
                     sections: Sections) {
    |skipped| == |specs| &&
    forall k | 0 <= k < |specs| :: Holds(specs[k], item, skipped[k], isFile, size, sections)
  }

  predicate HasPath(specs: seq<Spec>) {
    exists k | 0 <= k < |specs| :: specs[k].PathIn?
  }

  predicate HasIndex(specs: seq<Spec>) {
    exists k | 0 <= k < |specs| :: specs[k].IndexIn?
  }

  /** What an item is in a table with these columns, on top of `e`. */
  function EntryOf(specs: seq<Spec>, item: Item, e: Entry): Entry {
    Entry(if HasPath(specs) then item.name else e.path, if HasIndex(specs) then Some(item.dir) else e.dir)
  }

  lemma EntryOfStep(specs: seq<Spec>, item: Item, e: Entry)
    requires specs != []
    ensures EntryOf(specs, item, e) == EntryOf(specs[1..], item, match specs[0]
      case PathIn(_) => e.(path := item.name)
      case IndexIn(_) => e.(dir := Some(item.dir))
      case Skipped(_, _) => e)
  {
    var rest := specs[1..];
    assert forall k | 0 <= k < |rest| :: rest[k] == specs[k + 1];
    assert HasPath(specs) <==> specs[0].PathIn? || HasPath(rest) by {
      if k :| 0 <= k < |specs| && specs[k].PathIn? && k > 0 {
        assert rest[k - 1].PathIn?;
      }
    }
    assert HasIndex(specs) <==> specs[0].IndexIn? || HasIndex(rest) by {
      if k :| 0 <= k < |specs| && specs[k].IndexIn? && k > 0 {
        assert rest[k - 1].IndexIn?;
      }
    }
  }

  lemma {:induction false} EntryOfItem(specs: seq<Spec>, item: Item, skipped: seq<Value>, isFile: bool,
                                       size: OffsetSize, sections: Sections, e: Entry)
    requires HoldsAll(specs, item, skipped, isFile, size, sections)
    ensures var columns, cells := ColumnsOf(specs), CellsOf(specs, item, skipped, size);
      && CellsFit(columns, isFile, size, sections, cells)
      && EntryMeaning(columns, isFile, size, sections, cells, e) == EntryOf(specs, item, e)
    decreases |specs|
  {
    hide CellFits, CellMeaning, Holds, EncodeCell, ColumnOf, EntryOf;
    forall k | 0 <= k < |specs|
      ensures CellFits(ColumnOf(specs[k]), isFile, size, sections, EncodeCell(specs[k], item, skipped[k], size))
    {
      CellOfItem(specs[k], item, skipped[k], isFile, size, sections, e);
    }
    if specs == [] {
      NoColumns(item, e);
    } else {
      CellOfItem(specs[0], item, skipped[0], isFile, size, sections, e);
      var cell := EncodeCell(specs[0], item, skipped[0], size);
      var e' := CellMeaning(ColumnOf(specs[0]), isFile, size, sections, cell, e);
      EntryOfStep(specs, item, e);
      EntryOfItem(specs[1..], item, skipped[1..], isFile, size, sections, e');
    }
  }

  lemma NoColumns(item: Item, e: Entry)
    ensures EntryOf([], item, e) == e
  {
  }

  /** Every column can hold its part of every item. */
  predicate ItemsHold(specs: seq<Spec>, items: seq<Item>, isFile: bool, size: OffsetSize, sections: Sections) {
    forall k | 0 <= k < |items| ::
      |items[k].skipped| == |specs| && HoldsAll(specs, items[k], items[k].skipped, isFile, size, sections)
  }

  function ItemCells(specs: seq<Spec>, item: Item, size: OffsetSize): seq<Bytes> {
    if |item.skipped| == |specs| then CellsOf(specs, item, item.skipped, size) else []
  }

  function RowsOfItems(specs: seq<Spec>, items: seq<Item>, size: OffsetSize): (rows: seq<seq<Bytes>>)
    ensures |rows| == |items|
    ensures forall k | 0 <= k < |items| :: rows[k] == ItemCells(specs, items[k], size)
    decreases |items|
  {
    if items == [] then [] else [ItemCells(specs, items[0], size)] + RowsOfItems(specs, items[1..], size)
  }

  /** The table is within the caps of the decoder, its columns can hold its items, and names are stored at all. */
  predicate ListFits(t: TableList, isFile: bool, size: OffsetSize, sections: Sections, most: nat) {
    && |t.specs| <= 16 && |t.items| <= most
    && HasPath(t.specs) && ItemsHold(t.specs, t.items, isFile, size, sections)
  }

  /** The table as the header stores it. */
  function TableOf(t: TableList, size: OffsetSize): Table5 {
    Table5(ColumnsOf(t.specs), RowsOfItems(t.specs, t.items, size))
  }

  function ItemNames(items: seq<Item>): (names: seq<CString>)
    ensures |names| == |items| && forall k | 0 <= k < |items| :: names[k] == items[k].name
    decreases |items|
  {
    if items == [] then [] else [items[0].name] + ItemNames(items[1..])
  }

  /** The files of a list: each with its name, and with its directory when the table has a column for it. */
  function ItemFiles(items: seq<Item>, indexed: bool): (files: seq<Entry>)
    ensures |files| == |items|
    ensures forall k | 0 <= k < |items| ::
      files[k] == Entry(items[k].name, if indexed then Some(items[k].dir) else None)
    decreases |items|
  {
    if items == [] then [] else
    [Entry(items[0].name, if indexed then Some(items[0].dir) else None)] + ItemFiles(items[1..], indexed)
  }

  lemma {:induction false} DirectoriesOfList(specs: seq<Spec>, items: seq<Item>, size: OffsetSize, sections: Sections)
    requires HasPath(specs)
    requires ItemsHold(specs, items, false, size, sections)
    ensures var columns, rows := ColumnsOf(specs), RowsOfItems(specs, items, size);
      RowsFit(columns, rows, false, size, sections)
      && DirectoryNames(columns, rows, size, sections) == ItemNames(items)
    decreases |items|
  {
    hide CellsFit, EntryMeaning, Holds, EncodeCell, HasPath, HasIndex;
    forall k | 0 <= k < |items|
      ensures CellsFit(ColumnsOf(specs), false, size, sections, ItemCells(specs, items[k], size))
    {
      EntryOfItem(specs, items[k], items[k].skipped, false, size, sections, BLANK);
    }
    if items != [] {
      EntryOfItem(specs, items[0], items[0].skipped, false, size, sections, BLANK);
      DirectoriesOfList(specs, items[1..], size, sections);
    }
  }

  lemma {:induction false} FilesOfList(specs: seq<Spec>, items: seq<Item>, size: OffsetSize, sections: Sections)
    requires HasPath(specs)
    requires ItemsHold(specs, items, true, size, sections)
    ensures var columns, rows := ColumnsOf(specs), RowsOfItems(specs, items, size);
      RowsFit(columns, rows, true, size, sections)
      && FileEntries(columns, rows, size, sections) == ItemFiles(items, HasIndex(specs))
    decreases |items|
  {
    hide CellsFit, EntryMeaning, Holds, EncodeCell, HasPath, HasIndex;
    forall k | 0 <= k < |items|
      ensures CellsFit(ColumnsOf(specs), true, size, sections, ItemCells(specs, items[k], size))
    {
      EntryOfItem(specs, items[k], items[k].skipped, true, size, sections, BLANK);
    }
    if items != [] {
      EntryOfItem(specs, items[0], items[0].skipped, true, size, sections, BLANK);
      FilesOfList(specs, items[1..], size, sections);
    }
  }

  /** Serializing lists of directories and files in any format, with paths in line or in either string section and
      indices of any width, and reading them back yields for every file the clipped join of its name with the
      directory its index names. */
  lemma ListsRoundTrip(d: TableList, f: TableList, size: OffsetSize, sections: Sections, tail: Bytes, pool: Bytes)
    requires |pool| <= STR_MAX && Closed(pool)
    requires ListFits(d, false, size, sections, DIRS_MAX) && ListFits(f, true, size, sections, FILES_MAX)
    requires var dirs, files := ItemNames(d.items), ItemFiles(f.items, HasIndex(f.specs));
      AllNameable(dirs, files) && |pool| + Room(dirs) + Room(JoinedNames(dirs, files)) <= STR_MAX
    ensures var s := EncodeTable(TableOf(d, size)) + EncodeTable(TableOf(f, size)) + tail;
      var t := Tables5(size, sections, s, pool);
      var names := JoinedNames(ItemNames(d.items), ItemFiles(f.items, HasIndex(f.specs)));
      && t.status == Accepted && t.rest == tail
      && Closed(t.pool) && |t.pool| == |pool| + Room(ItemNames(d.items)) + Room(names)
      && Names(t.pool, t.offs, SomeNames(names))
  {
    hide Names, Closed, EncodeTable, Tables5, JoinedNames, FileEntries, DirectoryNames, RowsFit, AllNameable, Room,
      HasPath, HasIndex, Holds, RowsOfItems, ColumnsOf;
    DirectoriesOfList(d.specs, d.items, size, sections);
    FilesOfList(f.specs, f.items, size, sections);
    Tables5RoundTrip(TableOf(d, size), TableOf(f, size), size, sections, tail, pool);
  }
}
