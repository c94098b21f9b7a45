/** Directory and file tables as producers write them, and what reading them back yields: for every file, a
    pool string equal to the clipped join of its name with its directory. */
module EncodedTables {
  import opened Bytes
  import opened Leb128
  import opened Paths
  import opened Wrappers
  import opened LineTables
  import opened LinePrograms
  import opened EntryTables
  import opened NamedRows

  // ---- Names ----

  predicate InDirectory(dirs: seq<CString>, e: Entry) {
    e.dir.Some? && e.dir.value < |dirs|
  }

  /** The name a file should get: the ideal join with its directory, as far as the buffer reaches. */
  function JoinedName(dirs: seq<CString>, e: Entry): CString {
    if InDirectory(dirs, e) then Take(IdealJoin(dirs[e.dir.value], e.path), 511) else e.path
  }

  /** The decoder refuses a file whose joined name is empty. */
  predicate Nameable(dirs: seq<CString>, e: Entry) {
    InDirectory(dirs, e) ==> JoinedName(dirs, e) != []
  }

  lemma NonEmptyNameable(dirs: seq<CString>, e: Entry)
    requires e.path != []
    ensures Nameable(dirs, e)
  {
  }

  function SomeNames(names: seq<CString>): (n: NameList)
    ensures |n| == |names| && forall k | 0 <= k < |names| :: n[k] == Some(names[k])
    decreases |names|
  {
    if names == [] then [] else [Some(names[0])] + SomeNames(names[1..])
  }

  /** Room the names take in the pool, with their terminators. */
  function Room(names: seq<CString>): nat
    decreases |names|
  {
    if names == [] then 0 else |names[0]| + 1 + Room(names[1..])
  }

  /** With room for it, a name is interned whole, and the names before it keep their offsets. */
  lemma InternOne(pool: Bytes, offs: Files, names: NameList, name: CString)
    requires |pool| <= STR_MAX && Closed(pool) && Names(pool, offs, names) && |pool| + |name| < STR_MAX
    ensures var a := AddString(pool, name);
      && Closed(a.pool) && |a.pool| == |pool| + |name| + 1
      && Names(a.pool, offs + [a.off], names + [Some(name)])
  {
    hide StartsString, NameAt, Stored;
    var a := AddString(pool, name);
    AddStringFacts(pool, name);
    StoredWhole(pool, name);
    NamesGrow(pool, a.pool, offs, names);
    assert Stands(a.pool, a.off, Some(name));
    NamesAppend(a.pool, offs, names, a.off, Some(name));
  }

  lemma NamesAppend(pool: Bytes, offs: Files, names: NameList, off: int, name: Option<CString>)
    requires Names(pool, offs, names) && off < STR_MAX && Stands(pool, off, name)
    ensures Names(pool, offs + [off], names + [name])
  {
    hide Stands;
  }

  /** The decoder computes the intended name from the pool. */
  lemma FileNameIsJoined(pool: Bytes, offs: Files, dirs: seq<CString>, e: Entry)
    requires Names(pool, offs, SomeNames(dirs))
    ensures FileName(pool, offs, e) == JoinedName(dirs, e)
    ensures Nameless(pool, offs, e) <==> !Nameable(dirs, e)
  {
    hide NameAt, IdealJoin;
    if InDirectory(dirs, e) {
      assert Stands(pool, offs[e.dir.value], SomeNames(dirs)[e.dir.value]);
    }
  }

  // ---- Version 2-4 layout ----

  datatype FileEntry4 = FileEntry4(name: CString, dir: u64, mtime: u64, length: u64)

  function EncodeStrings(names: seq<CString>): Bytes
    decreases |names|
  {
    if names == [] then [] else names[0] + [0] + EncodeStrings(names[1..])
  }

  function EncodeFile4(f: FileEntry4): Bytes {
    f.name + [0] + (EncodeUleb(f.dir) + (EncodeUleb(f.mtime) + EncodeUleb(f.length)))
  }

  function EncodeFiles4(files: seq<FileEntry4>): Bytes
    decreases |files|
  {
    if files == [] then [] else EncodeFile4(files[0]) + EncodeFiles4(files[1..])
  }

  function EncodeTables4(dirs: seq<CString>, files: seq<FileEntry4>): Bytes {
    EncodeStrings(dirs) + ([0] + (EncodeFiles4(files) + [0]))
  }

  function FileName4(dirs: seq<CString>, f: FileEntry4): CString {
    JoinedName([[]] + dirs, Entry(f.name, Some(f.dir)))
  }

  /** Directory 0 is the compilation directory, whose name this layout does not store. */
  function FileNames4(dirs: seq<CString>, files: seq<FileEntry4>): seq<CString>
    decreases |files|
  {
    if files == [] then [] else [FileName4(dirs, files[0])] + FileNames4(dirs, files[1..])
  }

  predicate NonEmptyStrings(names: seq<CString>) {
    forall k | 0 <= k < |names| :: names[k] != []
  }

  predicate NonEmptyFiles(files: seq<FileEntry4>) {
    forall k | 0 <= k < |files| :: files[k].name != []
  }

  /** One directory is read back and interned whole. */
  lemma DirectoryStepEncoded(d: CString, rest: Bytes, pool: Bytes, offs: Files, names: NameList)
    requires |pool| <= STR_MAX && Closed(pool) && Names(pool, offs, names)
    requires d != [] && |pool| + |d| < STR_MAX
    ensures var s, a := d + [0] + rest, AddString(pool, d);
      && s[0] != 0 && 0 in s && NameIn(s) == d && AfterName(s) == rest
      && Closed(a.pool) && |a.pool| == |pool| + |d| + 1
      && Names(a.pool, offs + [a.off], names + [Some(d)])
  {
    hide AddString, Names, Closed, NameIn, AfterName;
    StringInFront(d, rest);
    InternOne(pool, offs, names, d);
  }

  lemma {:induction false} Directories4Encoded(dirs: seq<CString>, tail: Bytes, pool: Bytes,
                                               offs: Files, names: NameList)
    requires |pool| <= STR_MAX && Closed(pool) && Names(pool, offs, names)
    requires NonEmptyStrings(dirs) && |offs| + |dirs| <= DIRS_MAX
    requires |pool| + Room(dirs) <= STR_MAX
    ensures var t := Directories4(EncodeStrings(dirs) + ([0] + tail), pool, offs);
      && t.status == Accepted && t.rest == tail
      && Closed(t.pool) && |t.pool| == |pool| + Room(dirs)
      && Names(t.pool, t.offs, names + SomeNames(dirs))
    decreases |dirs|
  {
    hide NameIn, AfterName, AddString, Names, Closed, Directories4, NonEmptyStrings, EncodeStrings;
    var s := EncodeStrings(dirs) + ([0] + tail);
    EncodeStringsStep(dirs, tail);
    Directories4Step(s, pool, offs);
    NamesLength(pool, offs, names);
    if dirs == [] {
      assert names + SomeNames(dirs) == names;
    } else {
      hide SomeNames;
      var d, rest := dirs[0], EncodeStrings(dirs[1..]) + ([0] + tail);
      NonEmptyTail(dirs);
      DirectoryStepEncoded(d, rest, pool, offs, names);
      var a := AddString(pool, d);
      Directories4Encoded(dirs[1..], tail, a.pool, offs + [a.off], names + [Some(d)]);
      NamesMove(names, dirs);
    }
  }

  lemma NamesMove(before: NameList, names: seq<CString>)
    requires names != []
    ensures before + SomeNames(names) == before + [Some(names[0])] + SomeNames(names[1..])
  {
  }

  lemma EncodeStringsStep(names: seq<CString>, tail: Bytes)
    ensures EncodeStrings(names) + ([0] + tail)
         == if names == [] then [0] + tail else names[0] + [0] + (EncodeStrings(names[1..]) + ([0] + tail))
  {
  }

  lemma StringInFront(d: CString, rest: Bytes)
    ensures var s := d + [0] + rest;
      && 0 in s && StrLen(s) == |d| && s[..|d|] == d && s[|d| + 1..] == rest
      && NameIn(s) == d && AfterName(s) == rest
      && (d != [] ==> s[0] != 0)
  {
    hide StrLen;
    var s := d + [0] + rest;
    CStrOfTerminated(d, rest);
    assert s[|d|] == 0;
    if d != [] {
      assert d[0] in d;
    }
  }

  lemma NonEmptyTail(dirs: seq<CString>)
    requires NonEmptyStrings(dirs) && dirs != []
    ensures NonEmptyStrings(dirs[1..]) && dirs[0] != []
  {
  }

  lemma NamesLength(pool: Bytes, offs: Files, names: NameList)
    requires Names(pool, offs, names)
    ensures |offs| == |names|
  {
  }

  lemma FileEntryEncoded(f: FileEntry4, tail: Bytes)
    ensures FileEntry(EncodeFile4(f) + tail) == Got(Entry(f.name, Some(f.dir)), tail)
  {
    hide Uleb, EncodeUleb, NameIn, AfterName;
    var s := EncodeFile4(f) + tail;
    var s1 := EncodeUleb(f.dir) + (EncodeUleb(f.mtime) + (EncodeUleb(f.length) + tail));
    assert s == f.name + [0] + s1;
    StringInFront(f.name, s1);
    UlebRoundTrip(f.dir, EncodeUleb(f.mtime) + (EncodeUleb(f.length) + tail));
    UlebRoundTrip(f.mtime, EncodeUleb(f.length) + tail);
    UlebRoundTrip(f.length, tail);
  }

  lemma FileNamesStep(dirs: seq<CString>, files: seq<FileEntry4>)
    requires files != []
    ensures var all, others := FileNames4(dirs, files), FileNames4(dirs, files[1..]);
      && all != [] && all[0] == FileName4(dirs, files[0]) && all[1..] == others
      && Room(all) == |FileName4(dirs, files[0])| + 1 + Room(others)
  {
    hide FileName4;
  }

  lemma EncodeFilesStep(files: seq<FileEntry4>, tail: Bytes)
    ensures EncodeFiles4(files) + ([0] + tail) ==
      if files == [] then [0] + tail else EncodeFile4(files[0]) + (EncodeFiles4(files[1..]) + ([0] + tail))
  {
    hide EncodeFile4;
  }

  /** One entry is interned whole under its joined name. */
  lemma FileStepEncoded(dirs: seq<CString>, f: FileEntry4, pool: Bytes, dirOffs: Files, offs: Files, names: NameList)
    requires |pool| <= STR_MAX && Closed(pool) && Names(pool, offs, names)
    requires Names(pool, dirOffs, SomeNames([[]] + dirs))
    requires f.name != [] && |pool| + |FileName4(dirs, f)| < STR_MAX
    ensures var e, name := Entry(f.name, Some(f.dir)), FileName4(dirs, f);
      var a := AddString(pool, name);
      && !Nameless(pool, dirOffs, e) && FileName(pool, dirOffs, e) == name
      && Closed(a.pool) && |a.pool| == |pool| + |name| + 1
      && Names(a.pool, offs + [a.off], names + [Some(name)])
      && Names(a.pool, dirOffs, SomeNames([[]] + dirs))
  {
    hide AddString, Names, Closed, JoinedName, Nameless, FileName, Nameable;
    var e := Entry(f.name, Some(f.dir));
    FileNameIsJoined(pool, dirOffs, [[]] + dirs, e);
    NonEmptyNameable([[]] + dirs, e);
    InternOne(pool, offs, names, FileName4(dirs, f));
    NamesGrow(pool, AddString(pool, FileName4(dirs, f)).pool, dirOffs, SomeNames([[]] + dirs));
  }

  lemma {:induction false} Files4Encoded(dirs: seq<CString>, files: seq<FileEntry4>, tail: Bytes, pool: Bytes,
                                         dirOffs: Files, offs: Files, names: NameList)
    requires |pool| <= STR_MAX && Closed(pool) && Names(pool, offs, names)
    requires Names(pool, dirOffs, SomeNames([[]] + dirs))
    requires NonEmptyFiles(files) && |offs| + |files| <= FILES_MAX
    requires |pool| + Room(FileNames4(dirs, files)) <= STR_MAX
    ensures var t := Files4(EncodeFiles4(files) + ([0] + tail), pool, dirOffs, offs);
      && t.status == Accepted && t.rest == tail
      && Closed(t.pool) && |t.pool| == |pool| + Room(FileNames4(dirs, files))
      && Names(t.pool, t.offs, names + SomeNames(FileNames4(dirs, files)))
    decreases |files|
  {
    hide AddString, Names, Closed, Files4, FileEntry, EncodeFile4, FileName4, Nameless, FileName, EncodeFiles4;
    var s := EncodeFiles4(files) + ([0] + tail);
    Files4Step(s, pool, dirOffs, offs);
    EncodeFilesStep(files, tail);
    NamesLength(pool, offs, names);
    if files == [] {
      assert names + SomeNames(FileNames4(dirs, files)) == names;
    } else {
      hide SomeNames, Room, FileNames4;
      var f, rest := files[0], EncodeFiles4(files[1..]) + ([0] + tail);
      var name := FileName4(dirs, f);
      FileNamesStep(dirs, files);
      FileFirstByte(f, rest);
      FileEntryEncoded(f, rest);
      FileStepEncoded(dirs, f, pool, dirOffs, offs, names);
      var a := AddString(pool, name);
      assert NonEmptyFiles(files[1..]);
      Files4Encoded(dirs, files[1..], tail, a.pool, dirOffs, offs + [a.off], names + [Some(name)]);
      NamesMove(names, FileNames4(dirs, files));
    }
  }

  lemma FileFirstByte(f: FileEntry4, rest: Bytes)
    requires f.name != []
    ensures EncodeFile4(f) != [] && (EncodeFile4(f) + rest)[0] != 0
  {
    assert f.name[0] in f.name;
  }

  /** The version 2-4 tables round-trip: every file offset names the clipped join of that file with its
      directory; file 0 has no name. */
  lemma Tables4RoundTrip(dirs: seq<CString>, files: seq<FileEntry4>, tail: Bytes, pool: Bytes)
    requires |pool| <= STR_MAX && Closed(pool)
    requires NonEmptyStrings(dirs) && NonEmptyFiles(files)
    requires |dirs| < DIRS_MAX && |files| < FILES_MAX
    requires |pool| + Room([[]] + dirs) + Room(FileNames4(dirs, files)) <= STR_MAX
    ensures var t := Tables4(EncodeTables4(dirs, files) + tail, pool);
      && t.status == Accepted && t.rest == tail
      && Closed(t.pool) && |t.pool| == |pool| + Room([[]] + dirs) + Room(FileNames4(dirs, files))
      && Names(t.pool, t.offs, [None] + SomeNames(FileNames4(dirs, files)))
  {
    hide AddString, Names, Closed, Files4, Directories4, FileNames4;
    var s := EncodeTables4(dirs, files) + tail;
    var filesPart := EncodeFiles4(files) + ([0] + tail);
    assert s == EncodeStrings(dirs) + ([0] + filesPart);
    EmptyNames(pool);
    RoomCons([], dirs);
    InternOne(pool, [], [], []);
    var a := AddString(pool, []);
    var none: NameList, first: NameList := [], [Some([])];
    assert [] + [a.off] == [a.off] && none + first == first;
    Directories4Encoded(dirs, filesPart, a.pool, [a.off], [Some([])]);
    var d := Directories4(s, a.pool, [a.off]);
    assert [Some([])] + SomeNames(dirs) == SomeNames([[]] + dirs);
    NoNames(d.pool);
    Files4Encoded(dirs, files, tail, d.pool, d.offs, [-1], [None]);
  }

  lemma EmptyNames(pool: Bytes)
    ensures Names(pool, [], [])
  {
  }

  lemma NoNames(pool: Bytes)
    ensures Names(pool, [-1], [None])
  {
  }

  lemma RoomCons(name: CString, names: seq<CString>)
    ensures Room([name] + names) == |name| + 1 + Room(names)
  {
    assert ([name] + names)[1..] == names;
  }
}
