/** From abstract images to the answers of the symbolizer. */
module EncodedPeAnswers {
  import opened Bytes
  import opened Wrappers
  import opened Forms
  import opened LineTables
  import opened Sorting
  import opened LineIndex
  import opened NamedRows
  import opened NamedSections
  import opened PeIndex
  import Cache = PeCache
  import opened EncodedPeIndex
  import Pe = PeImages
  import Src = EncodedPe
  import Units = EncodedUnits

  // ---- What an answer should be ----

  /** The functions of an image in memory, as far as the tables have room for them. */
  function NamesOf(p: Src.Image, moduleBase: u64): seq<NamedSymbol> {
    Take(Recorded(p, moduleBase, p.symbols, 0), 4096)
  }

  function LineData(p: Src.Image): Bytes {
    DataOf(p.sections, DEBUG_LINE)
  }

  function StringData(p: Src.Image): Sections {
    Sections(DataOf(p.sections, DEBUG_LINE_STR), DataOf(p.sections, DEBUG_STR))
  }

  /** The rows that the `.debug_line` section of an image states, as far as the table has room for them. */
  function LinesOf(p: Src.Image): seq<NamedRow> {
    Take(SectionRows(LineData(p), StringData(p), []), 65536)
  }

  /** The probed address as the linker saw it: without an image base, the address itself. */
  function LinkedAddress(p: Src.Image, moduleBase: u64, probe: u64): int {
    var base := p.optional.Base();
    if base != 0 then (base + (probe - moduleBase)) % 0x1_0000_0000_0000_0000 else probe
  }

  /** The name of the function that starts last at or below the instruction pointer; file and line of the row
      that is last at or below the linked address; nothing when there is none. */
  ghost predicate IsAnswer(p: Src.Image, q: Query, a: Answer) {
    match q
    case NameQuery(moduleBase, ip) =>
      if !HasFloor(NamesOf(p, moduleBase), NamedAddr, ip) then a == Nothing else
      exists f | f in NamesOf(p, moduleBase) ::
        IsFloor(NamesOf(p, moduleBase), NamedAddr, ip, f) && a == Name(f.name)
    case LineQuery(moduleBase, probe) =>
      RowAnswer(LinesOf(p), LinkedAddress(p, moduleBase, probe), a)
  }

  ghost predicate RowAnswer(rows: seq<NamedRow>, linked: int, a: Answer) {
    if !HasFloor(rows, NamedKey, linked) then a == Nothing else
    exists r | r in rows :: IsFloor(rows, NamedKey, linked, r) && a == Line(r.name, r.line)
  }

  // ---- The answers of the decoder ----

  lemma FloorOfNames(pool: Bytes, syms: seq<Pe.Symbol>, ip: u64)
    ensures HasFloor(syms, SymbolKey, ip) <==> HasFloor(NameSymbols(pool, syms), NamedAddr, ip)
    ensures forall s | IsFloor(syms, SymbolKey, ip, s) ::
      var f := NameSymbol(pool, s);
      f in NameSymbols(pool, syms) && IsFloor(NameSymbols(pool, syms), NamedAddr, ip, f)
  {
    hide NameAt;
    var named := NameSymbols(pool, syms);
    forall s | s in syms
      ensures NameSymbol(pool, s) in named
    {
      var k :| 0 <= k < |syms| && syms[k] == s;
      assert named[k] == NameSymbol(pool, s);
    }
    forall f | f in named
      ensures exists s | s in syms :: f == NameSymbol(pool, s)
    {
      var k :| 0 <= k < |named| && named[k] == f;
      assert syms[k] in syms;
    }
  }

  lemma NameAnswer(w: World, p: Src.Image, moduleBase: u64, ip: u64)
    requires w.Valid() && moduleBase != 0 && Src.WellFormed(p)
    requires w.images(moduleBase) == Some(Src.Encode(p))
    ensures var q := NameQuery(moduleBase, ip); IsAnswer(p, q, ReloadAnswer(w, q))
  {
    hide Src.WellFormed, Src.Encode, Src.HeadersOf, Pe.ScanSymbols, Pe.ReadPe, Pe.Valid, LoadLines, FindDebug, IsFloor,
      HasFloor, NameAt, Recorded, FindSymbol;
    ImageReadable(p);
    FunctionsScanned(p, moduleBase);
    var image, pe := Src.Encode(p), Src.HeadersOf(p);
    NameAnswerIsFloor(w, image, pe, moduleBase, ip);
    var x := Pe.ScanSymbols(image, pe, moduleBase);
    FloorOfNames(x.names, x.syms, ip);
    var found := FindSymbol(Load(w, moduleBase), ip);
    if found.Some? {
      assert NameSymbol(x.names, found.value) in NamesOf(p, moduleBase);
    }
  }

  lemma LineAnswer(w: World, p: Src.Image, moduleBase: u64, probe: u64)
    requires w.Valid() && moduleBase != 0 && Src.WellFormed(p)
    requires w.images(moduleBase) == Some(Src.Encode(p))
    ensures var q := LineQuery(moduleBase, probe); IsAnswer(p, q, ReloadAnswer(w, q))
  {
    hide Src.WellFormed, Src.Encode, Pe.ReadPe, Pe.Valid, LoadLines, FindDebug, IsFloor, HasFloor, NameAt, Load,
      FindRow, ParseSection, SectionRows, NameRows, Linked, LinkedAddress, DataOf;
    ImageReadable(p);
    DebugFound(p, |p.sections|);
    assert p.sections[..|p.sections|] == p.sections;
    var image, pe, l := Src.Encode(p), Src.HeadersOf(p), Load(w, moduleBase);
    LineAnswerIsFloor(w, image, pe, moduleBase, probe);
    LinkedIsLinked(w, p, moduleBase, probe);
    var x := ParseSection(LineData(p), StringData(p), []);
    var emitted := Capped(x.rows);
    EmptySection(StringData(p));
    EmptyPoolClosed();
    SectionNamed(LineData(p), StringData(p), []);
    NameTake(x.pool, x.rows, 65536);
    var found, linked := FindRow(l, moduleBase, probe), Linked(l, moduleBase, probe);
    LoadedPool(w, p, moduleBase);
    if found.Some? {
      FloorByName(x.pool, emitted, linked, found.value);
      FloorMember(LinesOf(p), linked, NameRow(x.pool, found.value));
    } else {
      FloorByName(x.pool, emitted, linked, Row(0, 0, 0));
    }
  }

  lemma LinkedIsLinked(w: World, p: Src.Image, moduleBase: u64, probe: u64)
    requires moduleBase != 0 && Src.WellFormed(p) && w.images(moduleBase) == Some(Src.Encode(p))
    ensures Linked(Load(w, moduleBase), moduleBase, probe) == LinkedAddress(p, moduleBase, probe)
  {
    hide Src.WellFormed, Src.Encode, Pe.ReadPe, Pe.Valid, LoadLines, FindDebug, Load;
    ImageReadable(p);
    LoadedRows(w, Src.Encode(p), Src.HeadersOf(p), moduleBase);
  }

  /** File names are read from the pool of the section's parse. */
  lemma LoadedPool(w: World, p: Src.Image, moduleBase: u64)
    requires moduleBase != 0 && Src.WellFormed(p) && w.images(moduleBase) == Some(Src.Encode(p))
    ensures LineData(p) != [] ==>
      Load(w, moduleBase).pool == ParseSection(LineData(p), StringData(p), []).pool
    ensures LineData(p) == [] ==> !Load(w, moduleBase).hasLines
  {
    hide Src.WellFormed, Src.Encode, Pe.ReadPe, Pe.Valid, FindDebug, ParseSection, DataOf;
    ImageReadable(p);
    DebugFound(p, |p.sections|);
    assert p.sections[..|p.sections|] == p.sections;
  }

  // ---- Through the tables ----

  /** The file starts with `MZ`, and `PE` and two NULs stand where its last header word says. */
  predicate LooksLikePe(file: Bytes) {
    && |file| >= 64 && file[0] == 77 && file[1] == 90
    && var off := WordAt(file, 60, 4);
       off + 4 <= |file| && file[off..off + 4] == [80, 69, 0, 0]
  }

  lemma OtherFilesRefused(image: Pe.Image)
    ensures Pe.ReadPe(image).Some? ==> LooksLikePe(image)
  {
    hide Pe.ImageBase, LeValue;
    if Pe.ReadPe(image).Some? {
      Word2(image[0..2]);
      var off := WordAt(image, 60, 4);
      Word4(image[off..off + 4]);
    }
  }

  lemma Word2(s: Bytes)
    requires |s| == 2 && LeValue(s) == 0x5a4d
    ensures s[0] == 77 && s[1] == 90
  {
    assert LeValue(s[1..]) == s[1] + 256 * LeValue(s[2..]);
    assert s[1..][1..] == s[2..] == [];
  }

  lemma Word4(s: Bytes)
    requires |s| == 4 && LeValue(s) == 0x4550
    ensures s == [80, 69, 0, 0]
  {
    assert s[1..][1..] == s[2..] && s[2..][1..] == s[3..] && s[3..][1..] == [];
    assert LeValue(s[3..]) == s[3] + 256 * LeValue([]);
    assert LeValue(s[2..]) == s[2] + 256 * LeValue(s[3..]);
    assert LeValue(s[1..]) == s[1] + 256 * LeValue(s[2..]);
  }

  /** Every module asked about is backed by the image given for it, if one is given. */
  ghost predicate Backed(w: World, images: map<u64, Src.Image>) {
    forall m | m in images :: Src.WellFormed(images[m]) && w.images(m) == Some(Src.Encode(images[m]))
  }

  /** The answer is that of the module's image; without a module or a PE file there is nothing. */
  ghost predicate Answered(w: World, images: map<u64, Src.Image>, q: Query, a: Answer) {
    var m := q.moduleBase;
    && (m == 0 || w.images(m).None? || !LooksLikePe(w.images(m).value) ==> a == Nothing)
    && (m != 0 && m in images ==> IsAnswer(images[m], q, a))
  }

  lemma ReloadAnswered(w: World, images: map<u64, Src.Image>, q: Query)
    requires w.Valid() && Backed(w, images)
    ensures Answered(w, images, q, ReloadAnswer(w, q))
  {
    hide Src.WellFormed, Src.Encode, Pe.ReadPe, IsAnswer, FindDebug, LoadLines, Pe.ScanSymbols, LooksLikePe;
    var m := q.moduleBase;
    if w.images(m).Some? {
      OtherFilesRefused(w.images(m).value);
    }
    if m != 0 && m in images {
      match q
      case NameQuery(_, ip) => NameAnswer(w, images[m], m, ip);
      case LineQuery(_, probe) => LineAnswer(w, images[m], m, probe);
    }
  }

  lemma {:induction false} AllAnswered(w: World, images: map<u64, Src.Image>, qs: seq<Query>)
    requires w.Valid() && Backed(w, images)
    ensures |ReloadAnswers(w, qs)| == |qs|
    ensures forall k | 0 <= k < |qs| :: Answered(w, images, qs[k], ReloadAnswers(w, qs)[k])
    decreases |qs|
  {
    hide Answered, Backed, ReloadAnswer;
    if qs != [] {
      ReloadAnswered(w, images, qs[0]);
      AllAnswered(w, images, qs[1..]);
    }
  }

  /** Through the static tables: whatever they hold, any sequence of queries on modules with images is answered as
      the images say. */
  method AnswerImages(index: Cache.Index, qs: seq<Query>, ghost images: map<u64, Src.Image>)
    returns (answers: seq<Answer>)
    requires index.Valid() && index.Holds() && Backed(index.world, images)
    modifies index, index.syms, index.names, index.dwarf, index.dwarf.rows, index.dwarf.strs
    ensures index.Valid() && index.Holds()
    ensures |answers| == |qs|
    ensures forall k | 0 <= k < |qs| :: Answered(index.world, images, qs[k], answers[k])
  {
    hide Answered, Backed;
    AllAnswered(index.world, images, qs);
    answers := index.AnswerAll(qs);
  }

  /** When the section was written by a compiler, its rows are those of the abstract units. */
  lemma CompiledLines(p: Src.Image, us: seq<Units.SourceUnit>)
    requires Units.AllWellFormed(us, StringData(p)) && Units.SectionRoom(us, StringData(p)) <= 262144
    requires LineData(p) == Units.EncodeUnits(us)
    ensures LinesOf(p) == Take(Units.SectionMeaning(us, StringData(p)), 65536)
  {
    hide SectionRows, ParseSection, NameRows, DataOf;
    EmptyPoolClosed();
    Units.SectionRoundTrip(us, StringData(p), []);
    SectionNamed(LineData(p), StringData(p), []);
  }

  // ---- An image ----

  /** One section at 0x1000 and in it, at 0x10, the function `main`. */
  function MainOnly(): Src.Image {
    var text := Src.Section(Src.Short([46, 116]), 0x5000, 0x1000, [], Src.Zeros(16));
    var main := Src.Symbol(Src.Short([109, 97, 105, 110]), 0x10, 1, 0x20, 2, []);
    Src.Image(Src.Zeros(58), [], 0x8664, 0, 0, Src.Pe64(Src.Zeros(22), 0x1_4000_0000, []), [text], [main], [])
  }

  lemma MainOnlyWellFormed()
    ensures Src.WellFormed(MainOnly())
  {
    var p := MainOnly();
    assert p.sections[1..] == [] && p.symbols[1..] == [];
    assert Src.RecordCount(p.symbols) == 1 + Src.RecordCount(p.symbols[1..]) == 1;
    assert |Src.AllData(p.sections)| == |Src.AllData(p.sections[1..])| == 0;
  }

  lemma OneFunction(m: u64)
    requires m == 0x1_4000_0000
    ensures var p := MainOnly();
      NameRoom(p, p.symbols) == 5
      && Functions(p, m, p.symbols) == [NamedSymbol(0x1_4000_1010, [109, 97, 105, 110])]
  {
    hide Src.Zeros;
    var p := MainOnly();
    assert p.symbols[1..] == [];
    assert NameRoom(p, p.symbols) == 5 + NameRoom(p, p.symbols[1..]);
    assert Functions(p, m, p.symbols) == [NamedSymbol(0x1_4000_1010, [109, 97, 105, 110])] + Functions(p, m, []);
  }

  lemma OneName(m: u64)
    requires m == 0x1_4000_0000
    ensures NamesOf(MainOnly(), m) == [NamedSymbol(0x1_4000_1010, [109, 97, 105, 110])]
  {
    hide MainOnly, Functions, Recorded, NameRoom;
    OneFunction(m);
    RecordedWhole(MainOnly(), m, MainOnly().symbols, 0);
  }

  /** Loaded at 0x140000000, the instruction pointer 0x140001020 is in `main`. */
  lemma InsideMain(a: Answer)
    requires IsAnswer(MainOnly(), NameQuery(0x1_4000_0000, 0x1_4000_1020), a)
    ensures Src.WellFormed(MainOnly()) && a == Name([109, 97, 105, 110])
  {
    hide Src.WellFormed, MainOnly, NamesOf;
    MainOnlyWellFormed();
    OneName(0x1_4000_0000);
    assert NamedSymbol(0x1_4000_1010, [109, 97, 105, 110]) in NamesOf(MainOnly(), 0x1_4000_0000);
  }
}
