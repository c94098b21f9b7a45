/** The symbol and line index of one PE module, and the cache that keeps it between queries (`bw_pe_load`,
    `bw_pe_find`, `bw_pe_line`). */
module PeIndex {
  import opened Bytes
  import opened Wrappers
  import opened LineTables
  import opened Forms
  import opened Sorting
  import opened LineIndex
  import Pe = PeImages

  // ---- Debug sections ----

  const NAME_BUFFER := 64
  const DOT_DEBUG: Bytes := [46, 100, 101, 98, 117, 103]
  const UNDERSCORE_LINE: Bytes := [95, 108, 105, 110, 101]
  const UNDERSCORE_STR: Bytes := [95, 115, 116, 114]

  /** The decimal number in a section name, from digit `d` on. */
  function Decimal(name: Bytes, d: nat, n: nat): nat
    requires |name| == 8 && d <= 8
    decreases 8 - d
  {
    if d < 8 && 48 <= name[d] <= 57 then Decimal(name, d + 1, 10 * n + (name[d] - 48)) else n
  }

  function SectionOff(image: Pe.Image, pe: Pe.Pe, k: nat): (off: nat)
    requires Pe.Valid(image, pe) && k < pe.sections
    ensures off + Pe.SECTION_SIZE <= |image|
  {
    pe.sectionsOff + k * Pe.SECTION_SIZE
  }

  /** A section's name: eight bytes in its header, or, after a slash, an offset into the string table. */
  function SectionName(image: Pe.Image, pe: Pe.Pe, k: nat): Bytes
    requires Pe.Valid(image, pe) && k < pe.sections
  {
    var raw := image[SectionOff(image, pe, k)..SectionOff(image, pe, k) + 8];
    var strings := Pe.StringTable(image, pe);
    if raw[0] == 47 && |strings| > 4 && Decimal(raw, 1, 0) < |strings| then
      Take(CStr(image[pe.symOff + pe.nsym * Pe.SYM_SIZE + Decimal(raw, 1, 0)..]), NAME_BUFFER - 1)
    else CStr(raw)
  }

  /** A section's bytes, when it has any and they lie inside the image. */
  function SectionData(image: Pe.Image, pe: Pe.Pe, k: nat): Option<Bytes>
    requires Pe.Valid(image, pe) && k < pe.sections
  {
    var off := SectionOff(image, pe, k);
    var size, data := WordAt(image, off + 16, 4), WordAt(image, off + 20, 4);
    if data == 0 || size == 0 || data + size > |image| then None else Some(image[data..data + size])
  }

  datatype Debug = Debug(line: Option<Bytes>, sections: Sections)

  /** The debug sections among the first `n`; the last of each name wins. */
  function FindDebug(image: Pe.Image, pe: Pe.Pe, n: nat): Debug
    requires Pe.Valid(image, pe) && n <= pe.sections
    decreases n
  {
    if n == 0 then Debug(None, Sections([], [])) else
    var d := FindDebug(image, pe, n - 1);
    var name, data := SectionName(image, pe, n - 1), SectionData(image, pe, n - 1);
    if data.None? then d
    else if name == DOT_DEBUG + UNDERSCORE_LINE then d.(line := data)
    else if name == DOT_DEBUG + UNDERSCORE_LINE + UNDERSCORE_STR then d.(sections := d.sections.(lineStr := data.value))
    else if name == DOT_DEBUG + UNDERSCORE_STR then d.(sections := d.sections.(debugStr := data.value))
    else d
  }

  /** Section `k` has this name and data in the image. */
  predicate Carries(image: Pe.Image, pe: Pe.Pe, name: Bytes, k: nat)
    requires Pe.Valid(image, pe) && k < pe.sections
  {
    SectionName(image, pe, k) == name && SectionData(image, pe, k).Some?
  }

  /** Section `k` is the last of the first `n` that carries the name. */
  ghost predicate LastCarrier(image: Pe.Image, pe: Pe.Pe, name: Bytes, n: nat, k: nat)
    requires Pe.Valid(image, pe) && n <= pe.sections
  {
    k < n && Carries(image, pe, name, k) && forall j | k < j < n :: !Carries(image, pe, name, j)
  }

  /** `data` is that of the last section with this name and with data, and missing when there is none. */
  ghost predicate LastData(image: Pe.Image, pe: Pe.Pe, name: Bytes, n: nat, data: Option<Bytes>)
    requires Pe.Valid(image, pe) && n <= pe.sections
  {
    match data
    case None => forall k | 0 <= k < n :: !Carries(image, pe, name, k)
    case Some(_) => exists k | 0 <= k < n :: LastCarrier(image, pe, name, n, k) && data == SectionData(image, pe, k)
  }

  /** A string section, which is empty when it is missing. */
  function NonEmpty(s: Bytes): Option<Bytes> {
    if s == [] then None else Some(s)
  }

  lemma LastDataStep(image: Pe.Image, pe: Pe.Pe, name: Bytes, n: nat, data: Option<Bytes>)
    requires Pe.Valid(image, pe) && n < pe.sections && LastData(image, pe, name, n, data)
    ensures LastData(image, pe, name, n + 1,
                     if Carries(image, pe, name, n) then SectionData(image, pe, n) else data)
  {
    hide SectionName, SectionData;
    if Carries(image, pe, name, n) {
      assert LastCarrier(image, pe, name, n + 1, n);
    } else if data.Some? {
      var k :| 0 <= k < n && LastCarrier(image, pe, name, n, k) && data == SectionData(image, pe, k);
      assert LastCarrier(image, pe, name, n + 1, k);
    }
  }

  lemma SectionDataNotEmpty(image: Pe.Image, pe: Pe.Pe, k: nat)
    requires Pe.Valid(image, pe) && k < pe.sections
    ensures SectionData(image, pe, k).Some? ==> SectionData(image, pe, k).value != []
  {
  }

  lemma DebugNamesDiffer()
    ensures DOT_DEBUG + UNDERSCORE_LINE != DOT_DEBUG + UNDERSCORE_STR
    ensures |DOT_DEBUG + UNDERSCORE_LINE + UNDERSCORE_STR| > |DOT_DEBUG + UNDERSCORE_LINE|
    ensures |DOT_DEBUG + UNDERSCORE_LINE + UNDERSCORE_STR| > |DOT_DEBUG + UNDERSCORE_STR|
  {
    assert (DOT_DEBUG + UNDERSCORE_LINE)[7] == 108 && (DOT_DEBUG + UNDERSCORE_STR)[7] == 115;
  }

  /** Each debug section found is the last one of its name that has data. */
  ghost predicate FoundLast(image: Pe.Image, pe: Pe.Pe, n: nat, d: Debug)
    requires Pe.Valid(image, pe) && n <= pe.sections
  {
    && LastData(image, pe, DOT_DEBUG + UNDERSCORE_LINE, n, d.line)
    && LastData(image, pe, DOT_DEBUG + UNDERSCORE_LINE + UNDERSCORE_STR, n, NonEmpty(d.sections.lineStr))
    && LastData(image, pe, DOT_DEBUG + UNDERSCORE_STR, n, NonEmpty(d.sections.debugStr))
  }

  lemma {:induction false} FindDebugMeaning(image: Pe.Image, pe: Pe.Pe, n: nat)
    requires Pe.Valid(image, pe) && n <= pe.sections
    ensures FoundLast(image, pe, n, FindDebug(image, pe, n))
    decreases n
  {
    hide SectionName, SectionData, LastData;
    if n == 0 {
      NoSections(image, pe, DOT_DEBUG + UNDERSCORE_LINE);
      NoSections(image, pe, DOT_DEBUG + UNDERSCORE_LINE + UNDERSCORE_STR);
      NoSections(image, pe, DOT_DEBUG + UNDERSCORE_STR);
    } else {
      FindDebugMeaning(image, pe, n - 1);
      DebugNamesDiffer();
      SectionDataNotEmpty(image, pe, n - 1);
      var d := FindDebug(image, pe, n - 1);
      LastDataStep(image, pe, DOT_DEBUG + UNDERSCORE_LINE, n - 1, d.line);
      LastDataStep(image, pe, DOT_DEBUG + UNDERSCORE_LINE + UNDERSCORE_STR, n - 1, NonEmpty(d.sections.lineStr));
      LastDataStep(image, pe, DOT_DEBUG + UNDERSCORE_STR, n - 1, NonEmpty(d.sections.debugStr));
    }
  }

  lemma NoSections(image: Pe.Image, pe: Pe.Pe, name: Bytes)
    requires Pe.Valid(image, pe)
    ensures LastData(image, pe, name, 0, None)
  {
  }

  // ---- What loading a module yields ----

  /** The files as they are during all queries, and the C library's sort. */
  datatype World = World(images: u64 -> Option<Pe.Image>, symOrder: Order<Pe.Symbol>, rowOrder: Order<Row>) {
    ghost predicate Valid() {
      IsSort(symOrder, SymbolKey) && IsSort(rowOrder, RowKey)
    }
  }

  function SymbolKey(s: Pe.Symbol): int {
    s.addr
  }

  datatype Loaded = Loaded(hasSymbols: bool, syms: seq<Pe.Symbol>, names: Bytes, imageBase: u64,
                           hasLines: bool, rows: seq<Row>, pool: Bytes)

  const NOTHING := Loaded(false, [], [], 0, false, [], [])

  function LoadLines(w: World, d: Debug): (l: Loaded) {
    if d.line.None? || d.line.value == [] then NOTHING else
    var x := ParseSection(d.line.value, d.sections, []);
    var rows := w.rowOrder(Capped(x.rows));
    NOTHING.(hasLines := rows != [], rows := rows, pool := x.pool)
  }

  /** A module without a readable image loads as nothing. */
  function Load(w: World, moduleBase: u64): Loaded {
    if moduleBase == 0 || w.images(moduleBase).None? then NOTHING else
    var image := w.images(moduleBase).value;
    var pe := Pe.ReadPe(image);
    if pe.None? then NOTHING else
    var x := Pe.ScanSymbols(image, pe.value, moduleBase);
    LoadLines(w, FindDebug(image, pe.value, pe.value.sections)).(
      hasSymbols := x.syms != [], syms := w.symOrder(x.syms), names := x.names, imageBase := pe.value.imageBase)
  }

  // ---- Answers ----

  /** The last position of an ascending sequence whose key is not above the probe. */
  function LastAtOrBelow<T>(s: seq<T>, key: T -> int, probe: int): Option<T>
    decreases |s|
  {
    if s == [] then None
    else if key(s[|s| - 1]) <= probe then Some(s[|s| - 1])
    else LastAtOrBelow(s[..|s| - 1], key, probe)
  }

  lemma {:induction false} LastAtOrBelowIs<T>(s: seq<T>, key: T -> int, probe: int, k: int)
    requires 0 <= k < |s| && key(s[k]) <= probe && forall j | k < j < |s| :: key(s[j]) > probe
    ensures LastAtOrBelow(s, key, probe) == Some(s[k])
    decreases |s|
  {
    if k < |s| - 1 {
      LastAtOrBelowIs(s[..|s| - 1], key, probe, k);
    }
  }

  lemma {:induction false} NoneAtOrBelow<T>(s: seq<T>, key: T -> int, probe: int)
    ensures LastAtOrBelow(s, key, probe).None? <==> !HasFloor(s, key, probe)
    decreases |s|
  {
    if s != [] {
      var rest := s[..|s| - 1];
      NoneAtOrBelow(rest, key, probe);
      assert s == rest + [s[|s| - 1]];
    }
  }

  /** On an ascending sequence it is a floor. */
  lemma {:induction false} LastIsFloor<T>(s: seq<T>, key: T -> int, probe: int)
    requires Ascending(s, key) && LastAtOrBelow(s, key, probe).Some?
    ensures IsFloor(s, key, probe, LastAtOrBelow(s, key, probe).value)
    decreases |s|
  {
    var last, rest := s[|s| - 1], s[..|s| - 1];
    assert s == rest + [last];
    if key(last) > probe {
      LastIsFloor(rest, key, probe);
    }
  }

  /** The symbol whose name `bw_pe_find` returns. */
  function FindSymbol(l: Loaded, ip: u64): Option<Pe.Symbol> {
    if !l.hasSymbols then None else LastAtOrBelow(l.syms, SymbolKey, ip)
  }

  /** The address as the linker saw it. */
  function Linked(l: Loaded, moduleBase: u64, probe: u64): u64 {
    if l.imageBase != 0 then Wrap(l.imageBase + probe - moduleBase) else probe
  }

  /** The row `bw_pe_line` reports. */
  function FindRow(l: Loaded, moduleBase: u64, probe: u64): Option<Row> {
    if !l.hasLines then None else LastAtOrBelow(l.rows, RowKey, Linked(l, moduleBase, probe))
  }

  // ---- The cache, on values ----

  datatype Query = NameQuery(moduleBase: u64, ip: u64) | LineQuery(moduleBase: u64, probe: u64)

  datatype Answer = Nothing | Name(name: CString) | Line(file: CString, line: u32)

  /** What a query answers from a loaded module. */
  function AnswerFrom(l: Loaded, q: Query): Answer {
    match q
    case NameQuery(m, ip) =>
      var s := FindSymbol(l, ip);
      if s.None? then Nothing else Name(NameAt(l.names, s.value.nameOff))
    case LineQuery(m, probe) =>
      var r := FindRow(l, m, probe);
      if r.None? then Nothing else Line(NameAt(l.pool, r.value.nameOff), r.value.line)
  }

  /** The answer of a symbolizer that loads the module for every query. */
  function ReloadAnswer(w: World, q: Query): Answer {
    if q.moduleBase == 0 then AnswerFrom(NOTHING, q) else AnswerFrom(Load(w, q.moduleBase), q)
  }

  /** One module is kept, whether loading it succeeded or not; 0 stands for none yet. */
  datatype Cache = Cache(moduleBase: u64, loaded: Loaded)

  function After(w: World, c: Cache, q: Query): Cache {
    if q.moduleBase == 0 || c.moduleBase == q.moduleBase then c else Cache(q.moduleBase, Load(w, q.moduleBase))
  }

  function CachedAnswer(w: World, c: Cache, q: Query): Answer {
    AnswerFrom(if q.moduleBase == 0 then NOTHING else After(w, c, q).loaded, q)
  }

  function CachedAnswers(w: World, c: Cache, qs: seq<Query>): seq<Answer>
    decreases |qs|
  {
    if qs == [] then [] else [CachedAnswer(w, c, qs[0])] + CachedAnswers(w, After(w, c, qs[0]), qs[1..])
  }

  /** The cache after all of the queries. */
  function AfterAll(w: World, c: Cache, qs: seq<Query>): Cache
    decreases |qs|
  {
    if qs == [] then c else AfterAll(w, After(w, c, qs[0]), qs[1..])
  }

  function ReloadAnswers(w: World, qs: seq<Query>): seq<Answer>
    decreases |qs|
  {
    if qs == [] then [] else [ReloadAnswer(w, qs[0])] + ReloadAnswers(w, qs[1..])
  }

  predicate Coherent(w: World, c: Cache) {
    c.moduleBase != 0 ==> c.loaded == Load(w, c.moduleBase)
  }

  /** The cache is transparent: over any sequence of queries on any modules, failed loads and module switches
      included, the answers are those of reloading every time. */
  lemma {:induction false} CacheIsTransparent(w: World, c: Cache, qs: seq<Query>)
    requires Coherent(w, c)
    ensures CachedAnswers(w, c, qs) == ReloadAnswers(w, qs)
    decreases |qs|
  {
    hide Load, AnswerFrom;
    if qs != [] {
      CacheIsTransparent(w, After(w, c, qs[0]), qs[1..]);
    }
  }

  // ---- What the answers mean ----

  /** A name query answers with a recorded symbol of the greatest address not above the instruction pointer,
      and with none exactly when the module has no symbol at or below it. */
  lemma NameAnswerIsFloor(w: World, image: Pe.Image, pe: Pe.Pe, moduleBase: u64, ip: u64)
    requires w.Valid() && moduleBase != 0
    requires w.images(moduleBase) == Some(image) && Pe.ReadPe(image) == Some(pe)
    ensures var syms, found := Pe.ScanSymbols(image, pe, moduleBase).syms, FindSymbol(Load(w, moduleBase), ip);
      && (found.Some? <==> HasFloor(syms, SymbolKey, ip))
      && (found.Some? ==> IsFloor(syms, SymbolKey, ip, found.value))
  {
    hide Pe.ScanSymbols, Pe.ReadPe, LoadLines, FindDebug, IsFloor;
    var syms := Pe.ScanSymbols(image, pe, moduleBase).syms;
    var sorted := w.symOrder(syms);
    assert SortedPermutation(sorted, syms, SymbolKey);
    PermutationLength(sorted, syms);
    NoneAtOrBelow(sorted, SymbolKey, ip);
    FloorOfPermutation(sorted, syms, SymbolKey, ip, Pe.Symbol(0, 0));
    if FindSymbol(Load(w, moduleBase), ip).Some? {
      LastIsFloor(sorted, SymbolKey, ip);
      FloorOfPermutation(sorted, syms, SymbolKey, ip, LastAtOrBelow(sorted, SymbolKey, ip).value);
    }
  }

  /** A line query answers with an emitted row of the greatest address not above the linked address, and with none
      exactly when no row of the module is at or below it. */
  lemma LineAnswerIsFloor(w: World, image: Pe.Image, pe: Pe.Pe, moduleBase: u64, probe: u64)
    requires w.Valid() && moduleBase != 0
    requires w.images(moduleBase) == Some(image) && Pe.ReadPe(image) == Some(pe)
    ensures var d, l := FindDebug(image, pe, pe.sections), Load(w, moduleBase);
      var emitted := if d.line.None? then [] else Capped(ParseSection(d.line.value, d.sections, []).rows);
      var found := FindRow(l, moduleBase, probe);
      && (found.Some? <==> HasFloor(emitted, RowKey, Linked(l, moduleBase, probe)))
      && (found.Some? ==> IsFloor(emitted, RowKey, Linked(l, moduleBase, probe), found.value))
  {
    hide Pe.ScanSymbols, Pe.ReadPe, FindDebug, ParseSection, IsFloor, Linked;
    var d := FindDebug(image, pe, pe.sections);
    var linked := Linked(Load(w, moduleBase), moduleBase, probe);
    LoadedRows(w, image, pe, moduleBase);
    if d.line.None? || d.line.value == [] {
      EmptySection(d.sections);
      NoFloor(linked);
    } else {
      var emitted := Capped(ParseSection(d.line.value, d.sections, []).rows);
      SortedFloor(w, emitted, linked);
    }
  }

  lemma LoadedRows(w: World, image: Pe.Image, pe: Pe.Pe, moduleBase: u64)
    requires moduleBase != 0 && w.images(moduleBase) == Some(image) && Pe.ReadPe(image) == Some(pe)
    ensures var l, lines := Load(w, moduleBase), LoadLines(w, FindDebug(image, pe, pe.sections));
      l.rows == lines.rows && l.hasLines == lines.hasLines && l.imageBase == pe.imageBase
  {
    hide Pe.ScanSymbols, Pe.ReadPe, FindDebug, LoadLines;
  }

  lemma EmptySection(sections: Sections)
    ensures ParseSection([], sections, []).rows == []
  {
  }

  lemma NoFloor(probe: int)
    ensures !HasFloor<Row>([], RowKey, probe)
  {
  }

  lemma SortedFloor(w: World, rows: seq<Row>, probe: int)
    requires w.Valid()
    ensures var sorted := w.rowOrder(rows);
      var found := if sorted == [] then None else LastAtOrBelow(sorted, RowKey, probe);
      && (found.Some? <==> HasFloor(rows, RowKey, probe))
      && (found.Some? ==> IsFloor(rows, RowKey, probe, found.value))
  {
    hide IsFloor;
    var sorted := w.rowOrder(rows);
    assert SortedPermutation(sorted, rows, RowKey);
    NoneAtOrBelow(sorted, RowKey, probe);
    FloorOfPermutation(sorted, rows, RowKey, probe, Row(0, 0, 0));
    var found := LastAtOrBelow(sorted, RowKey, probe);
    if found.Some? {
      LastIsFloor(sorted, RowKey, probe);
      FloorOfPermutation(sorted, rows, RowKey, probe, found.value);
    }
  }

  /** With an image base the same row is found when the module and the probed address move by the same amount. */
  lemma LineAnswerShifts(w: World, image: Pe.Image, pe: Pe.Pe, moduleBase: u64, d: nat, probe: u64)
    requires moduleBase != 0 && Pe.ReadPe(image) == Some(pe) && pe.imageBase != 0
    requires moduleBase + d < U64 && probe + d < U64
    requires w.images(moduleBase) == Some(image) && w.images(moduleBase + d) == Some(image)
    ensures FindRow(Load(w, moduleBase), moduleBase, probe)
         == FindRow(Load(w, moduleBase + d), moduleBase + d, probe + d)
  {
    hide Load, Pe.ReadPe, FindDebug, LoadLines, LastAtOrBelow, Linked;
    LoadedRows(w, image, pe, moduleBase);
    LoadedRows(w, image, pe, moduleBase + d);
    LinkedShifts(Load(w, moduleBase), Load(w, moduleBase + d), moduleBase, d, probe);
  }

  lemma LinkedShifts(l: Loaded, l': Loaded, moduleBase: u64, d: nat, probe: u64)
    requires l.imageBase == l'.imageBase != 0 && moduleBase + d < U64 && probe + d < U64
    ensures Linked(l, moduleBase, probe) == Linked(l', moduleBase + d, probe + d)
  {
    assert l.imageBase + (probe + d) - (moduleBase + d) == l.imageBase + probe - moduleBase;
  }

  /** The offset into the image of the symbol found does not change when the module and the instruction
      pointer move by the same amount. */
  lemma NameAnswerShifts(w: World, image: Pe.Image, pe: Pe.Pe, moduleBase: u64, d: nat, ip: u64)
    requires w.Valid() && moduleBase != 0 && Pe.ReadPe(image) == Some(pe)
    requires Pe.Fits(moduleBase + d) && ip + d < U64
    requires w.images(moduleBase) == Some(image) && w.images(moduleBase + d) == Some(image)
    ensures var here, there := FindSymbol(Load(w, moduleBase), ip), FindSymbol(Load(w, moduleBase + d), ip + d);
      && (here.Some? <==> there.Some?)
      && (here.Some? ==> there.value.addr - (moduleBase + d) == here.value.addr - moduleBase)
  {
    hide Load, FindSymbol, Pe.ScanSymbols, Pe.ReadPe, IsFloor, HasFloor;
    Pe.ScanShifts(image, pe, moduleBase, d);
    NameAnswerIsFloor(w, image, pe, moduleBase, ip);
    NameAnswerIsFloor(w, image, pe, moduleBase + d, ip + d);
    var syms := Pe.ScanSymbols(image, pe, moduleBase).syms;
    FloorShifts(syms, d, ip);
    var here, there := FindSymbol(Load(w, moduleBase), ip), FindSymbol(Load(w, moduleBase + d), ip + d);
    if here.Some? && there.Some? {
      SameFloor(syms, d, ip, here.value, there.value);
    }
  }

  lemma FloorShifts(syms: seq<Pe.Symbol>, d: nat, ip: u64)
    requires Pe.NoOverflow(syms, d)
    ensures HasFloor(syms, SymbolKey, ip) <==> HasFloor(Pe.Shifted(syms, d), SymbolKey, ip + d)
  {
    var shifted := Pe.Shifted(syms, d);
    if HasFloor(syms, SymbolKey, ip) {
      var s :| s in syms && SymbolKey(s) <= ip;
      var k :| 0 <= k < |syms| && syms[k] == s;
      assert shifted[k] in shifted && SymbolKey(shifted[k]) <= ip + d;
    }
    if HasFloor(shifted, SymbolKey, ip + d) {
      var s :| s in shifted && SymbolKey(s) <= ip + d;
      var k :| 0 <= k < |shifted| && shifted[k] == s;
      assert syms[k] in syms && SymbolKey(syms[k]) <= ip;
    }
  }

  lemma SameFloor(syms: seq<Pe.Symbol>, d: nat, ip: u64, here: Pe.Symbol, there: Pe.Symbol)
    requires Pe.NoOverflow(syms, d)
    requires IsFloor(syms, SymbolKey, ip, here) && IsFloor(Pe.Shifted(syms, d), SymbolKey, ip + d, there)
    ensures there.addr == here.addr + d
  {
    var shifted := Pe.Shifted(syms, d);
    var k :| 0 <= k < |syms| && syms[k] == here;
    assert shifted[k] in shifted && SymbolKey(shifted[k]) <= ip + d;
    var j :| 0 <= j < |shifted| && shifted[j] == there;
    assert syms[j] in syms && SymbolKey(syms[j]) <= ip;
  }
}
