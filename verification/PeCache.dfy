/** The static tables of the symbolizer and the functions that load and search them. */
module PeCache {
  import opened Bytes
  import opened Wrappers
  import opened LineTables
  import opened Forms
  import opened Sorting
  import opened LineIndex
  import opened NamedRows
  import opened PeIndex

  /** The copy loop of `bw_pe_add_name`. */
  method CopyName(names: array<byte>, nlen: nat, src: Bytes, n: nat) returns (i: nat)
    requires n <= |src| && nlen + n < names.Length
    modifies names
    ensures i <= n && (i < n ==> src[i] == 0) && forall k | 0 <= k < i :: src[k] != 0
    ensures names[..nlen + i] == old(names[..nlen]) + src[..i]
  {
    i := 0;
    while i < n && src[i] != 0
      invariant i <= n
      invariant forall k | 0 <= k < nlen :: names[k] == old(names[k])
      invariant forall k | 0 <= k < i :: names[nlen + k] == src[k] != 0
    {
      names[nlen + i] := src[i];
      i := i + 1;
    }
  }

  /** `bw_pe_add_name`: `len` is the new fill count. */
  method AppendName(names: array<byte>, nlen: nat, src: Bytes) returns (off: int, len: nat)
    requires names.Length == Pe.NAME_MAX && nlen <= Pe.NAME_MAX
    modifies names
    ensures len <= Pe.NAME_MAX
    ensures Pe.Named(names[..len], off) == Pe.AddName(old(names[..nlen]), src)
  {
    hide Pe.AddName;
    ghost var before := names[..nlen];
    if |src| == 0 || nlen >= Pe.NAME_MAX {
      Pe.AddNameFull(before, src);
      return -1, nlen;
    }
    var n := |src|;
    if n >= Pe.NAME_MAX - nlen {
      n := Pe.NAME_MAX - nlen - 1;
    }
    var i := CopyName(names, nlen, src, n);
    Pe.AddNameIs(before, src, i);
    if i == 0 {
      assert before + src[..0] == before;
      return -1, nlen;
    }
    ghost var copied := names[..nlen + i];
    names[nlen + i] := 0;
    assert names[..nlen + i + 1] == copied + [0];
    return nlen, nlen + i + 1;
  }

  /** The static tables, and the files and the sort they are loaded with. */
  class Index {
    const world: World
    var moduleBase: u64
    var hasSymbols: bool
    const syms: array<Pe.Symbol>
    var nsym: nat
    const names: array<byte>
    var nlen: nat
    var imageBase: u64
    const dwarf: LineTable
    var hasLines: bool

    ghost predicate Valid()
      reads this, dwarf, dwarf.strs
    {
      && syms.Length == Pe.SYM_MAX && names.Length == Pe.NAME_MAX
      && nsym <= Pe.SYM_MAX && nlen <= Pe.NAME_MAX
      && names != dwarf.strs
      && dwarf.Valid() && Closed(dwarf.Pool())
      && world.Valid()
    }

    ghost function Symbols(): Pe.Symbols
      reads this, syms, names
      requires nsym <= syms.Length && nlen <= names.Length
    {
      Pe.Symbols(syms[..nsym], names[..nlen])
    }

    ghost function Contents(): Loaded
      reads this, syms, names, dwarf, dwarf.rows, dwarf.strs
      requires Valid()
    {
      Loaded(hasSymbols, syms[..nsym], names[..nlen], imageBase, hasLines, dwarf.Rows(), dwarf.Pool())
    }

    /** The cache as a value. */
    ghost function CacheOf(): Cache
      reads this, syms, names, dwarf, dwarf.rows, dwarf.strs
      requires Valid()
    {
      Cache(moduleBase, Contents())
    }

    /** The tables hold what loading the cached module yields. */
    ghost predicate Holds()
      reads this, syms, names, dwarf, dwarf.rows, dwarf.strs
      requires Valid()
    {
      Coherent(world, CacheOf())
    }

    constructor (world: World)
      requires world.Valid()
      ensures Valid() && Holds() && moduleBase == 0 && this.world == world
      ensures fresh(syms) && fresh(names) && fresh(dwarf) && fresh(dwarf.rows) && fresh(dwarf.strs)
    {
      this.world := world;
      moduleBase, hasSymbols, nsym, nlen, imageBase, hasLines := 0, false, 0, 0, 0, false;
      syms := new Pe.Symbol[Pe.SYM_MAX](_ => Pe.Symbol(0, 0));
      names := new byte[Pe.NAME_MAX](_ => 0);
      dwarf := new LineTable();
      new;
    }

    method AddName(src: Bytes) returns (off: int)
      requires Valid()
      modifies `nlen, names
      ensures Valid()
      ensures Pe.Named(names[..nlen], off) == Pe.AddName(old(names[..nlen]), src)
      ensures off >= 0 ==> off < Pe.NAME_MAX
    {
      hide Pe.AddName, LineTable.Pool, Closed, World.Valid;
      var len;
      off, len := AppendName(names, nlen, src);
      nlen := len;
    }

    /** The record loop of `bw_pe_load`. */
    method ScanRecords(image: Pe.Image, pe: Pe.Pe, base: u64)
      requires Valid() && Pe.Valid(image, pe) && nsym == 0 && nlen == 0
      modifies `nsym, `nlen, syms, names
      ensures Valid()
      ensures Symbols() == Pe.ScanSymbols(image, pe, base)
    {
      hide Pe.Primaries, Pe.Auxiliaries, Pe.Records, Pe.Interpreted, Pe.NameBytes, Pe.SymbolAddress, Pe.AddName,
        Pe.SectionNumber, LineTable.Pool, Closed, World.Valid;
      ghost var total := Pe.ScanSymbols(image, pe, base);
      var i: nat, n: nat := 0, Pe.Records(image, pe);
      assert Symbols() == Pe.NO_SYMBOLS;
      while i < n && nsym < Pe.SYM_MAX
        invariant Valid()
        invariant Pe.Interpret(image, pe, base, Pe.Primaries(image, pe, i), Symbols()) == total
      {
        Pe.PrimariesStep(image, pe, i);
        var naux := Pe.Auxiliaries(image, pe, i);
        if naux != 0 && i + naux >= n {
          return;
        }
        if Pe.Interpreted(image, pe, i) {
          ghost var before := Symbols();
          var off := AddName(Pe.NameBytes(image, pe, i).value);
          assert syms[..nsym] == before.syms;
          if off < 0 {
            assert Symbols() == before;
            return;
          }
          syms[nsym] := Pe.Symbol(Pe.SymbolAddress(image, pe, base, i), off);
          nsym := nsym + 1;
          assert syms[..nsym] == before.syms + [syms[nsym - 1]];
        }
        i := i + naux + 1;
      }
      if i >= n {
        Pe.NoPrimaries(image, pe, i);
      }
    }

    /** The debug sections, by one pass over the section headers. */
    method FindSections(image: Pe.Image, pe: Pe.Pe) returns (d: Debug)
      requires Pe.Valid(image, pe)
      ensures d == FindDebug(image, pe, pe.sections) && FoundLast(image, pe, pe.sections, d)
    {
      hide SectionName, SectionData, FoundLast;
      FindDebugMeaning(image, pe, pe.sections);
      var line, lineStr: Bytes, debugStr: Bytes := None, [], [];
      var s := 0;
      while s < pe.sections
        invariant s <= pe.sections
        invariant FindDebug(image, pe, s) == Debug(line, Sections(lineStr, debugStr))
      {
        var name, data := SectionName(image, pe, s), SectionData(image, pe, s);
        if data.Some? {
          if name == DOT_DEBUG + UNDERSCORE_LINE {
            line := data;
          } else if name == DOT_DEBUG + UNDERSCORE_LINE + UNDERSCORE_STR {
            lineStr := data.value;
          } else if name == DOT_DEBUG + UNDERSCORE_STR {
            debugStr := data.value;
          }
        }
        s := s + 1;
      }
      d := Debug(line, Sections(lineStr, debugStr));
    }

    /** The reset at the start of `bw_pe_load`. */
    method Clear(base: u64)
      requires Valid()
      modifies this, dwarf
      ensures Valid() && moduleBase == base && Contents() == NOTHING
    {
      moduleBase, hasSymbols, nsym, nlen, imageBase, hasLines := base, false, 0, 0, 0, false;
      dwarf.Reset();
    }

    /** The line tables, when the image has a `.debug_line` section. */
    method LoadDebug(d: Debug)
      requires Valid() && dwarf.Rows() == [] && dwarf.Pool() == [] && !hasLines
      modifies `hasLines, dwarf, dwarf.rows, dwarf.strs
      ensures Valid()
      ensures var l := LoadLines(world, d);
        hasLines == l.hasLines && dwarf.Rows() == l.rows && dwarf.Pool() == l.pool
    {
      hide ParseSection;
      if d.line.Some? {
        if d.line.value != [] {
          ghost var x := ParseSection(d.line.value, d.sections, []);
          assert dwarf.Rows() + x.rows == x.rows;
        }
        hasLines := Parse(dwarf, d.line.value, d.sections, world.rowOrder);
      }
    }

    /** `bw_pe_load` */
    method LoadModule(base: u64)
      requires Valid()
      modifies this, syms, names, dwarf, dwarf.rows, dwarf.strs
      ensures Valid() && moduleBase == base && Contents() == Load(world, base)
    {
      hide Pe.ScanSymbols, Pe.ReadPe, FindDebug, LoadLines, Closed, World.Valid;
      Clear(base);
      if base == 0 || world.images(base).None? {
        return;
      }
      var image := world.images(base).value;
      var pe := Pe.ReadPe(image);
      if pe.None? {
        return;
      }
      imageBase := pe.value.imageBase;
      var d := FindSections(image, pe.value);
      ghost var x := Pe.ScanSymbols(image, pe.value, base);
      LoadSymbols(image, pe.value, base);
      LoadDebug(d);
      assert Contents() == LoadLines(world, d).(
        hasSymbols := x.syms != [], syms := world.symOrder(x.syms), names := x.names, imageBase := imageBase);
    }

    method LoadSymbols(image: Pe.Image, pe: Pe.Pe, base: u64)
      requires Valid() && Pe.Valid(image, pe) && nsym == 0 && nlen == 0 && !hasSymbols
      modifies `nsym, `nlen, `hasSymbols, syms, names
      ensures Valid()
      ensures var x := Pe.ScanSymbols(image, pe, base);
        && Symbols() == Pe.Symbols(world.symOrder(x.syms), x.names)
        && (hasSymbols <==> x.syms != [])
    {
      ScanRecords(image, pe, base);
      SortSymbols(Pe.ScanSymbols(image, pe, base));
    }

    method SortSymbols(ghost x: Pe.Symbols)
      requires Valid() && Symbols() == x && !hasSymbols
      modifies syms, `hasSymbols
      ensures Valid() && Symbols() == Pe.Symbols(world.symOrder(x.syms), x.names)
      ensures hasSymbols <==> x.syms != []
    {
      PermutationLength(world.symOrder(x.syms), x.syms);
      if nsym > 0 {
        Qsort(syms, nsym, world.symOrder, SymbolKey);
        hasSymbols := true;
      }
    }

    /** `bw_pe_find`: the symbol whose name is the answer. The tables are loaded when another module than the
        cached one is asked for, and only then. */
    method Find(base: u64, ip: u64) returns (found: bool, nameOff: u32)
      requires Valid() && Holds()
      modifies this, syms, names, dwarf, dwarf.rows, dwarf.strs
      ensures Valid() && Holds()
      ensures base == 0 ==> !found && CacheOf() == old(CacheOf())
      ensures base != 0 ==>
        var symbol := FindSymbol(Load(world, base), ip);
        && moduleBase == base
        && (found <==> symbol.Some?)
        && (found ==> nameOff == symbol.value.nameOff)
    {
      hide Load;
      found, nameOff := false, 0;
      if base == 0 {
        return;
      }
      if moduleBase != base {
        LoadModule(base);
      }
      if !hasSymbols {
        return;
      }
      ghost var l := Load(world, base);
      LoadedSorted(world, base);
      var best;
      found, best := FloorIndex(syms, nsym, SymbolKey, ip);
      NoneAtOrBelow(l.syms, SymbolKey, ip);
      if found {
        LastAtOrBelowIs(l.syms, SymbolKey, ip, best);
        nameOff := syms[best].nameOff;
      }
    }

    /** `bw_pe_line`: the row whose file and line are the answer. */
    method FindLine(base: u64, probe: u64) returns (found: bool, fileOff: u32, line: u32)
      requires Valid() && Holds()
      modifies this, syms, names, dwarf, dwarf.rows, dwarf.strs
      ensures Valid() && Holds()
      ensures base == 0 ==> !found && CacheOf() == old(CacheOf())
      ensures base != 0 ==>
        var row := FindRow(Load(world, base), base, probe);
        && moduleBase == base
        && (found <==> row.Some?)
        && (found ==> fileOff == row.value.nameOff && line == row.value.line)
    {
      hide Load, Closed, World.Valid, LineTable.Pool, Linked, HasFloor, IsFloor, LastAtOrBelow, Ascending;
      found, fileOff, line := false, 0, 0;
      if base == 0 {
        return;
      }
      if moduleBase != base {
        LoadModule(base);
      }
      if !hasLines {
        return;
      }
      ghost var l := Load(world, base);
      LoadedSorted(world, base);
      var linked := probe;
      if imageBase != 0 {
        linked := Wrap(imageBase + probe - base);
      }
      LinkedIs(l, base, probe);
      var best;
      found, best := FloorIndex(dwarf.rows, dwarf.nrow, RowKey, linked);
      NoneAtOrBelow(l.rows, RowKey, linked);
      if found {
        LastAtOrBelowIs(l.rows, RowKey, linked, best);
        fileOff := dwarf.rows[best].nameOff;
        line := dwarf.rows[best].line;
      }
    }

    /** The string that `bw_pe_names + off` points at. */
    method NameString(off: nat) returns (s: CString)
      requires Valid() && off < nlen && 0 in names[..nlen][off..]
      ensures s == NameAt(names[..nlen], off)
    {
      hide StrLen, LineTable.Pool, Closed, World.Valid;
      var i := off;
      ghost var rest := names[..nlen][off..];
      ghost var end: nat :| end < |rest| && rest[end] == 0;
      while names[i] != 0
        invariant off <= i <= off + end
        invariant forall k | off <= k < i :: names[k] != 0
        decreases nlen - i
      {
        i := i + 1;
      }
      s := names[off..i];
      assert rest[..i - off] == s && rest[i - off] == 0;
      StrLenUnique(rest, i - off);
    }

    /** One query, answered from the tables, with the string read out of their pool. */
    method AnswerOne(q: Query) returns (a: Answer)
      requires Valid() && Holds()
      modifies this, syms, names, dwarf, dwarf.rows, dwarf.strs
      ensures Valid() && Holds() && CacheOf() == After(world, old(CacheOf()), q)
      ensures a == CachedAnswer(world, old(CacheOf()), q)
    {
      hide Load, FindSymbol, FindRow, NameAt, LineTable.Pool, Closed;
      a := Nothing;
      ghost var l := Load(world, q.moduleBase);
      LoadedSound(world, q.moduleBase);
      NothingFound(q);
      match q
      case NameQuery(base, ip) =>
        var found, off := Find(base, ip);
        if found {
          FoundInside(l, ip);
          var s := NameString(off);
          a := Name(s);
        }
      case LineQuery(base, probe) =>
        var found, off, line := FindLine(base, probe);
        if found {
          FoundRowInside(l, base, probe);
          var s := dwarf.StringAt(off);
          a := Line(s, line);
        }
    }

    /** Over any sequence of queries, on any modules, the answers are those of loading the module afresh for every
        query, and the cache ends up with the module asked for last. */
    method AnswerAll(qs: seq<Query>) returns (answers: seq<Answer>)
      requires Valid() && Holds()
      modifies this, syms, names, dwarf, dwarf.rows, dwarf.strs
      ensures Valid() && Holds() && CacheOf() == AfterAll(world, old(CacheOf()), qs)
      ensures answers == ReloadAnswers(world, qs)
    {
      hide Valid, CacheOf, CachedAnswer, After, ReloadAnswer;
      answers := [];
      ghost var start := CacheOf();
      ghost var total := CachedAnswers(world, start, qs);
      CacheIsTransparent(world, start, qs);
      var i := 0;
      while i < |qs|
        invariant i <= |qs| && Valid() && Holds()
        invariant answers + CachedAnswers(world, CacheOf(), qs[i..]) == total
        invariant AfterAll(world, CacheOf(), qs[i..]) == AfterAll(world, start, qs)
      {
        ghost var c := CacheOf();
        var a := AnswerOne(qs[i]);
        assert qs[i..][1..] == qs[i + 1..];
        assert answers + CachedAnswers(world, c, qs[i..])
            == answers + [a] + CachedAnswers(world, CacheOf(), qs[i + 1..]);
        answers := answers + [a];
        i := i + 1;
      }
      assert answers + [] == answers;
    }
  }

  // ---- The strings of a loaded module ----

  ghost predicate NamesEnd(l: Loaded) {
    && Closed(l.pool)
    && (forall s | s in l.syms :: StartsString(l.names, s.nameOff))
    && (forall r | r in l.rows :: StartsString(l.pool, r.nameOff))
  }

  lemma ScannedNamesEnd(image: Pe.Image, pe: Pe.Pe, base: u64)
    requires Pe.Valid(image, pe)
    ensures var x := Pe.ScanSymbols(image, pe, base); forall s | s in x.syms :: StartsString(x.names, s.nameOff)
  {
    hide Pe.ScanSymbols, Pe.Interpreted, Pe.SymbolAddress, Pe.NameBytes, Pe.Primaries, Pe.InterpretedOf;
    var at := Pe.ScanSound(image, pe, base);
  }

  /** Whatever a module is loaded from, every offset in its tables starts a string that ends inside its pool. */
  lemma LoadedSound(w: World, base: u64)
    requires w.Valid()
    ensures NamesEnd(Load(w, base))
  {
    hide Pe.ScanSymbols, Pe.ReadPe, FindDebug, LoadLines, StartsString;
    if base != 0 && w.images(base).Some? && Pe.ReadPe(w.images(base).value).Some? {
      var image := w.images(base).value;
      var pe := Pe.ReadPe(image).value;
      var x := Pe.ScanSymbols(image, pe, base);
      ScannedNamesEnd(image, pe, base);
      assert SortedPermutation(w.symOrder(x.syms), x.syms, SymbolKey);
      PermutationLength(w.symOrder(x.syms), x.syms);
      LinesEnd(w, FindDebug(image, pe, pe.sections));
    } else {
      NothingEnds();
    }
  }

  lemma NothingEnds()
    ensures NamesEnd(NOTHING)
  {
  }

  lemma LinesEnd(w: World, d: Debug)
    requires w.Valid()
    ensures var l := LoadLines(w, d); Closed(l.pool) && forall r | r in l.rows :: StartsString(l.pool, r.nameOff)
  {
    hide ParseSection, StartsString;
    if d.line.Some? && d.line.value != [] {
      var x := ParseSection(d.line.value, d.sections, []);
      SectionSound(d.line.value, d.sections, []);
      var rows := Capped(x.rows);
      assert SortedPermutation(w.rowOrder(rows), rows, RowKey);
      PermutationLength(w.rowOrder(rows), rows);
      forall r | r in rows
        ensures StartsString(x.pool, r.nameOff)
      {
        assert r in x.rows;
      }
    }
  }

  lemma {:induction false} LastMember<T>(s: seq<T>, key: T -> int, probe: int)
    ensures var r := LastAtOrBelow(s, key, probe); r.Some? ==> r.value in s
    decreases |s|
  {
    if s != [] && key(s[|s| - 1]) > probe {
      LastMember(s[..|s| - 1], key, probe);
    }
  }

  lemma FoundInside(l: Loaded, ip: u64)
    requires NamesEnd(l) && FindSymbol(l, ip).Some?
    ensures StartsString(l.names, FindSymbol(l, ip).value.nameOff)
  {
    hide StartsString;
    LastMember(l.syms, SymbolKey, ip);
  }

  lemma FoundRowInside(l: Loaded, base: u64, probe: u64)
    requires NamesEnd(l) && FindRow(l, base, probe).Some?
    ensures StartsString(l.pool, FindRow(l, base, probe).value.nameOff)
  {
    hide StartsString;
    LastMember(l.rows, RowKey, Linked(l, base, probe));
  }

  lemma NothingFound(q: Query)
    ensures AnswerFrom(NOTHING, q) == Nothing
  {
  }

  lemma LinkedIs(l: Loaded, base: u64, probe: u64)
    ensures Linked(l, base, probe) == if l.imageBase != 0 then Wrap(l.imageBase + probe - base) else probe
  {
  }

  lemma LoadedSorted(w: World, base: u64)
    requires w.Valid()
    ensures Ascending(Load(w, base).syms, SymbolKey) && Ascending(Load(w, base).rows, RowKey)
  {
    hide Pe.ScanSymbols, Pe.ReadPe, FindDebug, ParseSection, Ascending;
    assert Ascending<Pe.Symbol>([], SymbolKey) && Ascending<Row>([], RowKey) by {
      EmptyAscends();
    }
  }

  lemma EmptyAscends()
    ensures Ascending<Pe.Symbol>([], SymbolKey) && Ascending<Row>([], RowKey)
  {
  }
}
