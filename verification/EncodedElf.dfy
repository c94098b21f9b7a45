/** ELF files as producers write them (64-bit, little endian), and the symbol `bw_elf_sname` finds in them. */
module EncodedElf {
  import opened Bytes
  import Elf = ElfSymbols

  // ---- Abstract files ----

  /** A symbol: its name, where the name lies in the string table (0 for none), and the other fields of its record. */
  datatype Symbol = Symbol(name: CString, at: u32, info: byte, other: byte, shndx: u16, value: u64, size: u64)

  datatype SectionHeader = SectionHeader(name: u32, kind: u32, flags: u64, addr: u64, offset: u64, size: u64,
                                         link: u32, info: u32, align: u64, entrySize: u64)

  /** A file with one symbol table and its string table, and any other sections before and after them. What the
      decoder does not look at is arbitrary: the rest of the identification, the fields of the file header, gaps. */
  datatype ElfFields = ElfFile(
    ident: Bytes, head: Bytes, middle: Bytes, nameIndex: u16, gap: Bytes, symbols: seq<Symbol>, strings: Bytes,
    before: seq<SectionHeader>, after: seq<SectionHeader>, trailer: Bytes)
  {
    predicate Valid() {
      |ident| == 12 && |head| == 24 && |middle| == 10
    }

    function SymbolsOff(): nat {
      64 + |gap|
    }

    function StringsOff(): nat {
      SymbolsOff() + 24 * |symbols|
    }

    function HeadersOff(): nat {
      StringsOff() + |strings|
    }

    function SectionCount(): nat {
      |before| + 2 + |after|
    }
  }

  type ElfFile = e: ElfFields | e.Valid()
    witness ElfFile(seq(12, _ => 0), seq(24, _ => 0), seq(10, _ => 0), 0, [], [], [], [], [], [])

  function EncodeSymbol(s: Symbol): (r: Bytes)
    ensures |r| == 24
  {
    LeBytes(s.at, 4) + [s.info] + [s.other] + LeBytes(s.shndx, 2) + LeBytes(s.value, 8) + LeBytes(s.size, 8)
  }

  function EncodeSymbols(symbols: seq<Symbol>): (r: Bytes)
    ensures |r| == 24 * |symbols|
    decreases |symbols|
  {
    if symbols == [] then [] else EncodeSymbol(symbols[0]) + EncodeSymbols(symbols[1..])
  }

  function EncodeHeader(h: SectionHeader): (r: Bytes)
    ensures |r| == 64
  {
    LeBytes(h.name, 4) + LeBytes(h.kind, 4) + LeBytes(h.flags, 8) + LeBytes(h.addr, 8) + LeBytes(h.offset, 8)
      + LeBytes(h.size, 8) + LeBytes(h.link, 4) + LeBytes(h.info, 4) + LeBytes(h.align, 8) + LeBytes(h.entrySize, 8)
  }

  function EncodeHeaders(hs: seq<SectionHeader>): (r: Bytes)
    ensures |r| == 64 * |hs|
    decreases |hs|
  {
    if hs == [] then [] else EncodeHeader(hs[0]) + EncodeHeaders(hs[1..])
  }

  /** Everything fits its field. */
  predicate Fits(e: ElfFile) {
    e.SectionCount() < 0x1_0000 && e.HeadersOff() < 0x8000_0000_0000_0000
  }

  function SymbolTableHeader(e: ElfFile): SectionHeader
    requires Fits(e)
  {
    SectionHeader(0, 2, 0, 0, e.SymbolsOff(), 24 * |e.symbols|, |e.before| + 1, 0, 8, 24)
  }

  function StringTableHeader(e: ElfFile): SectionHeader
    requires Fits(e)
  {
    SectionHeader(0, 3, 0, 0, e.StringsOff(), |e.strings|, 0, 0, 1, 0)
  }

  function AllHeaders(e: ElfFile): (hs: seq<SectionHeader>)
    requires Fits(e)
    ensures |hs| == e.SectionCount()
  {
    e.before + [SymbolTableHeader(e), StringTableHeader(e)] + e.after
  }

  function FileHeader(e: ElfFile): (r: Bytes)
    requires Fits(e)
    ensures |r| == 64
  {
    [0x7f, 0x45, 0x4c, 0x46] + e.ident + e.head + LeBytes(e.HeadersOff(), 8) + e.middle
      + LeBytes(64, 2) + LeBytes(e.SectionCount(), 2) + LeBytes(e.nameIndex, 2)
  }

  function EncodeElf(e: ElfFile): (file: Bytes)
    requires Fits(e)
  {
    FileHeader(e) + e.gap + EncodeSymbols(e.symbols) + e.strings + EncodeHeaders(AllHeaders(e)) + e.trailer
  }

  /** The other sections are no symbol tables, and names lie where the symbols say. */
  predicate WellFormed(e: ElfFile) {
    && Fits(e)
    && (forall k | 0 <= k < |e.before| :: e.before[k].kind != 2)
    && (forall k | 0 <= k < |e.after| :: e.after[k].kind != 2)
    && (forall k | 0 <= k < |e.symbols| :: NameLies(e.strings, e.symbols[k]))
  }

  predicate NameLies(strings: Bytes, s: Symbol) {
    s.at == 0 || (s.at < |strings| && s.name + [0] <= strings[s.at..])
  }

  // ---- The function at an address ----

  /** A defined function with a size and a name. */
  predicate IsFunction(s: Symbol) {
    s.info % 16 == 2 && s.shndx != 0 && s.size != 0 && s.at != 0
  }

  function StartOf(bias: u64, s: Symbol): int {
    (bias + s.value) % 0x1_0000_0000_0000_0000
  }

  /** The address lies between start and end, on 64-bit words. */
  predicate Around(bias: u64, ip: u64, s: Symbol) {
    IsFunction(s) && StartOf(bias, s) <= ip < (StartOf(bias, s) + s.size) % 0x1_0000_0000_0000_0000
  }

  lemma AroundIsInterval(bias: u64, ip: u64, s: Symbol)
    requires bias + s.value + s.size < 0x1_0000_0000_0000_0000
    ensures Around(bias, ip, s) <==> IsFunction(s) && bias + s.value <= ip < bias + s.value + s.size
    ensures StartOf(bias, s) == bias + s.value
  {
  }

  /** Function `k` is around the address; none that is starts later, nor at the same address and further down. */
  ghost predicate IsInnermost(symbols: seq<Symbol>, bias: u64, ip: u64, k: int) {
    && 0 <= k < |symbols| && Around(bias, ip, symbols[k])
    && forall j | 0 <= j < |symbols| && Around(bias, ip, symbols[j]) ::
         var a, b := StartOf(bias, symbols[j]), StartOf(bias, symbols[k]); a < b || (a == b && j <= k)
  }

  // ---- Reading the file back ----

  lemma SymbolFields(s: Symbol)
    ensures Elf.SymbolAt(EncodeSymbol(s), 0) == Elf.Symbol(s.at, s.info % 16, s.shndx, s.value, s.size)
  {
    hide LeBytes, WordAt, Pow256;
    Pow256Words();
    var r, name, bytes := EncodeSymbol(s), LeBytes(s.at, 4), [s.info] + [s.other];
    var shndx, value, size := LeBytes(s.shndx, 2), LeBytes(s.value, 8), LeBytes(s.size, 8);
    WordBehind([], s.at, 4, bytes + shndx + value + size);
    assert r == [] + name + (bytes + shndx + value + size);
    WordBehind(name + bytes, s.shndx, 2, value + size);
    assert r == name + bytes + shndx + (value + size);
    WordBehind(name + bytes + shndx, s.value, 8, size);
    assert r == name + bytes + shndx + value + size;
    WordBehind(name + bytes + shndx + value, s.size, 8, []);
    assert r == name + bytes + shndx + value + size + [];
  }

  lemma SymbolInside(file: Bytes, off: nat, s: Symbol)
    requires off + 24 <= |file| && file[off..off + 24] == EncodeSymbol(s)
    ensures Elf.SymbolAt(file, off) == Elf.Symbol(s.at, s.info % 16, s.shndx, s.value, s.size)
  {
    hide WordAt, EncodeSymbol;
    var piece := EncodeSymbol(s);
    SymbolFields(s);
    WordInside(file, off, piece, 0, 4);
    WordInside(file, off, piece, 6, 2);
    WordInside(file, off, piece, 8, 8);
    WordInside(file, off, piece, 16, 8);
    assert file[off..off + 24][4] == file[off + 4];
  }

  lemma HeaderFields(h: SectionHeader)
    ensures Elf.SectionAt(EncodeHeader(h), 0) == Elf.Section(h.kind, h.offset, h.size, h.link, h.entrySize)
  {
    hide LeBytes, WordAt, Pow256;
    Pow256Words();
    var r := EncodeHeader(h);
    var name, kind, flags, addr := LeBytes(h.name, 4), LeBytes(h.kind, 4), LeBytes(h.flags, 8), LeBytes(h.addr, 8);
    var offset, size, link := LeBytes(h.offset, 8), LeBytes(h.size, 8), LeBytes(h.link, 4);
    var tail := LeBytes(h.info, 4) + LeBytes(h.align, 8);
    var entry := LeBytes(h.entrySize, 8);
    WordBehind(name, h.kind, 4, flags + addr + offset + size + link + tail + entry);
    assert r == name + kind + (flags + addr + offset + size + link + tail + entry);
    WordBehind(name + kind + flags + addr, h.offset, 8, size + link + tail + entry);
    assert r == name + kind + flags + addr + offset + (size + link + tail + entry);
    WordBehind(name + kind + flags + addr + offset, h.size, 8, link + tail + entry);
    assert r == name + kind + flags + addr + offset + size + (link + tail + entry);
    WordBehind(name + kind + flags + addr + offset + size, h.link, 4, tail + entry);
    assert r == name + kind + flags + addr + offset + size + link + (tail + entry);
    WordBehind(name + kind + flags + addr + offset + size + link + tail, h.entrySize, 8, []);
    assert r == name + kind + flags + addr + offset + size + link + tail + entry + [];
  }

  lemma HeaderInside(file: Bytes, off: nat, h: SectionHeader)
    requires off + 64 <= |file| && file[off..off + 64] == EncodeHeader(h)
    ensures Elf.SectionAt(file, off) == Elf.Section(h.kind, h.offset, h.size, h.link, h.entrySize)
  {
    hide WordAt, EncodeHeader;
    var piece := EncodeHeader(h);
    HeaderFields(h);
    WordInside(file, off, piece, 4, 4);
    WordInside(file, off, piece, 24, 8);
    WordInside(file, off, piece, 32, 8);
    WordInside(file, off, piece, 40, 4);
    WordInside(file, off, piece, 56, 8);
  }

  lemma {:induction false} SymbolPiece(symbols: seq<Symbol>, k: nat)
    requires k < |symbols|
    ensures EncodeSymbols(symbols)[24 * k..24 * k + 24] == EncodeSymbol(symbols[k])
    decreases k
  {
    hide EncodeSymbol;
    var rest := EncodeSymbols(symbols[1..]);
    if k > 0 {
      SymbolPiece(symbols[1..], k - 1);
      PartBehind(EncodeSymbol(symbols[0]), rest, 24 * (k - 1), 24);
    }
  }

  lemma {:induction false} HeaderPiece(hs: seq<SectionHeader>, k: nat)
    requires k < |hs|
    ensures EncodeHeaders(hs)[64 * k..64 * k + 64] == EncodeHeader(hs[k])
    decreases k
  {
    hide EncodeHeader;
    var rest := EncodeHeaders(hs[1..]);
    if k > 0 {
      HeaderPiece(hs[1..], k - 1);
      PartBehind(EncodeHeader(hs[0]), rest, 64 * (k - 1), 64);
    }
  }

  /** Where the pieces of the file are. */
  lemma Layout(e: ElfFile)
    requires Fits(e)
    ensures var file, symbols, headers := EncodeElf(e), EncodeSymbols(e.symbols), EncodeHeaders(AllHeaders(e));
      && e.HeadersOff() + |headers| <= |file|
      && file[..64] == FileHeader(e)
      && file[e.SymbolsOff()..e.SymbolsOff() + |symbols|] == symbols
      && file[e.StringsOff()..e.StringsOff() + |e.strings|] == e.strings
      && file[e.HeadersOff()..e.HeadersOff() + |headers|] == headers
  {
    hide FileHeader, EncodeSymbols, EncodeHeaders, AllHeaders;
    SixPieces(FileHeader(e), e.gap, EncodeSymbols(e.symbols), e.strings, EncodeHeaders(AllHeaders(e)), e.trailer);
  }

  lemma SixPieces(a: Bytes, b: Bytes, c: Bytes, d: Bytes, f: Bytes, g: Bytes)
    ensures var file := a + b + c + d + f + g;
      && file[..|a|] == a
      && file[|a| + |b|..|a| + |b| + |c|] == c
      && file[|a| + |b| + |c|..|a| + |b| + |c| + |d|] == d
      && file[|a| + |b| + |c| + |d|..|a| + |b| + |c| + |d| + |f|] == f
  {
    assert a + b + c + d + f + g == [] + a + (b + c + d + f + g);
    assert a + b + c + d + f + g == a + b + c + (d + f + g);
    assert a + b + c + d + f + g == a + b + c + d + (f + g);
  }

  lemma SymbolRead(e: ElfFile, k: nat)
    requires Fits(e) && k < |e.symbols|
    ensures e.SymbolsOff() + (k + 1) * Elf.SYM_SIZE <= |EncodeElf(e)|
    ensures var s := e.symbols[k];
      Elf.RecordAt(EncodeElf(e), e.SymbolsOff(), k) == Elf.Symbol(s.at, s.info % 16, s.shndx, s.value, s.size)
  {
    hide EncodeElf, EncodeSymbols, EncodeHeaders, EncodeSymbol, AllHeaders, FileHeader;
    Layout(e);
    SymbolPiece(e.symbols, k);
    PartOfPiece(EncodeElf(e), e.SymbolsOff(), EncodeSymbols(e.symbols), 24 * k, 24);
    SymbolInside(EncodeElf(e), e.SymbolsOff() + 24 * k, e.symbols[k]);
  }

  lemma FileHeaderRead(e: ElfFile)
    requires Fits(e)
    ensures Elf.ReadHeaders(EncodeElf(e)) == Elf.Headers(e.HeadersOff(), e.SectionCount())
  {
    hide EncodeElf, EncodeSymbols, EncodeHeaders, AllHeaders, FileHeader, WordAt;
    Layout(e);
    FileHeaderFields(e);
    var file, piece := EncodeElf(e), FileHeader(e);
    assert file[0..0 + 64] == piece;
    WordInside(file, 0, piece, 40, 8);
    WordInside(file, 0, piece, 58, 2);
    WordInside(file, 0, piece, 60, 2);
    assert file[..4] == file[..64][..4];
  }

  lemma FileHeaderFields(e: ElfFile)
    requires Fits(e)
    ensures var r := FileHeader(e);
      && r[..4] == [0x7f, 0x45, 0x4c, 0x46]
      && WordAt(r, 40, 8) == e.HeadersOff() && WordAt(r, 58, 2) == 64 && WordAt(r, 60, 2) == e.SectionCount()
  {
    hide LeBytes, WordAt, Pow256;
    Pow256Words();
    var r, front, off := FileHeader(e), [0x7f, 0x45, 0x4c, 0x46] + e.ident + e.head, LeBytes(e.HeadersOff(), 8);
    var size, count, index := LeBytes(64, 2), LeBytes(e.SectionCount(), 2), LeBytes(e.nameIndex, 2);
    WordBehind(front, e.HeadersOff(), 8, e.middle + size + count + index);
    assert r == front + off + (e.middle + size + count + index);
    WordBehind(front + off + e.middle, 64, 2, count + index);
    assert r == front + off + e.middle + size + (count + index);
    WordBehind(front + off + e.middle + size, e.SectionCount(), 2, index);
    assert r == front + off + e.middle + size + count + index;
  }

  function HeadersOf(e: ElfFile): Elf.Headers {
    Elf.Headers(e.HeadersOff(), e.SectionCount())
  }

  lemma SectionRead(e: ElfFile, k: nat)
    requires Fits(e) && k < e.SectionCount()
    ensures Elf.Within(EncodeElf(e), HeadersOf(e))
    ensures var h := AllHeaders(e)[k];
      Elf.HeaderAt(EncodeElf(e), HeadersOf(e), k) == Elf.Section(h.kind, h.offset, h.size, h.link, h.entrySize)
  {
    hide EncodeElf, EncodeSymbols, EncodeHeaders, EncodeHeader, AllHeaders, FileHeader;
    Layout(e);
    HeaderPiece(AllHeaders(e), k);
    PartOfPiece(EncodeElf(e), e.HeadersOff(), EncodeHeaders(AllHeaders(e)), 64 * k, 64);
    HeaderInside(EncodeElf(e), e.HeadersOff() + 64 * k, AllHeaders(e)[k]);
  }

  lemma OthersAreNoTables(e: ElfFile, k: nat)
    requires WellFormed(e) && k < e.SectionCount()
    ensures var n := |e.before|;
      && AllHeaders(e)[n] == SymbolTableHeader(e) && AllHeaders(e)[n + 1] == StringTableHeader(e)
      && (k != n ==> AllHeaders(e)[k].kind != 2)
  {
    if k > |e.before| + 1 {
      assert AllHeaders(e)[k] == e.after[k - |e.before| - 2];
    }
  }

  /** The decoder scans the symbol table and nothing else. */
  lemma TableScanned(e: ElfFile, bias: u64, ip: u64)
    requires WellFormed(e)
    ensures Elf.Within(EncodeElf(e), HeadersOf(e))
    ensures e.StringsOff() + |e.strings| <= |EncodeElf(e)|
    ensures Elf.ScanSections(EncodeElf(e), HeadersOf(e), e.SectionCount(), bias, ip)
         == Elf.Scan(Elf.TableCandidates(EncodeElf(e), e.SymbolsOff(), |e.symbols|, |e.strings|, bias, ip),
                     e.StringsOff(), |e.strings|)
  {
    hide EncodeElf, EncodeSymbols, EncodeHeaders, AllHeaders, FileHeader, Elf.HeaderAt, Elf.TableCandidates,
      Elf.ScanSections;
    var file, h, n := EncodeElf(e), HeadersOf(e), |e.before|;
    Layout(e);
    SectionRead(e, n);
    SectionRead(e, n + 1);
    OthersAreNoTables(e, n);
    forall j | 0 <= j < h.count && j != n
      ensures !Elf.Scanned(file, h, j)
    {
      SectionRead(e, j);
      OthersAreNoTables(e, j);
    }
    WholeRecords(Elf.HeaderAt(file, h, n), |e.symbols|);
    Elf.OneTable(file, h, n, h.count, bias, ip);
  }

  lemma WholeRecords(s: Elf.Section, n: nat)
    requires s.size == 24 * n
    ensures Elf.RecordCount(s) == n
  {
  }

  // ---- The answer ----

  lemma SameSymbol(s: Symbol, stringsSize: nat, bias: u64, ip: u64)
    requires s.at == 0 || s.at < stringsSize
    ensures var r := Elf.Symbol(s.at, s.info % 16, s.shndx, s.value, s.size);
      && Elf.Start(bias, r) == StartOf(bias, s)
      && (Elf.Eligible(r, stringsSize) && Elf.Covers(bias, ip, r) <==> Around(bias, ip, s))
  {
  }

  /** The symbol chosen is the innermost function, and there is none exactly when no function is around the address. */
  lemma InnermostIsChosen(e: ElfFile, bias: u64, ip: u64, best: Elf.Best)
    requires WellFormed(e)
    requires e.SymbolsOff() + |e.symbols| * Elf.SYM_SIZE <= |EncodeElf(e)|
    requires Elf.Chosen(
      bias, Elf.TableCandidates(EncodeElf(e), e.SymbolsOff(), |e.symbols|, |e.strings|, bias, ip), best)
    ensures best.NoSymbol? ==> forall k :: !IsInnermost(e.symbols, bias, ip, k)
    ensures best.NoSymbol? ==> forall k | 0 <= k < |e.symbols| :: !Around(bias, ip, e.symbols[k])
    ensures best.Best? ==> exists k ::
      IsInnermost(e.symbols, bias, ip, k) && best.symbol.name == e.symbols[k].at
  {
    hide EncodeElf, Elf.TableCandidates, Elf.RecordAt, Elf.Eligible, Elf.Covers, Elf.Start, StartOf, Around;
    var file, off, n, size := EncodeElf(e), e.SymbolsOff(), |e.symbols|, |e.strings|;
    var candidates := Elf.TableCandidates(file, off, n, size, bias, ip);
    var at := Elf.CandidatesAreCovering(file, off, n, size, bias, ip);
    forall j | 0 <= j < n
      ensures Around(bias, ip, e.symbols[j]) <==> j in at
      ensures Elf.Start(bias, Elf.RecordAt(file, off, j)) == StartOf(bias, e.symbols[j])
      ensures Elf.RecordAt(file, off, j).name == e.symbols[j].at
    {
      SymbolRead(e, j);
      assert NameLies(e.strings, e.symbols[j]);
      SameSymbol(e.symbols[j], size, bias, ip);
    }
    if best.Best? {
      var c :| Elf.IsChoice(bias, candidates, c) && candidates[c] == best.symbol;
      var k := at[c];
      assert k in at;
      forall j | 0 <= j < n && Around(bias, ip, e.symbols[j])
        ensures var a, b := StartOf(bias, e.symbols[j]), StartOf(bias, e.symbols[k]); a < b || (a == b && j <= k)
      {
        var d :| 0 <= d < |at| && at[d] == j;
        assert Elf.Start(bias, candidates[d]) <= Elf.Start(bias, candidates[c]);
      }
      assert IsInnermost(e.symbols, bias, ip, k);
    } else {
      assert at == [];
    }
  }

  lemma OneInnermost(symbols: seq<Symbol>, bias: u64, ip: u64, j: int, k: int)
    requires IsInnermost(symbols, bias, ip, j) && IsInnermost(symbols, bias, ip, k)
    ensures j == k
  {
    hide StartOf, Around;
  }

  /** The name of a symbol is read off the string table. */
  lemma NameRead(e: ElfFile, s: Symbol)
    requires Fits(e) && NameLies(e.strings, s) && s.at != 0
    ensures e.StringsOff() + |e.strings| <= |EncodeElf(e)|
    ensures var file, off, end := EncodeElf(e), e.StringsOff() + s.at, e.StringsOff() + |e.strings|;
      Elf.NameLength(file, off, end) == |s.name| && file[off..off + |s.name|] == s.name
  {
    hide EncodeElf, EncodeSymbols, EncodeHeaders, AllHeaders, FileHeader, Elf.NameLength;
    Layout(e);
    NameThere(EncodeElf(e), e.StringsOff(), e.strings, s.at, s.name);
  }

  lemma NameThere(file: Bytes, off: nat, strings: Bytes, at: nat, name: CString)
    requires off + |strings| <= |file| && file[off..off + |strings|] == strings
    requires at < |strings| && name + [0] <= strings[at..]
    ensures off + at + |name| < off + |strings|
    ensures Elf.NameLength(file, off + at, off + |strings|) == |name| && file[off + at..off + at + |name|] == name
  {
    hide Elf.NameLength;
    NameInTable(strings, at, name);
    NameInPiece(file, off, strings, at, name);
    Elf.NameLengthUnique(file, off + at, off + |strings|, |name|);
  }

  lemma NameInTable(strings: Bytes, at: nat, name: CString)
    requires at < |strings| && name + [0] <= strings[at..]
    ensures at + |name| < |strings| && strings[at..at + |name|] == name && strings[at + |name|] == 0
  {
    var rest := strings[at..];
    assert rest[|name|] == (name + [0])[|name|] == 0;
    assert strings[at..at + |name|] == rest[..|name|] == (name + [0])[..|name|] == name;
  }

  lemma NameInPiece(file: Bytes, off: nat, strings: Bytes, at: nat, name: CString)
    requires off + |strings| <= |file| && file[off..off + |strings|] == strings
    requires at + |name| < |strings| && strings[at..at + |name|] == name && strings[at + |name|] == 0
    ensures file[off + at..off + at + |name|] == name && file[off + at + |name|] == 0
  {
    PartOfPiece(file, off, strings, at, |name|);
    assert file[off..off + |strings|][at + |name|] == file[off + at + |name|];
  }

  /** `bw_elf_sname` on a serialized file writes the name of the innermost function around the address, clipped to the
      buffer; it fails, and leaves the buffer alone, exactly when there is none or its name is empty. */
  method FunctionName(file: Bytes, bias: u64, ip: u64, out: array<byte>, ghost e: ElfFile) returns (ok: bool)
    requires WellFormed(e) && file == EncodeElf(e)
    modifies out
    ensures ok <==> out.Length > 0 && exists k :: IsInnermost(e.symbols, bias, ip, k) && e.symbols[k].name != []
    ensures forall k | IsInnermost(e.symbols, bias, ip, k) ::
      ok ==> Take(e.symbols[k].name, out.Length - 1) + [0] <= out[..]
    ensures !ok ==> out[..] == old(out[..])
    ensures (forall k :: !IsInnermost(e.symbols, bias, ip, k)) <==>
      forall k | 0 <= k < |e.symbols| :: !Around(bias, ip, e.symbols[k])
  {
    hide EncodeElf, Elf.ScanSections, Elf.TableCandidates, Elf.Chosen, Elf.ReadHeaders, IsInnermost, Around,
      Elf.NameLength, Elf.NameWritten, NameLies, Elf.Within;
    ghost var best;
    ok, best := Elf.SymbolName(file, bias, ip, out);
    FileHeaderRead(e);
    TableScanned(e, bias, ip);
    ghost var candidates := Elf.TableCandidates(file, e.SymbolsOff(), |e.symbols|, |e.strings|, bias, ip);
    if out.Length == 0 {
      best := ExistsBest(bias, candidates);
    }
    InnermostIsChosen(e, bias, ip, best);
    InnermostIsAround(e.symbols, bias, ip);
    if best.Best? {
      ghost var k :| IsInnermost(e.symbols, bias, ip, k) && best.symbol.name == e.symbols[k].at;
      forall j | IsInnermost(e.symbols, bias, ip, j)
        ensures j == k
      {
        OneInnermost(e.symbols, bias, ip, j, k);
      }
      if out.Length > 0 {
        WrittenIs(e, best, k, bias, ip, ok, out[..]);
      }
    } else if out.Length > 0 {
      NothingWritten(file, e.StringsOff(), |e.strings|, ok, out[..]);
    }
  }

  lemma InnermostIsAround(symbols: seq<Symbol>, bias: u64, ip: u64)
    ensures forall k | IsInnermost(symbols, bias, ip, k) :: 0 <= k < |symbols| && Around(bias, ip, symbols[k])
  {
    hide Around;
  }

  lemma {:induction false} ExistsBest(bias: u64, candidates: seq<Elf.Symbol>) returns (best: Elf.Best)
    ensures Elf.Chosen(bias, candidates, best)
    decreases |candidates|
  {
    hide Elf.Chosen, Elf.Start;
    if candidates == [] {
      best := Elf.NoSymbol;
      Elf.NothingChosen(bias);
    } else {
      var front, last := candidates[..|candidates| - 1], candidates[|candidates| - 1];
      best := ExistsBest(bias, front);
      Elf.ChooseNext(bias, front, best, last);
      assert front + [last] == candidates;
      best := if best.NoSymbol? || Elf.Start(bias, last) >= Elf.Start(bias, best.symbol) then Elf.Best(last) else best;
    }
  }

  lemma WrittenIs(e: ElfFile, best: Elf.Best, k: int, bias: u64, ip: u64, ok: bool, out: Bytes)
    requires WellFormed(e) && IsInnermost(e.symbols, bias, ip, k) && |out| > 0
    requires best.Best? && best.symbol.name == e.symbols[k].at
    requires e.StringsOff() + |e.strings| <= |EncodeElf(e)|
    requires Elf.NameWritten(EncodeElf(e), e.StringsOff(), |e.strings|, best, ok, out)
    ensures ok <==> e.symbols[k].name != []
    ensures ok ==> Take(e.symbols[k].name, |out| - 1) + [0] <= out
  {
    hide EncodeElf, Elf.NameLength, StartOf;
    assert NameLies(e.strings, e.symbols[k]);
    NameRead(e, e.symbols[k]);
  }

  lemma NothingWritten(file: Bytes, off: nat, size: nat, ok: bool, out: Bytes)
    requires off + size <= |file| && |out| > 0 && Elf.NameWritten(file, off, size, Elf.NoSymbol, ok, out)
    ensures !ok
  {
  }

  // ---- A file ----

  /** `foo` at 0x1129 and `main` behind it at 0x1139. */
  function FooAndMain(): ElfFile {
    var foo := Symbol([102, 111, 111], 1, 0x12, 0, 14, 0x1129, 0x10);
    var main := Symbol([109, 97, 105, 110], 5, 0x12, 0, 14, 0x1139, 0x30);
    ElfFile(seq(12, _ => 0), seq(24, _ => 0), seq(10, _ => 0), 0, [], [foo, main],
            [0, 102, 111, 111, 0, 109, 97, 105, 110, 0], [], [], [])
  }

  /** Mapped at 0x555555554000, address 0x55555555512d is in `foo`. */
  lemma InsideFoo()
    ensures WellFormed(FooAndMain())
    ensures IsInnermost(FooAndMain().symbols, 0x5555_5555_4000, 0x5555_5555_512d, 0)
  {
    var e := FooAndMain();
    assert e.strings[1..][..4] == [102, 111, 111] + [0];
    assert e.strings[5..] == [109, 97, 105, 110] + [0];
  }
}
