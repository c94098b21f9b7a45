/** Choosing a function symbol for an address in an ELF file (`bw_elf_sname`, 64-bit layout). */
module ElfSymbols {
  import opened Bytes

  const EHDR_SIZE := 64
  const SHDR_SIZE := 64
  const SYM_SIZE := 24
  const SHT_SYMTAB := 2
  const STT_FUNC := 2
  const SHN_UNDEF := 0

  // ---- The file ----

  datatype Section = Section(kind: nat, offset: nat, size: nat, link: nat, entrySize: nat)

  function SectionAt(file: Bytes, off: nat): Section
    requires off + SHDR_SIZE <= |file|
  {
    Section(WordAt(file, off + 4, 4), WordAt(file, off + 24, 8), WordAt(file, off + 32, 8), WordAt(file, off + 40, 4),
            WordAt(file, off + 56, 8))
  }

  datatype Symbol = Symbol(name: nat, kind: nat, shndx: nat, value: u64, size: u64)

  function SymbolAt(file: Bytes, off: nat): Symbol
    requires off + SYM_SIZE <= |file|
  {
    Pow256Words();
    Symbol(WordAt(file, off, 4), file[off + 4] % 16, WordAt(file, off + 6, 2), WordAt(file, off + 8, 8),
           WordAt(file, off + 16, 8))
  }

  /** Where the section headers are; `None` when the file is not one the decoder goes on with. */
  datatype Headers = NoHeaders | Headers(off: nat, count: nat)

  predicate Within(file: Bytes, h: Headers) {
    h.Headers? && h.off + h.count * SHDR_SIZE <= |file|
  }

  function HeaderAt(file: Bytes, h: Headers, i: nat): Section
    requires Within(file, h) && i < h.count
  {
    SectionAt(file, h.off + i * SHDR_SIZE)
  }

  /** Number of whole records in a symbol table. */
  function RecordCount(s: Section): (n: nat)
    ensures n * SYM_SIZE <= s.size
  {
    s.size / SYM_SIZE
  }

  function ReadHeaders(file: Bytes): (h: Headers)
    ensures h.Headers? ==> Within(file, h)
  {
    if |file| < EHDR_SIZE || file[..4] != [0x7f, 0x45, 0x4c, 0x46] then NoHeaders else
    var off, entry, count := WordAt(file, 40, 8), WordAt(file, 58, 2), WordAt(file, 60, 2);
    if entry != SHDR_SIZE || off == 0 then NoHeaders
    else if off > |file| || count * SHDR_SIZE > |file| - off then NoHeaders
    else Headers(off, count)
  }

  predicate Inside(file: Bytes, s: Section) {
    s.offset <= |file| && s.size <= |file| - s.offset
  }

  // ---- Eligible symbols ----

  predicate Eligible(s: Symbol, stringsSize: nat) {
    s.kind == STT_FUNC && s.shndx != SHN_UNDEF && s.size != 0 && s.name != 0 && s.name < stringsSize
  }

  function Start(bias: u64, s: Symbol): u64 {
    Wrap(bias + s.value)
  }

  /** The address lies in the symbol's range, as the decoder tests it on 64-bit words. */
  predicate Covers(bias: u64, ip: u64, s: Symbol) {
    Start(bias, s) <= ip < Wrap(Start(bias, s) + s.size)
  }

  /** When no address overflows this is plain interval membership. */
  lemma CoversIsInterval(bias: u64, ip: u64, s: Symbol)
    requires bias + s.value + s.size < U64
    ensures Covers(bias, ip, s) <==> bias + s.value <= ip < bias + s.value + s.size
    ensures Start(bias, s) == bias + s.value
  {
  }

  // ---- Candidates, in scan order ----

  function TableCandidates(file: Bytes, off: nat, n: nat, stringsSize: nat, bias: u64, ip: u64): seq<Symbol>
    requires off + n * SYM_SIZE <= |file|
    decreases n
  {
    if n == 0 then [] else
    var before := TableCandidates(file, off, n - 1, stringsSize, bias, ip);
    var s := SymbolAt(file, off + (n - 1) * SYM_SIZE);
    if Eligible(s, stringsSize) && Covers(bias, ip, s) then before + [s] else before
  }

  /** A section the decoder scans: a symbol table with a string table, both inside the file. */
  predicate Scanned(file: Bytes, h: Headers, i: nat)
    requires Within(file, h) && i < h.count
  {
    var s := HeaderAt(file, h, i);
    && s.kind == SHT_SYMTAB && s.entrySize == SYM_SIZE && s.link < h.count
    && Inside(file, s) && Inside(file, HeaderAt(file, h, s.link))
  }

  /** State of the scan: the candidates so far and the string table of the last section scanned. */
  datatype Scan = Scan(candidates: seq<Symbol>, stringsOff: nat, stringsSize: nat)

  function ScanSections(file: Bytes, h: Headers, n: nat, bias: u64, ip: u64): (r: Scan)
    requires Within(file, h) && n <= h.count
    ensures r.stringsOff + r.stringsSize <= |file|
    decreases n
  {
    if n == 0 then Scan([], 0, 0) else
    var before := ScanSections(file, h, n - 1, bias, ip);
    if !Scanned(file, h, n - 1) then before else
    var s := HeaderAt(file, h, n - 1);
    var strings := HeaderAt(file, h, s.link);
    Scan(before.candidates + TableCandidates(file, s.offset, RecordCount(s), strings.size, bias, ip),
         strings.offset, strings.size)
  }

  // ---- The choice ----

  /** Position `k` holds the last of the candidates with the greatest start. */
  ghost predicate IsChoice(bias: u64, candidates: seq<Symbol>, k: int) {
    && 0 <= k < |candidates|
    && (forall j | 0 <= j < |candidates| :: Start(bias, candidates[j]) <= Start(bias, candidates[k]))
    && (forall j | k < j < |candidates| :: Start(bias, candidates[j]) < Start(bias, candidates[k]))
  }

  datatype Best = NoSymbol | Best(symbol: Symbol)

  /** `best` is the right choice among the candidates seen so far, and absent iff there are none. */
  ghost predicate Chosen(bias: u64, candidates: seq<Symbol>, best: Best) {
    match best
    case NoSymbol => candidates == []
    case Best(s) => exists k :: IsChoice(bias, candidates, k) && candidates[k] == s
  }

  lemma ChoiceUnique(bias: u64, candidates: seq<Symbol>, a: Best, b: Best)
    requires Chosen(bias, candidates, a) && Chosen(bias, candidates, b)
    ensures a == b
  {
    hide Start;
    if candidates != [] {
      var j :| IsChoice(bias, candidates, j) && candidates[j] == a.symbol;
      var k :| IsChoice(bias, candidates, k) && candidates[k] == b.symbol;
      assert Start(bias, candidates[j]) == Start(bias, candidates[k]);
    }
  }

  lemma ChooseNext(bias: u64, candidates: seq<Symbol>, best: Best, s: Symbol)
    requires Chosen(bias, candidates, best)
    ensures Chosen(bias, candidates + [s],
                   if best.NoSymbol? || Start(bias, s) >= Start(bias, best.symbol) then Best(s) else best)
  {
    hide Start;
    var all := candidates + [s];
    if best.NoSymbol? || Start(bias, s) >= Start(bias, best.symbol) {
      assert IsChoice(bias, all, |candidates|);
    } else {
      var k :| IsChoice(bias, candidates, k) && candidates[k] == best.symbol;
      assert IsChoice(bias, all, k);
    }
  }

  lemma NothingChosen(bias: u64)
    ensures Chosen(bias, [], NoSymbol)
  {
  }

  /** One symbol table. */
  method ScanTable(file: Bytes, off: nat, nsym: nat, stringsSize: nat, bias: u64, ip: u64, best: Best,
                   ghost before: seq<Symbol>)
    returns (best': Best)
    requires off + nsym * SYM_SIZE <= |file|
    requires Chosen(bias, before, best)
    ensures Chosen(bias, before + TableCandidates(file, off, nsym, stringsSize, bias, ip), best')
  {
    hide Chosen, SymbolAt, Start, Covers;
    best' := best;
    var s := 0;
    assert before + [] == before;
    while s < nsym
      invariant s <= nsym
      invariant Chosen(bias, before + TableCandidates(file, off, s, stringsSize, bias, ip), best')
    {
      var sym := SymbolAt(file, off + s * SYM_SIZE);
      if Eligible(sym, stringsSize) && Covers(bias, ip, sym) {
        ghost var seen := TableCandidates(file, off, s, stringsSize, bias, ip);
        ChooseNext(bias, before + seen, best', sym);
        assert before + seen + [sym] == before + (seen + [sym]);
        if best'.NoSymbol? || Start(bias, sym) >= Start(bias, best'.symbol) {
          best' := Best(sym);
        }
      }
      s := s + 1;
    }
  }

  /** Length of the name at `off`, up to a NUL or the end of the string table. */
  function NameLength(file: Bytes, off: nat, end: nat): (n: nat)
    requires off <= end <= |file|
    ensures off + n <= end && 0 !in file[off..off + n] && (off + n < end ==> file[off + n] == 0)
  {
    StrLenInside(file, off, end);
    StrLen(file[off..end])
  }

  lemma StrLenInside(file: Bytes, off: nat, end: nat)
    requires off <= end <= |file|
    ensures var n := StrLen(file[off..end]); off + n <= end && file[off..end][..n] == file[off..off + n]
  {
  }

  /** The scan over the section headers: the best of all candidates, and the last string table scanned. */
  method ChooseSymbol(file: Bytes, h: Headers, bias: u64, ip: u64)
    returns (best: Best, stringsOff: nat, stringsSize: nat)
    requires Within(file, h)
    ensures var scan := ScanSections(file, h, h.count, bias, ip);
      Chosen(bias, scan.candidates, best) && stringsOff == scan.stringsOff && stringsSize == scan.stringsSize
  {
    hide Chosen, HeaderAt, TableCandidates;
    best, stringsOff, stringsSize := NoSymbol, 0, 0;
    ghost var candidates: seq<Symbol> := [];
    var i := 0;
    NothingChosen(bias);
    while i < h.count
      invariant i <= h.count
      invariant ScanSections(file, h, i, bias, ip) == Scan(candidates, stringsOff, stringsSize)
      invariant Chosen(bias, candidates, best)
    {
      if Scanned(file, h, i) {
        var s := HeaderAt(file, h, i);
        var strings := HeaderAt(file, h, s.link);
        stringsOff, stringsSize := strings.offset, strings.size;
        best := ScanTable(file, s.offset, RecordCount(s), stringsSize, bias, ip, best, candidates);
        candidates := candidates + TableCandidates(file, s.offset, RecordCount(s), stringsSize, bias, ip);
      }
      i := i + 1;
    }
  }

  /** The name of the chosen symbol, from the last string table scanned. */
  ghost predicate NameWritten(file: Bytes, stringsOff: nat, stringsSize: nat, best: Best, ok: bool, out: Bytes)
    requires stringsOff + stringsSize <= |file| && |out| > 0
  {
    if best.NoSymbol? || best.symbol.name >= stringsSize then !ok else
    var off := stringsOff + best.symbol.name;
    var n := NameLength(file, off, stringsOff + stringsSize);
    (ok <==> n > 0) && (ok ==> Take(file[off..off + n], |out| - 1) + [0] <= out)
  }

  method MeasureName(file: Bytes, off: nat, end: nat) returns (len: nat)
    requires off <= end <= |file|
    ensures len == NameLength(file, off, end)
  {
    hide NameLength;
    len := 0;
    while len < end - off && file[off + len] != 0
      invariant off + len <= end
      invariant 0 !in file[off..off + len]
    {
      assert file[off..off + len + 1] == file[off..off + len] + [file[off + len]];
      len := len + 1;
    }
    NameLengthUnique(file, off, end, len);
  }

  method CopyName(file: Bytes, off: nat, end: nat, out: array<byte>) returns (ok: bool)
    requires off <= end <= |file| && out.Length > 0
    modifies out
    ensures var n := NameLength(file, off, end);
      && (ok <==> n > 0)
      && (ok ==> Take(file[off..off + n], out.Length - 1) + [0] <= out[..])
    ensures !ok ==> out[..] == old(out[..])
  {
    hide StrLen;
    var len := MeasureName(file, off, end);
    if len == 0 {
      return false;
    }
    ghost var name := Take(file[off..off + len], out.Length - 1);
    if len >= out.Length {
      len := out.Length - 1;
    }
    forall k | 0 <= k < len {
      out[k] := file[off + k];
    }
    out[len] := 0;
    assert out[..len] == name;
    assert out[..len + 1] == name + [0];
    return true;
  }

  method WriteName(file: Bytes, stringsOff: nat, stringsSize: nat, best: Best, out: array<byte>) returns (ok: bool)
    requires stringsOff + stringsSize <= |file| && out.Length > 0
    modifies out
    ensures NameWritten(file, stringsOff, stringsSize, best, ok, out[..])
    ensures !ok ==> out[..] == old(out[..])
  {
    hide NameLength;
    ok := false;
    if best.Best? && best.symbol.name < stringsSize {
      ok := CopyName(file, stringsOff + best.symbol.name, stringsOff + stringsSize, out);
    }
  }

  /** `bw_elf_sname` on the bytes of the file. Among the eligible symbols covering the address, in scan order
      over all symbol tables, the last one with the greatest start gives the name, clipped to the buffer;
      nothing is found when there is none, or when its name is empty. */
  method SymbolName(file: Bytes, bias: u64, ip: u64, out: array<byte>) returns (ok: bool, ghost best: Best)
    modifies out
    ensures out.Length == 0 ==> !ok
    ensures out.Length > 0 ==>
      match ReadHeaders(file)
      case NoHeaders => !ok
      case Headers(_, count) =>
        var scan := ScanSections(file, ReadHeaders(file), count, bias, ip);
        && Chosen(bias, scan.candidates, best)
        && NameWritten(file, scan.stringsOff, scan.stringsSize, best, ok, out[..])
    ensures !ok ==> out[..] == old(out[..])
  {
    hide Chosen, ScanSections, ReadHeaders, NameWritten;
    best, ok := NoSymbol, false;
    if out.Length == 0 {
      return;
    }
    var h := ReadHeaders(file);
    if h.NoHeaders? {
      return;
    }
    var found, stringsOff, stringsSize := ChooseSymbol(file, h, bias, ip);
    best := found;
    ok := WriteName(file, stringsOff, stringsSize, found, out);
  }

  lemma NameLengthUnique(file: Bytes, off: nat, end: nat, n: nat)
    requires off <= end <= |file| && off + n <= end
    requires 0 !in file[off..off + n] && (off + n < end ==> file[off + n] == 0)
    ensures NameLength(file, off, end) == n
  {
    hide StrLen;
    assert file[off..end][..n] == file[off..off + n];
    StrLenUnique(file[off..end], n);
  }

  /** When section `i` is the only one scanned, the candidates and the string table are its own. */
  lemma {:induction false} OneTable(file: Bytes, h: Headers, i: nat, n: nat, bias: u64, ip: u64)
    requires Within(file, h) && i < n <= h.count
    requires Scanned(file, h, i) && forall j | 0 <= j < n && j != i :: !Scanned(file, h, j)
    ensures var s := HeaderAt(file, h, i);
      var strings := HeaderAt(file, h, s.link);
      ScanSections(file, h, n, bias, ip)
        == Scan(TableCandidates(file, s.offset, RecordCount(s), strings.size, bias, ip),
                strings.offset, strings.size)
    decreases n
  {
    hide TableCandidates, HeaderAt;
    if n - 1 > i {
      OneTable(file, h, i, n - 1, bias, ip);
    } else {
      NoTable(file, h, i, bias, ip);
    }
  }

  lemma {:induction false} NoTable(file: Bytes, h: Headers, n: nat, bias: u64, ip: u64)
    requires Within(file, h) && n <= h.count
    requires forall j | 0 <= j < n :: !Scanned(file, h, j)
    ensures ScanSections(file, h, n, bias, ip) == Scan([], 0, 0)
    decreases n
  {
    hide TableCandidates, HeaderAt, Scanned;
    if n > 0 {
      NoTable(file, h, n - 1, bias, ip);
    }
  }

  // ---- What is chosen ----

  function RecordAt(file: Bytes, off: nat, k: nat): Symbol
    requires off + (k + 1) * SYM_SIZE <= |file|
  {
    SymbolAt(file, off + k * SYM_SIZE)
  }

  /** The candidates of a table are, in order, its eligible records that cover the address. */
  lemma {:induction false} CandidatesAreCovering(file: Bytes, off: nat, n: nat, stringsSize: nat, bias: u64, ip: u64)
    returns (at: seq<nat>)
    requires off + n * SYM_SIZE <= |file|
    ensures var candidates := TableCandidates(file, off, n, stringsSize, bias, ip);
      && |at| == |candidates|
      && (forall k | 0 <= k < |at| :: at[k] < n && candidates[k] == RecordAt(file, off, at[k]))
      && (forall j, k | 0 <= j < k < |at| :: at[j] < at[k])
      && (forall j | 0 <= j < n :: j in at <==>
            Eligible(RecordAt(file, off, j), stringsSize) && Covers(bias, ip, RecordAt(file, off, j)))
    decreases n
  {
    hide SymbolAt, Covers, Eligible;
    if n == 0 {
      at := [];
    } else {
      at := CandidatesAreCovering(file, off, n - 1, stringsSize, bias, ip);
      var last := RecordAt(file, off, n - 1);
      if Eligible(last, stringsSize) && Covers(bias, ip, last) {
        at := at + [n - 1];
      }
    }
  }

  /** No end of an eligible symbol of the table overflows. */
  predicate NoOverflow(file: Bytes, off: nat, n: nat, stringsSize: nat, bias: u64)
    requires off + n * SYM_SIZE <= |file|
  {
    forall k | 0 <= k < n && Eligible(RecordAt(file, off, k), stringsSize) ::
      bias + RecordAt(file, off, k).value + RecordAt(file, off, k).size < U64
  }

  /** Record `k` is an eligible symbol whose interval contains the address. */
  predicate Contains(file: Bytes, off: nat, k: nat, stringsSize: nat, bias: u64, ip: u64)
    requires off + (k + 1) * SYM_SIZE <= |file|
  {
    var s := RecordAt(file, off, k);
    Eligible(s, stringsSize) && bias + s.value <= ip < bias + s.value + s.size
  }

  /** Record `k` contains the address, and of the records that do none starts later, nor at the same address and
      further down the table. */
  ghost predicate Innermost(file: Bytes, off: nat, n: nat, k: nat, stringsSize: nat, bias: u64, ip: u64)
    requires off + n * SYM_SIZE <= |file| && k < n
  {
    && Contains(file, off, k, stringsSize, bias, ip)
    && forall j | 0 <= j < n && Contains(file, off, j, stringsSize, bias, ip) ::
         var a, b := RecordAt(file, off, j).value, RecordAt(file, off, k).value; a < b || (a == b && j <= k)
  }

  /** With one symbol table whose eligible symbols do not overflow: nothing is found exactly when no eligible record
      contains the address, and else the record that starts last, the last one of those, is chosen. */
  lemma SymbolForAddress(file: Bytes, h: Headers, i: nat, bias: u64, ip: u64, best: Best)
    requires Within(file, h) && i < h.count
    requires Scanned(file, h, i) && forall j | 0 <= j < h.count && j != i :: !Scanned(file, h, j)
    requires var s := HeaderAt(file, h, i);
      NoOverflow(file, s.offset, RecordCount(s), HeaderAt(file, h, s.link).size, bias)
    requires Chosen(bias, ScanSections(file, h, h.count, bias, ip).candidates, best)
    ensures var s := HeaderAt(file, h, i);
      var off, n := s.offset, RecordCount(s);
      var stringsSize := HeaderAt(file, h, s.link).size;
      && (best.NoSymbol? <==> forall k | 0 <= k < n :: !Contains(file, off, k, stringsSize, bias, ip))
      && (best.Best? ==> exists k | 0 <= k < n ::
            best.symbol == RecordAt(file, off, k) && Innermost(file, off, n, k, stringsSize, bias, ip))
  {
    hide ScanSections, HeaderAt;
    var s := HeaderAt(file, h, i);
    var strings := HeaderAt(file, h, s.link);
    OneTable(file, h, i, h.count, bias, ip);
    InnermostChosen(file, s.offset, RecordCount(s), strings.size, bias, ip, best);
  }

  lemma InnermostChosen(file: Bytes, off: nat, n: nat, stringsSize: nat, bias: u64, ip: u64, best: Best)
    requires off + n * SYM_SIZE <= |file| && NoOverflow(file, off, n, stringsSize, bias)
    requires Chosen(bias, TableCandidates(file, off, n, stringsSize, bias, ip), best)
    ensures best.NoSymbol? <==> forall k | 0 <= k < n :: !Contains(file, off, k, stringsSize, bias, ip)
    ensures best.Best? ==> exists k | 0 <= k < n ::
      best.symbol == RecordAt(file, off, k) && Innermost(file, off, n, k, stringsSize, bias, ip)
  {
    hide TableCandidates, RecordAt, Eligible, Covers, Start;
    var candidates := TableCandidates(file, off, n, stringsSize, bias, ip);
    var at := CandidatesAreCovering(file, off, n, stringsSize, bias, ip);
    forall j | 0 <= j < n
      ensures Contains(file, off, j, stringsSize, bias, ip) <==> j in at
      ensures j in at ==> Start(bias, RecordAt(file, off, j)) == bias + RecordAt(file, off, j).value
    {
      if Eligible(RecordAt(file, off, j), stringsSize) {
        CoversIsInterval(bias, ip, RecordAt(file, off, j));
      }
    }
    if best.NoSymbol? {
      assert at == [];
    } else {
      var c :| IsChoice(bias, candidates, c) && candidates[c] == best.symbol;
      var k := at[c];
      assert k in at;
      forall j | 0 <= j < n && Contains(file, off, j, stringsSize, bias, ip)
        ensures var a, b := RecordAt(file, off, j).value, RecordAt(file, off, k).value; a < b || (a == b && j <= k)
      {
        var d :| 0 <= d < |at| && at[d] == j;
        assert Start(bias, candidates[d]) <= Start(bias, candidates[c]);
      }
      assert Innermost(file, off, n, k, stringsSize, bias, ip);
    }
  }
}
