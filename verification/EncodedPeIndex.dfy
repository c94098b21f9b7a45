/** What the index answers for a module whose image was written by a linker: names of its functions and lines of its
    `.debug_line` section. */
module EncodedPeIndex {
  import opened Bytes
  import opened Wrappers
  import opened Forms
  import opened LineTables
  import opened Sorting
  import opened LineIndex
  import opened NamedRows
  import opened NamedSections
  import opened PeIndex
  import Pe = PeImages
  import opened EncodedPe

  // ---- The functions of an image ----

  datatype NamedSymbol = NamedSymbol(addr: u64, name: CString)

  function NamedAddr(s: NamedSymbol): int {
    s.addr
  }

  /** Defined in a section, of a function type, and with a name that does not start with a dot. */
  predicate IsFunction(p: Image, s: Symbol) {
    1 <= s.section <= |p.sections| && s.kind / 16 % 4 == 2 && s.name.text != [] && s.name.text[0] != 46
  }

  function AddressOf(p: Image, moduleBase: u64, s: Symbol): u64
    requires IsFunction(p, s)
  {
    (moduleBase + p.sections[s.section - 1].virtualAddress + s.value) % 0x1_0000_0000_0000_0000
  }

  /** The functions in the order of their symbols. */
  function Functions(p: Image, moduleBase: u64, ss: seq<Symbol>): seq<NamedSymbol>
    decreases |ss|
  {
    if ss == [] then [] else
    (if IsFunction(p, ss[0]) then [NamedSymbol(AddressOf(p, moduleBase, ss[0]), ss[0].name.text)] else [])
      + Functions(p, moduleBase, ss[1..])
  }

  /** What a pool with `used` bytes keeps of them: names are clipped to the room left, and functions are dropped once
      there is no room for a byte. */
  function Recorded(p: Image, moduleBase: u64, ss: seq<Symbol>, used: nat): seq<NamedSymbol>
    decreases |ss|
  {
    if ss == [] then []
    else if !IsFunction(p, ss[0]) then Recorded(p, moduleBase, ss[1..], used)
    else if used + 1 >= 262144 then [] else
    var name := ClippedName(ss[0].name.text, used);
    [NamedSymbol(AddressOf(p, moduleBase, ss[0]), name)] + Recorded(p, moduleBase, ss[1..], used + |name| + 1)
  }

  function ClippedName(text: CString, used: nat): CString
    requires used < 262144
  {
    Take(text, 262144 - used - 1)
  }

  function NameRoom(p: Image, ss: seq<Symbol>): nat
    decreases |ss|
  {
    if ss == [] then 0 else (if IsFunction(p, ss[0]) then |ss[0].name.text| + 1 else 0) + NameRoom(p, ss[1..])
  }

  /** With room for all names the functions are recorded whole. */
  lemma {:induction false} RecordedWhole(p: Image, moduleBase: u64, ss: seq<Symbol>, used: nat)
    requires used + NameRoom(p, ss) <= 262144
    ensures Recorded(p, moduleBase, ss, used) == Functions(p, moduleBase, ss)
    decreases |ss|
  {
    hide AddressOf;
    if ss != [] {
      if IsFunction(p, ss[0]) {
        RecordedWhole(p, moduleBase, ss[1..], used + |ss[0].name.text| + 1);
      } else {
        RecordedWhole(p, moduleBase, ss[1..], used);
      }
    }
  }

  // ---- The scan ----

  function NameSymbol(pool: Bytes, s: Pe.Symbol): NamedSymbol {
    NamedSymbol(s.addr, NameAt(pool, s.nameOff))
  }

  function NameSymbols(pool: Bytes, syms: seq<Pe.Symbol>): (r: seq<NamedSymbol>)
    ensures |r| == |syms| && forall k | 0 <= k < |r| :: r[k] == NameSymbol(pool, syms[k])
  {
    seq(|syms|, k requires 0 <= k < |syms| => NameSymbol(pool, syms[k]))
  }

  ghost predicate SymbolsStart(x: Pe.Symbols) {
    forall k | 0 <= k < |x.syms| :: StartsString(x.names, x.syms[k].nameOff)
  }

  lemma NameSymbolsGrow(pool: Bytes, more: Bytes, syms: seq<Pe.Symbol>)
    requires SymbolsStart(Pe.Symbols(syms, pool))
    ensures SymbolsStart(Pe.Symbols(syms, pool + more)) && NameSymbols(pool + more, syms) == NameSymbols(pool, syms)
  {
    hide StartsString, NameAt;
    forall k | 0 <= k < |syms|
      ensures StartsString(pool + more, syms[k].nameOff)
      ensures NameSymbol(pool + more, syms[k]) == NameSymbol(pool, syms[k])
    {
      NameStable(pool, more, syms[k].nameOff);
    }
  }

  lemma NameSymbolsAdd(pool: Bytes, syms: seq<Pe.Symbol>, s: Pe.Symbol)
    requires SymbolsStart(Pe.Symbols(syms, pool)) && StartsString(pool, s.nameOff)
    ensures SymbolsStart(Pe.Symbols(syms + [s], pool))
    ensures NameSymbols(pool, syms + [s]) == NameSymbols(pool, syms) + [NameSymbol(pool, s)]
  {
    hide StartsString, NameAt;
  }

  /** A name is added as far as there is room. */
  lemma NameAdded(names: Bytes, src: Bytes, text: CString)
    requires |names| <= 262144 && src != [] && Holds(src, text) && text != []
    ensures Pe.AddName(names, src)
         == if |names| + 1 >= 262144 then Pe.Named(names, -1)
            else Pe.Named(names + ClippedName(text, |names|) + [0], |names|)
  {
    hide StrLen;
    if |names| + 1 < 262144 {
      var name, clipped := ClippedName(text, |names|), Take(src, 262144 - |names| - 1);
      assert clipped[..|name|] == name;
      StrLenUnique(clipped, |name|);
    }
  }

  lemma NewName(names: Bytes, name: CString)
    ensures var pool := names + name + [0]; StartsString(pool, |names|) && NameAt(pool, |names|) == name
  {
    hide CStr, StrLen;
    var pool := names + name + [0];
    assert pool[|names|..] == name + [0] + [];
    CStrOfTerminated(name, []);
  }

  /** What the decoder makes of the record of a symbol. */
  lemma SymbolRead(p: Image, moduleBase: u64, i: nat, s: Symbol)
    requires WellFormed(p) && SymbolFits(p, s) && i < RecordCount(p.symbols)
    requires Lies(Encode(p), SymbolsOff(p) + 18 * i, EncodeSymbol(s))
    requires |Encode(p)| < U32 && Pe.Valid(Encode(p), HeadersOf(p)) && i < Pe.Records(Encode(p), HeadersOf(p))
    ensures Pe.Interpreted(Encode(p), HeadersOf(p), i) <==> IsFunction(p, s)
    ensures IsFunction(p, s) ==>
      && Pe.SymbolAddress(Encode(p), HeadersOf(p), moduleBase, i) == AddressOf(p, moduleBase, s)
      && var bytes := Pe.NameBytes(Encode(p), HeadersOf(p), i);
         bytes.Some? && bytes.value != [] && Holds(bytes.value, s.name.text)
  {
    hide Encode, RecordCount, AllData, EncodeOptional, EncodeSections, EncodeSymbols, WellFormed, SymbolFits, WordAt,
      EncodeSymbol, Pe.Records, Pe.Record, Pe.SectionNumber, Pe.NameBytes, Pe.Valid, Lies, SectionsOff, SymbolsOff,
      EncodeSectionName, EncodeSymbolName;
    FitsAux(p, s);
    RecordRead(p, i, s);
    NameBytesRead(p, i, s);
    SymbolFields(s);
    FirstByte(Pe.NameBytes(Encode(p), HeadersOf(p), i).value, s.name.text);
    if 1 <= s.section <= |p.sections| {
      SectionRead(p, s.section - 1);
    }
  }

  lemma FirstByte(bytes: Bytes, text: CString)
    requires bytes != [] && Holds(bytes, text)
    ensures bytes[0] == if text == [] then 0 else text[0]
    ensures text != [] ==> text[0] != 0
  {
    if text != [] {
      assert text[0] in text;
    }
  }

  predicate Ahead(p: Image, i: nat, rest: seq<Symbol>) {
    && i + RecordCount(rest) == RecordCount(p.symbols)
    && (forall k | 0 <= k < |rest| :: SymbolFits(p, rest[k]))
    && Lies(Encode(p), SymbolsOff(p) + 18 * i, EncodeSymbols(rest))
  }

  lemma ThreePieces(image: Bytes, at: nat, a: Bytes, b: Bytes, tail: Bytes)
    requires Lies(image, at, a + b + tail)
    ensures Lies(image, at, a) && Lies(image, at + |a| + |b|, tail)
  {
    hide Lies;
    assert a + b + tail == a + (b + tail);
    PartLies(image, at, a + b + tail, 0, a);
    PartLies(image, at, a + b + tail, |a| + |b|, tail);
  }

  lemma AheadStep(p: Image, i: nat, rest: seq<Symbol>)
    requires Ahead(p, i, rest) && rest != []
    ensures SymbolFits(p, rest[0]) && i + |rest[0].aux| < RecordCount(p.symbols)
    ensures Lies(Encode(p), SymbolsOff(p) + 18 * i, EncodeSymbol(rest[0]))
    ensures Ahead(p, i + |rest[0].aux| + 1, rest[1..])
  {
    hide Encode, EncodeSymbol, Lies, SymbolFits, SymbolsOff, Flatten;
    var s := rest[0];
    AuxLength(p, s);
    SymbolLength(s);
    ThreePieces(Encode(p), SymbolsOff(p) + 18 * i, EncodeSymbol(s), Flatten(s.aux), EncodeSymbols(rest[1..]));
  }

  lemma AuxLength(p: Image, s: Symbol)
    requires SymbolFits(p, s)
    ensures |Flatten(s.aux)| == 18 * |s.aux|
  {
    hide NameFits, Flatten;
    FlattenLength(s.aux);
  }

  /** What the scan does with the symbol at record `i`. */
  lemma ScanOne(p: Image, moduleBase: u64, i: nat, s: Symbol, x: Pe.Symbols)
    requires WellFormed(p) && SymbolFits(p, s) && i + |s.aux| < RecordCount(p.symbols)
    requires Lies(Encode(p), SymbolsOff(p) + 18 * i, EncodeSymbol(s))
    requires |Encode(p)| < U32 && Pe.Valid(Encode(p), HeadersOf(p))
    requires Pe.Records(Encode(p), HeadersOf(p)) == RecordCount(p.symbols)
    requires |x.names| <= 262144 && |x.syms| < 4096
    ensures var image, pe := Encode(p), HeadersOf(p);
      var r, others := Pe.Interpret(image, pe, moduleBase, Pe.Primaries(image, pe, i), x),
        Pe.Primaries(image, pe, i + |s.aux| + 1);
      if !IsFunction(p, s) then r == Pe.Interpret(image, pe, moduleBase, others, x)
      else if |x.names| + 1 >= 262144 then r == x
      else r == Pe.Interpret(image, pe, moduleBase, others, Extended(p, moduleBase, s, x))
  {
    hide WellFormed, Encode, HeadersOf, RecordCount, Pe.Valid, Pe.Records, Pe.Primaries, Pe.Interpreted,
      Pe.SymbolAddress, Pe.NameBytes, Pe.AddName, Pe.Auxiliaries, Pe.Record, Pe.SectionNumber, IsFunction, AddressOf,
      ClippedName, SymbolFits, Lies, Holds, SymbolsOff, EncodeSymbol;
    var image, pe := Encode(p), HeadersOf(p);
    RecordRead(p, i, s);
    Pe.PrimariesStep(image, pe, i);
    SymbolRead(p, moduleBase, i, s);
    if IsFunction(p, s) {
      IsNamed(p, s);
      NameAdded(x.names, Pe.NameBytes(image, pe, i).value, s.name.text);
    }
  }

  /** The tables with one more function. */
  function Extended(p: Image, moduleBase: u64, s: Symbol, x: Pe.Symbols): (y: Pe.Symbols)
    requires IsFunction(p, s) && |x.names| + 1 < 262144
    ensures |y.names| <= 262144
  {
    Pe.Symbols(x.syms + [Pe.Symbol(AddressOf(p, moduleBase, s), |x.names|)],
               x.names + ClippedName(s.name.text, |x.names|) + [0])
  }

  /** The tables `r` are `x` and the first of these functions, as many as the table has room for. */
  ghost predicate Grows(x: Pe.Symbols, r: Pe.Symbols, added: seq<NamedSymbol>) {
    |x.syms| <= 4096 && NameSymbols(r.names, r.syms) == NameSymbols(x.names, x.syms) + Take(added, 4096 - |x.syms|)
  }

  lemma GrowsByNothing(x: Pe.Symbols, added: seq<NamedSymbol>)
    requires |x.syms| <= 4096 && (added == [] || |x.syms| == 4096)
    ensures Grows(x, x, added)
  {
  }

  lemma GrowsByOne(p: Image, moduleBase: u64, s: Symbol, x: Pe.Symbols, r: Pe.Symbols, more: seq<NamedSymbol>)
    requires IsFunction(p, s) && |x.names| + 1 < 262144 && |x.syms| < 4096 && SymbolsStart(x)
    requires Grows(Extended(p, moduleBase, s, x), r, more)
    ensures Grows(x, r, [NamedSymbol(AddressOf(p, moduleBase, s), ClippedName(s.name.text, |x.names|))] + more)
  {
    hide NameSymbols, AddressOf, ClippedName, IsFunction, SymbolsStart;
    ExtendedNamed(p, moduleBase, s, x);
    TakeCons(NamedSymbol(AddressOf(p, moduleBase, s), ClippedName(s.name.text, |x.names|)), more, 4096 - |x.syms|,
             NameSymbols(x.names, x.syms));
  }

  lemma RecordedStep(p: Image, moduleBase: u64, ss: seq<Symbol>, used: nat)
    requires ss != []
    ensures var s, r := ss[0], Recorded(p, moduleBase, ss, used);
      if !IsFunction(p, s) then r == Recorded(p, moduleBase, ss[1..], used)
      else if used + 1 >= 262144 then r == []
      else var name := ClippedName(s.name.text, used);
        r == [NamedSymbol(AddressOf(p, moduleBase, s), name)] + Recorded(p, moduleBase, ss[1..], used + |name| + 1)
  {
    hide IsFunction, AddressOf, ClippedName;
  }

  /** From record `i` on, the scan adds the functions among the symbols that stand there, as far as there is room. */
  lemma {:induction false} ScanOf(p: Image, moduleBase: u64, i: nat, rest: seq<Symbol>, x: Pe.Symbols)
    requires WellFormed(p) && Ahead(p, i, rest)
    requires |Encode(p)| < U32 && Pe.Valid(Encode(p), HeadersOf(p))
    requires Pe.Records(Encode(p), HeadersOf(p)) == RecordCount(p.symbols)
    requires |x.names| <= 262144 && |x.syms| <= 4096 && SymbolsStart(x)
    ensures var image, pe := Encode(p), HeadersOf(p);
      Grows(x, Pe.Interpret(image, pe, moduleBase, Pe.Primaries(image, pe, i), x),
            Recorded(p, moduleBase, rest, |x.names|))
    decreases |rest|
  {
    hide WellFormed, Ahead, Encode, HeadersOf, RecordCount, Pe.Valid, Pe.Records, Pe.Primaries, Pe.Interpret, Recorded,
      SymbolsStart, IsFunction, AddressOf, ClippedName, SymbolFits, Lies, SymbolsOff, EncodeSymbol, Grows;
    var image, pe := Encode(p), HeadersOf(p);
    if rest == [] {
      NoneAhead(p, i);
      Pe.NoPrimaries(image, pe, i);
      NothingInterpreted(image, pe, moduleBase, [], x);
      NothingRecorded(p, moduleBase, |x.names|);
      GrowsByNothing(x, []);
    } else if |x.syms| == 4096 {
      NothingInterpreted(image, pe, moduleBase, Pe.Primaries(image, pe, i), x);
      GrowsByNothing(x, Recorded(p, moduleBase, rest, |x.names|));
    } else {
      var s := rest[0];
      var next := i + |s.aux| + 1;
      AheadStep(p, i, rest);
      ScanOne(p, moduleBase, i, s, x);
      RecordedStep(p, moduleBase, rest, |x.names|);
      if !IsFunction(p, s) {
        ScanOf(p, moduleBase, next, rest[1..], x);
      } else if |x.names| + 1 >= 262144 {
        GrowsByNothing(x, []);
      } else {
        var y := Extended(p, moduleBase, s, x);
        ExtendedNamed(p, moduleBase, s, x);
        ScanOf(p, moduleBase, next, rest[1..], y);
        GrowsByOne(p, moduleBase, s, x, Pe.Interpret(image, pe, moduleBase, Pe.Primaries(image, pe, next), y),
                   Recorded(p, moduleBase, rest[1..], |y.names|));
      }
    }
  }

  lemma NothingRecorded(p: Image, moduleBase: u64, used: nat)
    ensures Recorded(p, moduleBase, [], used) == []
  {
  }

  lemma NothingInterpreted(image: Pe.Image, pe: Pe.Pe, moduleBase: u64, ps: seq<nat>, x: Pe.Symbols)
    requires Pe.Valid(image, pe) && |x.names| <= 262144 && |x.syms| <= 4096
    requires forall k | 0 <= k < |ps| :: ps[k] < Pe.Records(image, pe)
    requires ps == [] || |x.syms| == 4096
    ensures Pe.Interpret(image, pe, moduleBase, ps, x) == x
  {
  }

  lemma IsNamed(p: Image, s: Symbol)
    requires IsFunction(p, s)
    ensures s.name.text != []
  {
  }

  lemma NoneAhead(p: Image, i: nat)
    requires Ahead(p, i, [])
    ensures i == RecordCount(p.symbols)
  {
    hide Encode, SymbolsOff, Lies;
  }

  lemma TakeCons<T>(x: T, s: seq<T>, n: nat, before: seq<T>)
    requires n > 0
    ensures before + Take([x] + s, n) == before + [x] + Take(s, n - 1)
  {
  }

  lemma ExtendedNamed(p: Image, moduleBase: u64, s: Symbol, x: Pe.Symbols)
    requires IsFunction(p, s) && |x.names| + 1 < 262144 && SymbolsStart(x)
    ensures var y, name := Extended(p, moduleBase, s, x), ClippedName(s.name.text, |x.names|);
      && SymbolsStart(y)
      && NameSymbols(y.names, y.syms)
      == NameSymbols(x.names, x.syms) + [NamedSymbol(AddressOf(p, moduleBase, s), name)]
  {
    hide SymbolsStart, StartsString, NameAt, NameSymbols, AddressOf, IsFunction, ClippedName;
    var name := ClippedName(s.name.text, |x.names|);
    var symbol, pool := Pe.Symbol(AddressOf(p, moduleBase, s), |x.names|), x.names + name + [0];
    assert pool == x.names + (name + [0]);
    NameSymbolsGrow(x.names, name + [0], x.syms);
    NewName(x.names, name);
    NameSymbolsAdd(pool, x.syms, symbol);
  }

  lemma ImageReadable(p: Image)
    requires WellFormed(p)
    ensures |Encode(p)| < U32 && Pe.ReadPe(Encode(p)) == Some(HeadersOf(p)) && Pe.Valid(Encode(p), HeadersOf(p))
    ensures Pe.Records(Encode(p), HeadersOf(p)) == RecordCount(p.symbols)
    ensures Ahead(p, 0, p.symbols)
  {
    hide Encode, Pe.ReadPe, RecordCount, Lies, SectionFits, SymbolFits, HeadersOf, DosHeader, FileHeader, StringTable,
      EncodeOptional, AllData, EncodeSections, EncodeSymbols;
    HeadersRead(p);
    RecordsInside(p);
    Layout(p);
  }

  /** The scan records the functions of the image, as far as there is room for them. */
  lemma FunctionsScanned(p: Image, moduleBase: u64)
    requires WellFormed(p)
    ensures |Encode(p)| < U32 && Pe.Valid(Encode(p), HeadersOf(p))
    ensures var x := Pe.ScanSymbols(Encode(p), HeadersOf(p), moduleBase);
      NameSymbols(x.names, x.syms) == Take(Recorded(p, moduleBase, p.symbols, 0), 4096)
  {
    hide WellFormed, Ahead, Encode, HeadersOf, RecordCount, Pe.Valid, Pe.Records, Pe.Primaries, Pe.Interpret, Recorded;
    ImageReadable(p);
    ScanOf(p, moduleBase, 0, p.symbols, Pe.NO_SYMBOLS);
  }

  // ---- The debug sections of an image ----

  /** `.debug_line`, `.debug_line_str` and `.debug_str` */
  const DEBUG_LINE: Bytes := [46, 100, 101, 98, 117, 103, 95, 108, 105, 110, 101]
  const DEBUG_LINE_STR: Bytes := [46, 100, 101, 98, 117, 103, 95, 108, 105, 110, 101, 95, 115, 116, 114]
  const DEBUG_STR: Bytes := [46, 100, 101, 98, 117, 103, 95, 115, 116, 114]

  /** The data of the last section with this name that has any; empty when there is none. */
  function DataOf(ss: seq<Section>, name: Bytes): Bytes
    decreases |ss|
  {
    if ss == [] then [] else
    var last := ss[|ss| - 1];
    if last.name.text == name && last.data != [] then last.data else DataOf(ss[..|ss| - 1], name)
  }

  function Power10(n: nat): (r: nat)
    ensures r > 0
  {
    if n == 0 then 1 else 10 * Power10(n - 1)
  }

  lemma {:induction false} DigitsShort(n: nat, k: nat)
    requires n < 10 * Power10(k)
    ensures |Digits(n)| <= k + 1
    decreases k
  {
    if k > 0 && n >= 10 {
      DigitsShort(n / 10, k - 1);
    }
  }

  lemma SevenDigits(n: nat)
    requires n < 1000_0000
    ensures |Digits(n)| <= 7
  {
    hide Digits;
    assert Power10(3) == 1000;
    assert Power10(6) == 1000 * Power10(3);
    DigitsShort(n, 6);
  }

  /** The digits are read as the number they stand for. */
  lemma {:induction false} DigitsRead(name: Bytes, d: nat, n: nat)
    requires |name| == 8 && d + |Digits(n)| <= 8 && name[d..d + |Digits(n)|] == Digits(n)
    ensures Decimal(name, d, 0) == Decimal(name, d + |Digits(n)|, n)
    decreases n
  {
    var here := name[d..d + |Digits(n)|];
    if n < 10 {
      assert name[d] == here[0];
    } else {
      var front, last := Digits(n / 10), d + |Digits(n)| - 1;
      assert name[d..last] == here[..|front|] == front;
      assert name[last] == here[|front|] == 48 + n % 10;
      DigitsRead(name, d, n / 10);
    }
  }

  lemma LongSectionName(text: CString, at: nat)
    requires at < 1000_0000
    ensures var raw := EncodeSectionName(Long(text, at)); |raw| == 8 && raw[0] == 47 && Decimal(raw, 1, 0) == at
  {
    hide Digits;
    SevenDigits(at);
    var raw := EncodeSectionName(Long(text, at));
    assert raw[1..1 + |Digits(at)|] == Digits(at);
    DigitsRead(raw, 1, at);
  }

  lemma ShortSectionName(text: CString)
    requires 0 < |text| <= 8
    ensures var raw := EncodeSectionName(Short(text)); |raw| == 8 && raw[0] == text[0] && CStr(raw) == text
  {
    hide StrLen;
    var raw := EncodeSectionName(Short(text));
    assert raw[..|text|] == text;
    StrLenUnique(raw, |text|);
  }

  lemma TextInTable(table: Bytes, text: CString, at: nat)
    requires at < |table| && text + [0] <= table[at..]
    ensures CStr(table[at..]) == text
  {
    hide CStr, StrLen;
    var rest := table[at..];
    assert rest == text + [0] + rest[|text| + 1..];
    CStrOfTerminated(text, rest[|text| + 1..]);
  }

  lemma TableTail(p: Image, at: nat)
    requires WellFormed(p) && at <= |StringTable(p)|
    ensures StringsOff(p) + at <= |Encode(p)| && Encode(p)[StringsOff(p) + at..] == StringTable(p)[at..]
  {
    hide WellFormed, Encode, StringTable, StringsOff, Lies;
    Layout(p);
    LiesMeans(Encode(p), StringsOff(p), StringTable(p));
    var image, off, table := Encode(p), StringsOff(p), StringTable(p);
    assert image[off..off + |table|] == table;
    assert image[off..off + |table|][at..] == image[off + at..];
  }

  /** The decoder's reading of a section name: long ones are clipped to its buffer. */
  lemma SectionNameRead(p: Image, k: nat)
    requires WellFormed(p) && k < |p.sections|
    requires |Encode(p)| < U32 && Pe.Valid(Encode(p), HeadersOf(p))
    ensures SectionName(Encode(p), HeadersOf(p), k) == Take(p.sections[k].name.text, 63)
  {
    hide WellFormed, Encode, StringTable, EncodeSectionName, HeadersOf, Pe.Valid, SectionName, CStr, RawName;
    SectionRead(p, k);
    RawNameRead(p, k);
    WellNamed(p, k);
    match p.sections[k].name
    case Short(text) => ShortNameRead(p, k, text);
    case Long(text, at) => LongNameRead(p, k, text, at);
  }

  /** The eight bytes in the header. */
  function RawName(image: Pe.Image, pe: Pe.Pe, k: nat): (raw: Bytes)
    requires Pe.Valid(image, pe) && k < pe.sections
    ensures |raw| == 8
  {
    image[SectionOff(image, pe, k)..SectionOff(image, pe, k) + 8]
  }

  lemma RawNameRead(p: Image, k: nat)
    requires WellFormed(p) && k < |p.sections|
    requires |Encode(p)| < U32 && Pe.Valid(Encode(p), HeadersOf(p))
    ensures RawName(Encode(p), HeadersOf(p), k) == EncodeSectionName(p.sections[k].name)
  {
    hide WellFormed, Encode, SectionsOff, EncodeSectionName, Pe.Valid, RecordCount, SymbolsOff, Lies;
    SectionRead(p, k);
  }

  lemma ShortNameRead(p: Image, k: nat, text: CString)
    requires |Encode(p)| < U32 && Pe.Valid(Encode(p), HeadersOf(p)) && k < |p.sections|
    requires 0 < |text| <= 8 && text[0] != 47
    requires RawName(Encode(p), HeadersOf(p), k) == EncodeSectionName(Short(text))
    ensures SectionName(Encode(p), HeadersOf(p), k) == Take(text, 63)
  {
    hide Encode, EncodeSectionName, Pe.Valid, Pe.StringTable, CStr, Decimal, SectionsOff, SymbolsOff, RecordCount;
    ShortSectionName(text);
  }

  lemma LongNameRead(p: Image, k: nat, text: CString, at: nat)
    requires WellFormed(p) && k < |p.sections| && p.symbols != [] && at < 1000_0000
    requires |Encode(p)| < U32 && Pe.Valid(Encode(p), HeadersOf(p))
    requires NameFits(StringTable(p), Long(text, at))
    requires RawName(Encode(p), HeadersOf(p), k) == EncodeSectionName(Long(text, at))
    ensures SectionName(Encode(p), HeadersOf(p), k) == Take(text, 63)
  {
    hide WellFormed, Encode, StringTable, RecordCount, EncodeSectionName, Pe.Valid, Pe.StringTable, SymbolsOff, CStr,
      Decimal;
    TableRead(p);
    LongSectionName(text, at);
    TextInTable(StringTable(p), text, at);
    TableTail(p, at);
  }

  lemma WellNamed(p: Image, k: nat)
    requires WellFormed(p) && k < |p.sections|
    ensures var name := p.sections[k].name;
      && NameFits(StringTable(p), name)
      && (name.Short? ==> name.text[0] != 47)
      && (name.Long? ==> name.at < 1000_0000 && p.symbols != [])
  {
    hide NameFits, StringTable, EncodeOptional, SymbolFits;
    assert SectionFits(p, p.sections[k]);
    hide SectionFits;
    if p.sections[k].name.Short? {
      NotEmpty(StringTable(p), p.sections[k].name);
    }
  }

  lemma NotEmpty(table: Bytes, name: Name)
    requires NameFits(table, name) && name.Short?
    ensures name.text != []
  {
  }

  lemma SectionDataRead(p: Image, k: nat)
    requires WellFormed(p) && k < |p.sections|
    requires |Encode(p)| < U32 && Pe.Valid(Encode(p), HeadersOf(p))
    ensures SectionData(Encode(p), HeadersOf(p), k) == NonEmpty(p.sections[k].data)
  {
    hide WellFormed, Encode, SectionsOff, SymbolsOff, WordAt, RecordCount, EncodeSectionName, Pe.Valid, DataAt,
      EncodedPe.DataOff;
    SectionRead(p, k);
  }

  lemma DebugNames()
    ensures DOT_DEBUG + UNDERSCORE_LINE == DEBUG_LINE
    ensures DOT_DEBUG + UNDERSCORE_LINE + UNDERSCORE_STR == DEBUG_LINE_STR
    ensures DOT_DEBUG + UNDERSCORE_STR == DEBUG_STR
    ensures |DEBUG_LINE| < 63 && |DEBUG_LINE_STR| < 63 && |DEBUG_STR| < 63
  {
  }

  lemma ClippedIs(text: Bytes, name: Bytes)
    requires |name| < 63
    ensures Take(text, 63) == name <==> text == name
  {
  }

  /** The sections the decoder finds among the first `n` are the last ones of their names with data. */
  lemma {:induction false} DebugFound(p: Image, n: nat)
    requires WellFormed(p) && n <= |p.sections|
    requires |Encode(p)| < U32 && Pe.Valid(Encode(p), HeadersOf(p))
    ensures var ss := p.sections[..n];
      FindDebug(Encode(p), HeadersOf(p), n)
      == Debug(NonEmpty(DataOf(ss, DEBUG_LINE)), Sections(DataOf(ss, DEBUG_LINE_STR), DataOf(ss, DEBUG_STR)))
    decreases n
  {
    hide WellFormed, Encode, Pe.Valid, SectionName, SectionData;
    if n > 0 {
      DebugFound(p, n - 1);
      SectionNameRead(p, n - 1);
      SectionDataRead(p, n - 1);
      var text := p.sections[n - 1].name.text;
      DebugNames();
      DebugNamesDiffer();
      ClippedIs(text, DEBUG_LINE);
      ClippedIs(text, DEBUG_LINE_STR);
      ClippedIs(text, DEBUG_STR);
      assert p.sections[..n][..n - 1] == p.sections[..n - 1];
    }
  }
}
