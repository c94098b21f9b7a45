/** PE images as linkers write them, and their headers, sections and symbol records read back. */
module EncodedPe {
  import opened Bytes
  import opened Wrappers
  import Pe = PeImages

  // ---- Abstract images ----

  /** A name of at most eight bytes in a record, or one in the string table at an offset. */
  datatype Name = Short(text: CString) | Long(text: CString, at: nat)

  /** A symbol and its auxiliary records. */
  datatype Symbol = Symbol(name: Name, value: u32, section: int, kind: u16, storage: byte, aux: seq<Bytes>)

  datatype Section = Section(name: Name, virtualSize: u32, virtualAddress: u32, data: Bytes, rest: Bytes)

  /** The optional header of a 64-bit or a 32-bit image, or one too short to hold an image base. What the decoder does
      not read is arbitrary. */
  datatype Optional =
    | Pe64(mid: Bytes, base64: u64, more: Bytes)
    | Pe32(mid: Bytes, base32: u32, more: Bytes)
    | Bare(header: Bytes)
  {
    predicate Valid() {
      match this
      case Pe64(mid, _, _) => |mid| == 22
      case Pe32(mid, _, _) => |mid| == 26
      case Bare(header) => |header| < 28
    }

    function Base(): u64 {
      match this
      case Pe64(_, base, _) => base
      case Pe32(_, base, _) => base
      case Bare(_) => 0
    }
  }

  /** `strings` is the content of the string table behind its size word; offsets into it count that word. */
  datatype Image = Image(dosRest: Bytes, stub: Bytes, machine: u16, time: u32, flags: u16, optional: Optional,
                         sections: seq<Section>, symbols: seq<Symbol>, strings: Bytes)

  // ---- Serialization ----

  function Zeros(n: nat): (s: Bytes)
    ensures |s| == n && forall k | 0 <= k < n :: s[k] == 0
  {
    seq(n, _ => 0)
  }

  function Digits(n: nat): (s: Bytes)
    ensures s != []
    decreases n
  {
    if n < 10 then [48 + n] else Digits(n / 10) + [48 + n % 10]
  }

  /** The eight bytes of a section name. A long one is a slash and the decimal offset. */
  function EncodeSectionName(name: Name): Bytes {
    match name
    case Short(text) => if |text| <= 8 then text + Zeros(8 - |text|) else Zeros(8)
    case Long(_, at) => if |Digits(at)| <= 7 then [47] + Digits(at) + Zeros(7 - |Digits(at)|) else Zeros(8)
  }

  /** The eight bytes of a symbol name. A long one is a zero word and the offset. */
  function EncodeSymbolName(name: Name): Bytes {
    match name
    case Short(text) => if |text| <= 8 then text + Zeros(8 - |text|) else Zeros(8)
    case Long(_, at) => [0, 0, 0, 0] + LeBytes(at, 4)
  }

  function EncodeSection(s: Section, data: nat): Bytes {
    EncodeSectionName(s.name) + LeBytes(s.virtualSize, 4) + LeBytes(s.virtualAddress, 4) + LeBytes(|s.data|, 4)
      + LeBytes(if s.data == [] then 0 else data, 4) + s.rest
  }

  /** Section headers, when the data of the first one starts at `data`. */
  function EncodeSections(ss: seq<Section>, data: nat): Bytes
    decreases |ss|
  {
    if ss == [] then [] else EncodeSection(ss[0], data) + EncodeSections(ss[1..], data + |ss[0].data|)
  }

  function AllData(ss: seq<Section>): Bytes
    decreases |ss|
  {
    if ss == [] then [] else ss[0].data + AllData(ss[1..])
  }

  function EncodeSymbol(s: Symbol): Bytes {
    EncodeSymbolName(s.name) + LeBytes(s.value, 4) + LeBytes(s.section % 0x1_0000, 2) + LeBytes(s.kind, 2)
      + [s.storage] + [|s.aux| % 256]
  }

  function Flatten(pieces: seq<Bytes>): Bytes
    decreases |pieces|
  {
    if pieces == [] then [] else pieces[0] + Flatten(pieces[1..])
  }

  function EncodeSymbols(ss: seq<Symbol>): Bytes
    decreases |ss|
  {
    if ss == [] then [] else EncodeSymbol(ss[0]) + Flatten(ss[0].aux) + EncodeSymbols(ss[1..])
  }

  /** Records of the symbols, auxiliary ones included. */
  function RecordCount(ss: seq<Symbol>): nat
    decreases |ss|
  {
    if ss == [] then 0 else 1 + |ss[0].aux| + RecordCount(ss[1..])
  }

  function EncodeOptional(o: Optional): Bytes {
    match o
    case Pe64(mid, base, more) => [0x0b, 0x02] + mid + LeBytes(base, 8) + more
    case Pe32(mid, base, more) => [0x0b, 0x01] + mid + LeBytes(base, 4) + more
    case Bare(header) => header
  }

  function HeaderOff(p: Image): nat {
    64 + |p.stub|
  }

  function SectionsOff(p: Image): nat {
    HeaderOff(p) + 24 + |EncodeOptional(p.optional)|
  }

  function DataOff(p: Image): nat {
    SectionsOff(p) + 40 * |p.sections|
  }

  function SymbolsOff(p: Image): nat {
    DataOff(p) + |AllData(p.sections)|
  }

  function StringsOff(p: Image): nat {
    SymbolsOff(p) + 18 * RecordCount(p.symbols)
  }

  function StringTable(p: Image): Bytes {
    LeBytes(4 + |p.strings|, 4) + p.strings
  }

  function DosHeader(p: Image): Bytes {
    [0x4d, 0x5a] + p.dosRest + LeBytes(HeaderOff(p), 4)
  }

  /** Signature and file header. */
  function FileHeader(p: Image): Bytes {
    [0x50, 0x45, 0, 0] + LeBytes(p.machine, 2) + LeBytes(|p.sections|, 2) + LeBytes(p.time, 4)
      + LeBytes(SymbolsOff(p), 4) + LeBytes(RecordCount(p.symbols), 4)
      + LeBytes(|EncodeOptional(p.optional)|, 2) + LeBytes(p.flags, 2)
  }

  function Encode(p: Image): Bytes {
    DosHeader(p) + p.stub + FileHeader(p) + EncodeOptional(p.optional) + EncodeSections(p.sections, DataOff(p))
      + AllData(p.sections) + EncodeSymbols(p.symbols) + StringTable(p)
  }

  // ---- Well-formed images ----

  /** A name that its record can hold and that is where it says. */
  predicate NameFits(table: Bytes, name: Name) {
    match name
    case Short(text) => 0 < |text| <= 8
    case Long(text, at) => 4 <= at < |table| && text + [0] <= table[at..]
  }

  predicate SectionFits(p: Image, s: Section) {
    && NameFits(StringTable(p), s.name) && |s.rest| == 16
    && (s.name.Short? ==> s.name.text[0] != 47)
    && (s.name.Long? ==> s.name.at < 1000_0000 && p.symbols != [])
  }

  predicate SymbolFits(p: Image, s: Symbol) {
    && NameFits(StringTable(p), s.name) && -0x8000 <= s.section < 0x8000
    && |s.aux| < 256 && forall k | 0 <= k < |s.aux| :: |s.aux[k]| == 18
  }

  predicate WellFormed(p: Image) {
    && |p.dosRest| == 58 && p.optional.Valid() && |EncodeOptional(p.optional)| < 0x1_0000
    && HeaderOff(p) < 0x8000_0000 && StringsOff(p) + 4 + |p.strings| < 0x1_0000_0000
    && 0 < |p.sections| <= 96
    && (forall k | 0 <= k < |p.sections| :: SectionFits(p, p.sections[k]))
    && (forall k | 0 <= k < |p.symbols| :: SymbolFits(p, p.symbols[k]))
  }

  // ---- Lengths and pieces ----

  lemma SectionLength(s: Section, data: nat)
    requires |s.rest| == 16
    ensures |EncodeSection(s, data)| == 40
  {
    hide Digits;
  }

  lemma {:induction false} SectionsLength(ss: seq<Section>, data: nat)
    requires forall k | 0 <= k < |ss| :: |ss[k].rest| == 16
    ensures |EncodeSections(ss, data)| == 40 * |ss|
    decreases |ss|
  {
    hide EncodeSection;
    if ss != [] {
      SectionLength(ss[0], data);
      SectionsLength(ss[1..], data + |ss[0].data|);
    }
  }

  lemma SymbolLength(s: Symbol)
    ensures |EncodeSymbol(s)| == 18
  {
  }

  lemma {:induction false} FlattenLength(pieces: seq<Bytes>)
    requires forall k | 0 <= k < |pieces| :: |pieces[k]| == 18
    ensures |Flatten(pieces)| == 18 * |pieces|
    decreases |pieces|
  {
    if pieces != [] {
      FlattenLength(pieces[1..]);
    }
  }

  predicate AuxFit(ss: seq<Symbol>) {
    forall j | 0 <= j < |ss| :: forall k | 0 <= k < |ss[j].aux| :: |ss[j].aux[k]| == 18
  }

  lemma {:induction false} SymbolsLength(ss: seq<Symbol>)
    requires AuxFit(ss)
    ensures |EncodeSymbols(ss)| == 18 * RecordCount(ss)
    decreases |ss|
  {
    hide EncodeSymbol;
    if ss != [] {
      SymbolLength(ss[0]);
      FlattenLength(ss[0].aux);
      SymbolsLength(ss[1..]);
    }
  }

  /** Pieces one after the other. */
  lemma FivePieces(x: Bytes, e: Bytes, f: Bytes, g: Bytes, h: Bytes)
    ensures var file, at := x + e + f + g + h, |x|;
      && |file| == at + |e| + |f| + |g| + |h|
      && Lies(file, 0, x) && Lies(file, at, e) && Lies(file, at + |e|, f) && Lies(file, at + |e| + |f|, g)
      && Lies(file, at + |e| + |f| + |g|, h)
  {
    assert x + e + f + g + h == x + (e + f + g + h);
    assert x + e + f + g + h == x + e + (f + g + h);
    assert x + e + f + g + h == x + e + f + (g + h);
  }

  lemma EightPieces(a: Bytes, b: Bytes, c: Bytes, d: Bytes, e: Bytes, f: Bytes, g: Bytes, h: Bytes)
    ensures var file, c0 := a + b + c + d + e + f + g + h, |a| + |b|;
      var e0 := c0 + |c| + |d|;
      && |file| == e0 + |e| + |f| + |g| + |h|
      && Lies(file, 0, a) && Lies(file, c0, c) && Lies(file, c0 + |c|, d)
      && Lies(file, e0, e) && Lies(file, e0 + |e|, f) && Lies(file, e0 + |e| + |f|, g)
      && Lies(file, e0 + |e| + |f| + |g|, h)
  {
    hide Lies;
    var front := a + b + c + d;
    var file := front + e + f + g + h;
    FivePieces(front, e, f, g, h);
    FivePieces(a, b, c, d, []);
    assert a + b + c + d + [] == front;
    LiesMeans(front, 0, a);
    LiesMeans(front, |a| + |b|, c);
    LiesMeans(front, |a| + |b| + |c|, d);
    PartLies(file, 0, front, 0, a);
    PartLies(file, 0, front, |a| + |b|, c);
    PartLies(file, 0, front, |a| + |b| + |c|, d);
  }

  /** The piece lies in the image at the offset. */
  predicate Lies(image: Bytes, off: nat, piece: Bytes) {
    off + |piece| <= |image| && image[off..off + |piece|] == piece
  }

  lemma PieceLengths(p: Image)
    requires WellFormed(p)
    ensures |DosHeader(p)| == 64 && |FileHeader(p)| == 24
    ensures |EncodeSections(p.sections, DataOff(p))| == 40 * |p.sections|
    ensures |EncodeSymbols(p.symbols)| == 18 * RecordCount(p.symbols)
  {
    hide EncodeSections, EncodeSymbols, NameFits, RecordCount, AllData, EncodeOptional;
    forall k | 0 <= k < |p.sections|
      ensures |p.sections[k].rest| == 16
    {
      assert SectionFits(p, p.sections[k]);
    }
    SectionsLength(p.sections, DataOff(p));
    AllAuxFit(p);
    SymbolsLength(p.symbols);
  }

  lemma AllAuxFit(p: Image)
    requires WellFormed(p)
    ensures AuxFit(p.symbols)
  {
    hide NameFits;
    forall j | 0 <= j < |p.symbols|
      ensures forall k | 0 <= k < |p.symbols[j].aux| :: |p.symbols[j].aux[k]| == 18
    {
      assert SymbolFits(p, p.symbols[j]);
    }
  }

  /** Where the pieces of the image are. */
  lemma Layout(p: Image)
    requires WellFormed(p)
    ensures var image := Encode(p);
      && |image| == StringsOff(p) + |StringTable(p)|
      && Lies(image, 0, DosHeader(p)) && Lies(image, HeaderOff(p), FileHeader(p))
      && Lies(image, HeaderOff(p) + 24, EncodeOptional(p.optional))
      && Lies(image, SectionsOff(p), EncodeSections(p.sections, DataOff(p)))
      && Lies(image, DataOff(p), AllData(p.sections))
      && Lies(image, SymbolsOff(p), EncodeSymbols(p.symbols))
      && Lies(image, StringsOff(p), StringTable(p))
  {
    hide DosHeader, FileHeader, EncodeSections, EncodeSymbols, RecordCount, AllData, EncodeOptional, StringTable,
      SectionFits, SymbolFits, Lies;
    PieceLengths(p);
    EightPieces(DosHeader(p), p.stub, FileHeader(p), EncodeOptional(p.optional), EncodeSections(p.sections, DataOff(p)),
                AllData(p.sections), EncodeSymbols(p.symbols), StringTable(p));
  }

  lemma WordIn(image: Bytes, off: nat, piece: Bytes, k: nat, n: nat)
    requires Lies(image, off, piece) && k + n <= |piece|
    ensures WordAt(image, off + k, n) == WordAt(piece, k, n)
  {
    hide WordAt;
    WordInside(image, off, piece, k, n);
  }

  /** Part of a piece lies where it should. */
  lemma PartLies(image: Bytes, off: nat, piece: Bytes, k: nat, part: Bytes)
    requires Lies(image, off, piece) && k + |part| <= |piece| && piece[k..k + |part|] == part
    ensures Lies(image, off + k, part)
  {
    PartOfPiece(image, off, piece, k, |part|);
  }

  // ---- The headers ----

  lemma DosFields(p: Image)
    requires WellFormed(p)
    ensures |DosHeader(p)| == 64
    ensures WordAt(DosHeader(p), 0, 2) == 0x5a4d && WordAt(DosHeader(p), 60, 4) == HeaderOff(p)
  {
    hide LeBytes, WordAt, Pow256, SectionFits, SymbolFits, RecordCount, AllData, EncodeOptional;
    Pow256Words();
    var off := LeBytes(HeaderOff(p), 4);
    WordBehind([0x4d, 0x5a] + p.dosRest, HeaderOff(p), 4, []);
    assert DosHeader(p) == [0x4d, 0x5a] + p.dosRest + off + [];
    TwoBytes(0x4d, 0x5a, p.dosRest + off);
    assert DosHeader(p) == [0x4d, 0x5a] + (p.dosRest + off);
  }

  lemma TwoBytes(a: byte, b: byte, tail: Bytes)
    ensures WordAt([a, b] + tail, 0, 2) == a + 256 * b
  {
    var s := ([a, b] + tail)[0..0 + 2];
    assert s == [a, b] && s[1..] == [b];
    assert LeValue([b]) == b;
  }

  lemma FourBytes(a: byte, b: byte, tail: Bytes)
    ensures WordAt([a, b, 0, 0] + tail, 0, 4) == a + 256 * b
  {
    var s := ([a, b, 0, 0] + tail)[0..0 + 4];
    assert s == [a, b, 0, 0] && s[1..] == [b, 0, 0] && s[1..][1..] == [0, 0];
    assert LeValue([0]) == 0;
    assert [0, 0][1..] == [0];
    assert LeValue([0, 0]) == 0;
    assert LeValue([b, 0, 0]) == b;
  }

  lemma FileFields(p: Image)
    requires WellFormed(p)
    ensures var r := FileHeader(p);
      && |r| == 24
      && WordAt(r, 0, 4) == 0x4550 && WordAt(r, 6, 2) == |p.sections| && WordAt(r, 12, 4) == SymbolsOff(p)
      && WordAt(r, 16, 4) == RecordCount(p.symbols) && WordAt(r, 20, 2) == |EncodeOptional(p.optional)|
  {
    hide LeBytes, WordAt, Pow256, SectionFits, SymbolFits, RecordCount, AllData, EncodeOptional;
    Pow256Words();
    var sig: Bytes := [0x50, 0x45, 0, 0];
    var machine, count, time := LeBytes(p.machine, 2), LeBytes(|p.sections|, 2), LeBytes(p.time, 4);
    var symOff, n := LeBytes(SymbolsOff(p), 4), LeBytes(RecordCount(p.symbols), 4);
    var opt, flags := LeBytes(|EncodeOptional(p.optional)|, 2), LeBytes(p.flags, 2);
    Fields(sig, machine, |p.sections|, time, SymbolsOff(p), RecordCount(p.symbols), |EncodeOptional(p.optional)|,
           flags);
    FourBytes(0x50, 0x45, machine + count + time + symOff + n + opt + flags);
    assert FileHeader(p) == sig + (machine + count + time + symOff + n + opt + flags);
  }

  lemma Fields(sig: Bytes, machine: Bytes, count: u16, time: Bytes, symOff: u32, n: u32, opt: u16, flags: Bytes)
    requires |sig| == 4 && |machine| == 2 && |time| == 4 && |flags| == 2
    ensures var r := sig + machine + LeBytes(count, 2) + time + LeBytes(symOff, 4) + LeBytes(n, 4) + LeBytes(opt, 2)
      + flags;
      && |r| == 24
      && WordAt(r, 6, 2) == count && WordAt(r, 12, 4) == symOff && WordAt(r, 16, 4) == n && WordAt(r, 20, 2) == opt
  {
    hide LeBytes, WordAt, Pow256;
    Pow256Words();
    var a, b, c, d := LeBytes(count, 2), LeBytes(symOff, 4), LeBytes(n, 4), LeBytes(opt, 2);
    var r := sig + machine + a + time + b + c + d + flags;
    WordBehind(sig + machine, count, 2, time + b + c + d + flags);
    assert r == sig + machine + a + (time + b + c + d + flags);
    WordBehind(sig + machine + a + time, symOff, 4, c + d + flags);
    assert r == sig + machine + a + time + b + (c + d + flags);
    WordBehind(sig + machine + a + time + b, n, 4, d + flags);
    assert r == sig + machine + a + time + b + c + (d + flags);
    WordBehind(sig + machine + a + time + b + c, opt, 2, flags);
  }

  lemma OptionalFields(o: Optional)
    requires o.Valid() && !o.Bare?
    ensures var r := EncodeOptional(o);
      && |r| >= 32
      && WordAt(r, 0, 2) == (if o.Pe64? then 0x20b else 0x10b)
      && (o.Pe64? ==> WordAt(r, 24, 8) == o.base64)
      && (o.Pe32? ==> WordAt(r, 28, 4) == o.base32)
  {
    hide LeBytes, WordAt, Pow256;
    Pow256Words();
    match o
    case Pe64(mid, base, more) =>
      TwoBytes(0x0b, 0x02, mid + LeBytes(base, 8) + more);
      assert EncodeOptional(o) == [0x0b, 0x02] + (mid + LeBytes(base, 8) + more);
      WordBehind([0x0b, 0x02] + mid, base, 8, more);
    case Pe32(mid, base, more) =>
      TwoBytes(0x0b, 0x01, mid + LeBytes(base, 4) + more);
      assert EncodeOptional(o) == [0x0b, 0x01] + (mid + LeBytes(base, 4) + more);
      WordBehind([0x0b, 0x01] + mid, base, 4, more);
  }

  function HeadersOf(p: Image): Pe.Pe {
    Pe.Pe(|p.sections|, SectionsOff(p), SymbolsOff(p), RecordCount(p.symbols), p.optional.Base())
  }

  /** The headers are read back. */
  lemma HeadersRead(p: Image)
    requires WellFormed(p)
    ensures |Encode(p)| < U32 && Pe.ReadPe(Encode(p)) == Some(HeadersOf(p))
  {
    hide Encode, DosHeader, FileHeader, EncodeSections, EncodeSymbols, RecordCount, AllData, EncodeOptional,
      SectionFits, SymbolFits, WordAt, Lies, LeBytes, Pe.ImageBase;
    var image, off, opt := Encode(p), HeaderOff(p), EncodeOptional(p.optional);
    Layout(p);
    TableLength(p);
    DosFields(p);
    FileFields(p);
    WordIn(image, 0, DosHeader(p), 0, 2);
    WordIn(image, 0, DosHeader(p), 60, 4);
    WordIn(image, off, FileHeader(p), 0, 4);
    WordIn(image, off, FileHeader(p), 6, 2);
    WordIn(image, off, FileHeader(p), 12, 4);
    WordIn(image, off, FileHeader(p), 16, 4);
    WordIn(image, off, FileHeader(p), 20, 2);
    BaseRead(p);
  }

  lemma TableLength(p: Image)
    ensures |StringTable(p)| == 4 + |p.strings|
  {
  }

  lemma BaseRead(p: Image)
    requires WellFormed(p)
    ensures |Encode(p)| < U32 && HeaderOff(p) + 24 + |EncodeOptional(p.optional)| + 40 <= |Encode(p)|
    ensures Pe.ImageBase(Encode(p), HeaderOff(p) + 24, |EncodeOptional(p.optional)|) == p.optional.Base()
  {
    hide Encode, DosHeader, FileHeader, EncodeSections, EncodeSymbols, RecordCount, AllData, EncodeOptional,
      SectionFits, SymbolFits, WordAt, Lies, LeBytes;
    var image, off, opt := Encode(p), HeaderOff(p) + 24, EncodeOptional(p.optional);
    Layout(p);
    TableLength(p);
    if p.optional.Bare? {
      BareLength(p.optional);
    } else {
      OptionalFields(p.optional);
      WordIn(image, off, opt, 0, 2);
      if p.optional.Pe64? {
        WordIn(image, off, opt, 24, 8);
      } else {
        WordIn(image, off, opt, 28, 4);
      }
    }
  }

  lemma BareLength(o: Optional)
    requires o.Valid() && o.Bare?
    ensures |EncodeOptional(o)| < 28
  {
  }

  /** The string table is read back, if there is a record in front of it. */
  lemma TableRead(p: Image)
    requires WellFormed(p)
    ensures |Encode(p)| < U32
    ensures Pe.StringTable(Encode(p), HeadersOf(p)) == if p.symbols == [] then [] else StringTable(p)
  {
    hide Encode, DosHeader, FileHeader, EncodeSections, EncodeSymbols, AllData, EncodeOptional,
      SectionFits, SymbolFits, WordAt, LeBytes;
    var image, off := Encode(p), StringsOff(p);
    Layout(p);
    TableLength(p);
    TableSize(p);
    WordIn(image, off, StringTable(p), 0, 4);
  }

  lemma TableSize(p: Image)
    requires 4 + |p.strings| < U32
    ensures |StringTable(p)| >= 4 && WordAt(StringTable(p), 0, 4) == 4 + |p.strings|
  {
    hide LeBytes, WordAt, Pow256;
    Pow256Words();
    WordBehind([], 4 + |p.strings|, 4, p.strings);
    assert StringTable(p) == [] + LeBytes(4 + |p.strings|, 4) + p.strings;
  }

  // ---- Sections ----

  /** Where the data of section `k` starts. */
  function DataAt(ss: seq<Section>, data: nat, k: nat): nat
    requires k <= |ss|
    decreases k
  {
    if k == 0 then data else DataAt(ss[1..], data + |ss[0].data|, k - 1)
  }

  predicate RestFits(ss: seq<Section>) {
    forall k | 0 <= k < |ss| :: |ss[k].rest| == 16
  }

  lemma {:induction false} SectionPiece(ss: seq<Section>, data: nat, k: nat)
    requires RestFits(ss) && k < |ss|
    ensures |EncodeSections(ss, data)| == 40 * |ss|
    ensures |EncodeSection(ss[k], DataAt(ss, data, k))| == 40
    ensures EncodeSections(ss, data)[40 * k..40 * k + 40] == EncodeSection(ss[k], DataAt(ss, data, k))
    decreases k
  {
    hide EncodeSection;
    SectionsLength(ss, data);
    SectionLength(ss[0], data);
    var next := data + |ss[0].data|;
    if k > 0 {
      SectionPiece(ss[1..], next, k - 1);
      PartBehind(EncodeSection(ss[0], data), EncodeSections(ss[1..], next), 40 * (k - 1), 40);
    }
  }

  lemma {:induction false} DataPiece(ss: seq<Section>, data: nat, k: nat)
    requires k < |ss|
    ensures var off := DataAt(ss, data, k) - data;
      0 <= off && off + |ss[k].data| <= |AllData(ss)| && AllData(ss)[off..off + |ss[k].data|] == ss[k].data
    decreases k
  {
    if k > 0 {
      var next := data + |ss[0].data|;
      DataPiece(ss[1..], next, k - 1);
      PartBehind(ss[0].data, AllData(ss[1..]), DataAt(ss[1..], next, k - 1) - next, |ss[k].data|);
    }
  }

  lemma SectionFields(s: Section, data: u32)
    requires |s.rest| == 16 && |s.data| < U32
    ensures var r := EncodeSection(s, data);
      && |r| == 40 && |EncodeSectionName(s.name)| == 8 && r[..8] == EncodeSectionName(s.name)
      && WordAt(r, 12, 4) == s.virtualAddress && WordAt(r, 16, 4) == |s.data|
      && WordAt(r, 20, 4) == if s.data == [] then 0 else data
  {
    hide LeBytes, WordAt, Pow256, EncodeSectionName;
    Pow256Words();
    SectionNameLength(s.name);
    var at := if s.data == [] then 0 else data;
    var name, vs, va := EncodeSectionName(s.name), LeBytes(s.virtualSize, 4), LeBytes(s.virtualAddress, 4);
    var size, ptr, rest := LeBytes(|s.data|, 4), LeBytes(at, 4), s.rest;
    var r := EncodeSection(s, data);
    WordBehind(name + vs, s.virtualAddress, 4, size + ptr + rest);
    assert r == name + vs + va + (size + ptr + rest);
    WordBehind(name + vs + va, |s.data|, 4, ptr + rest);
    assert r == name + vs + va + size + (ptr + rest);
    WordBehind(name + vs + va + size, at, 4, rest);
  }

  lemma SectionNameLength(name: Name)
    ensures |EncodeSectionName(name)| == 8
  {
    hide Digits;
  }

  lemma {:induction false} DataAtBound(ss: seq<Section>, data: nat, k: nat)
    requires k < |ss|
    ensures DataAt(ss, data, k) + |ss[k].data| <= data + |AllData(ss)|
    ensures data <= DataAt(ss, data, k)
    decreases k
  {
    if k > 0 {
      DataAtBound(ss[1..], data + |ss[0].data|, k - 1);
    }
  }

  lemma AllRestFits(p: Image)
    requires WellFormed(p)
    ensures RestFits(p.sections)
  {
    hide NameFits;
    forall k | 0 <= k < |p.sections|
      ensures |p.sections[k].rest| == 16
    {
      assert SectionFits(p, p.sections[k]);
    }
  }

  /** The header of section `k` is where the decoder looks for it, and its data where the header says. */
  lemma SectionRead(p: Image, k: nat)
    requires WellFormed(p) && k < |p.sections|
    ensures var image, s, off := Encode(p), p.sections[k], SectionsOff(p) + 40 * k;
      var data := DataAt(p.sections, DataOff(p), k);
      && off + 40 <= |image| < U32
      && image[off..off + 8] == EncodeSectionName(s.name)
      && WordAt(image, off + 12, 4) == s.virtualAddress && WordAt(image, off + 16, 4) == |s.data|
      && WordAt(image, off + 20, 4) == (if s.data == [] then 0 else data)
      && data > 0 && Lies(image, data, s.data)
  {
    hide Encode, DosHeader, FileHeader, EncodeSections, EncodeSymbols, RecordCount, AllData, EncodeOptional,
      SectionFits, SymbolFits, WordAt, LeBytes, Lies, EncodeSection, EncodeSectionName, DataAt;
    var image, s, off := Encode(p), p.sections[k], SectionsOff(p) + 40 * k;
    var data := DataAt(p.sections, DataOff(p), k);
    Layout(p);
    TableLength(p);
    AllRestFits(p);
    DataAtBound(p.sections, DataOff(p), k);
    SectionPiece(p.sections, DataOff(p), k);
    DataPiece(p.sections, DataOff(p), k);
    var piece := EncodeSection(s, data);
    PartLies(image, SectionsOff(p), EncodeSections(p.sections, DataOff(p)), 40 * k, piece);
    PartLies(image, DataOff(p), AllData(p.sections), data - DataOff(p), s.data);
    SectionFields(s, data);
    PartLies(image, off, piece, 0, EncodeSectionName(s.name));
    WordIn(image, off, piece, 12, 4);
    WordIn(image, off, piece, 16, 4);
    WordIn(image, off, piece, 20, 4);
    LiesMeans(image, off, EncodeSectionName(s.name));
    LiesMeans(image, off, piece);
  }

  lemma LiesMeans(image: Bytes, off: nat, piece: Bytes)
    requires Lies(image, off, piece)
    ensures off + |piece| <= |image| && image[off..off + |piece|] == piece
  {
  }

  // ---- Symbol records ----

  lemma SymbolFields(s: Symbol)
    requires |s.aux| < 256
    ensures var r := EncodeSymbol(s);
      && |r| == 18 && |EncodeSymbolName(s.name)| == 8 && r[..8] == EncodeSymbolName(s.name)
      && WordAt(r, 8, 4) == s.value && WordAt(r, 12, 2) == s.section % 0x1_0000 && WordAt(r, 14, 2) == s.kind
      && r[17] == |s.aux|
  {
    hide LeBytes, WordAt, Pow256, EncodeSymbolName;
    Pow256Words();
    SymbolNameLength(s.name);
    var name, value, section := EncodeSymbolName(s.name), LeBytes(s.value, 4), LeBytes(s.section % 0x1_0000, 2);
    var kind, last := LeBytes(s.kind, 2), [s.storage] + [|s.aux| % 256];
    var r := EncodeSymbol(s);
    WordBehind(name, s.value, 4, section + kind + last);
    assert r == name + value + (section + kind + last);
    WordBehind(name + value, s.section % 0x1_0000, 2, kind + last);
    assert r == name + value + section + (kind + last);
    WordBehind(name + value + section, s.kind, 2, last);
    assert r == name + value + section + kind + last;
  }

  lemma SymbolNameLength(name: Name)
    ensures |EncodeSymbolName(name)| == 8
  {
  }

  lemma ShortNameField(text: CString)
    requires 0 < |text| <= 8
    ensures var r := EncodeSymbolName(Short(text)); |r| == 8 && WordAt(r, 0, 4) != 0
    ensures EncodeSymbolName(Short(text)) == text + Zeros(8 - |text|)
  {
    hide LeValue;
    var r := EncodeSymbolName(Short(text));
    assert r[0] == text[0] && text[0] in text;
    NotZero(r[0..0 + 4]);
  }

  lemma NotZero(s: Bytes)
    requires s != [] && s[0] != 0
    ensures LeValue(s) != 0
  {
  }

  lemma LongNameField(text: CString, at: u32)
    ensures var r := EncodeSymbolName(Long(text, at)); |r| == 8 && WordAt(r, 0, 4) == 0 && WordAt(r, 4, 4) == at
  {
    hide LeBytes, WordAt, Pow256;
    Pow256Words();
    FourBytes(0, 0, LeBytes(at, 4));
    WordBehind([0, 0, 0, 0], at, 4, []);
    assert EncodeSymbolName(Long(text, at)) == [0, 0, 0, 0] + LeBytes(at, 4) + [];
  }

  /** Bytes that hold the text, and end with it or go on with a NUL. */
  predicate Holds(bytes: Bytes, text: CString) {
    text <= bytes && (|bytes| > |text| ==> bytes[|text|] == 0)
  }

  lemma LongHolds(table: Bytes, text: CString, at: nat)
    requires at < |table| && text + [0] <= table[at..]
    ensures Holds(table[at..], text) && |table[at..]| > |text|
  {
    assert table[at..][|text|] == (text + [0])[|text|];
    assert table[at..][..|text|] == (text + [0])[..|text|] == text;
  }

  lemma ShortHolds(text: CString)
    requires |text| <= 8
    ensures Holds(text + Zeros(8 - |text|), text)
  {
  }

  lemma RecordIs(p: Image, i: nat, s: Symbol)
    requires WellFormed(p) && |s.aux| < 256 && i < RecordCount(p.symbols)
    requires Lies(Encode(p), SymbolsOff(p) + 18 * i, EncodeSymbol(s))
    ensures |Encode(p)| < U32 && Pe.Records(Encode(p), HeadersOf(p)) == RecordCount(p.symbols)
    ensures Pe.Record(Encode(p), HeadersOf(p), i) == EncodeSymbol(s)
  {
    hide Encode, RecordCount, EncodeSymbol, SymbolsOff, SectionsOff, WellFormed, Pe.Records;
    RecordsInside(p);
    SymbolLength(s);
    assert HeadersOf(p).symOff + i * Pe.SYM_SIZE == SymbolsOff(p) + 18 * i;
  }

  lemma FitsAux(p: Image, s: Symbol)
    requires SymbolFits(p, s)
    ensures |s.aux| < 256 && -0x8000 <= s.section < 0x8000
  {
  }

  /** The decoder's reading of record `i`, when it holds symbol `s`. */
  lemma RecordRead(p: Image, i: nat, s: Symbol)
    requires WellFormed(p) && SymbolFits(p, s) && i < RecordCount(p.symbols)
    requires Lies(Encode(p), SymbolsOff(p) + 18 * i, EncodeSymbol(s))
    ensures |Encode(p)| < U32
    ensures Pe.Records(Encode(p), HeadersOf(p)) == RecordCount(p.symbols)
    ensures Pe.Record(Encode(p), HeadersOf(p), i) == EncodeSymbol(s)
    ensures Pe.Auxiliaries(Encode(p), HeadersOf(p), i) == |s.aux|
    ensures Pe.SectionNumber(Encode(p), HeadersOf(p), i) == s.section
  {
    hide Encode, RecordCount, WordAt, EncodeSymbol, EncodeSymbolName, WellFormed, SymbolFits, HeadersOf, SymbolsOff,
      Lies, Pe.Records, Pe.Record;
    FitsAux(p, s);
    RecordIs(p, i, s);
    SymbolFields(s);
  }

  lemma RecordsInside(p: Image)
    requires WellFormed(p)
    ensures SymbolsOff(p) > 0
    ensures StringsOff(p) + 4 <= |Encode(p)| < U32
    ensures Pe.Records(Encode(p), HeadersOf(p)) == RecordCount(p.symbols)
  {
    hide Encode, RecordCount, AllData, EncodeOptional, EncodeSections, EncodeSymbols, DosHeader, FileHeader,
      SectionFits, SymbolFits, WordAt, Lies;
    Layout(p);
    TableLength(p);
  }

  lemma NameBytesRead(p: Image, i: nat, s: Symbol)
    requires WellFormed(p) && SymbolFits(p, s) && i < RecordCount(p.symbols)
    requires Lies(Encode(p), SymbolsOff(p) + 18 * i, EncodeSymbol(s))
    ensures |Encode(p)| < U32 && i < Pe.Records(Encode(p), HeadersOf(p))
    ensures var bytes := Pe.NameBytes(Encode(p), HeadersOf(p), i);
      bytes.Some? && bytes.value != [] && Holds(bytes.value, s.name.text)
  {
    hide Encode, AllData, EncodeOptional, EncodeSections, EncodeSymbols, DosHeader, FileHeader,
      SectionFits, WordAt, EncodeSymbol, StringTable, Pe.StringTable, Pe.Records, Pe.Record, EncodeSymbolName, Holds,
      Lies;
    RecordRead(p, i, s);
    SymbolFields(s);
    TableRead(p);
    var r, name := EncodeSymbol(s), EncodeSymbolName(s.name);
    LiesStart(r, name);
    WordIn(r, 0, name, 0, 4);
    WordIn(r, 0, name, 4, 4);
    match s.name
    case Short(text) =>
      ShortNameField(text);
      ShortHolds(text);
    case Long(text, at) =>
      TableSmall(p);
      LongNameField(text, at);
      LongHolds(StringTable(p), text, at);
      SomeSymbols(p);
  }

  lemma LiesStart(r: Bytes, piece: Bytes)
    requires |piece| <= |r| && r[..|piece|] == piece
    ensures Lies(r, 0, piece)
  {
  }

  lemma TableSmall(p: Image)
    requires WellFormed(p)
    ensures |StringTable(p)| < U32
  {
    TableLength(p);
  }

  lemma SomeSymbols(p: Image)
    ensures RecordCount(p.symbols) > 0 ==> p.symbols != []
  {
  }
}
