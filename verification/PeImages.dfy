/** What a PE image holds for the symbolizer: its COFF function symbols and its DWARF line sections. Images
    are smaller than 4 GiB, the reach of their own 32-bit file offsets. */
module PeImages {
  import opened Bytes
  import opened Wrappers

  const DOS_SIZE := 64
  const FILE_HEADER_SIZE := 20
  const SECTION_SIZE := 40
  const SYM_SIZE := 18
  const SYM_MAX := 4096
  const NAME_MAX := 256 * 1024
  const MAX_SECTIONS := 96

  type Image = s: Bytes | |s| < U32

  // ---- Headers ----

  datatype Pe = Pe(sections: nat, sectionsOff: nat, symOff: nat, nsym: nat, imageBase: u64)

  function ImageBase(image: Image, opt: nat, optSize: nat): u64
    requires optSize >= 28 ==> opt + optSize + SECTION_SIZE <= |image|
  {
    Pow256Words();
    if optSize < 28 then 0
    else if WordAt(image, opt, 2) == 0x20b && optSize >= 32 then WordAt(image, opt + 24, 8)
    else if WordAt(image, opt, 2) == 0x10b then WordAt(image, opt + 28, 4)
    else 0
  }

  /** The headers, when they are those of an image with at least one and at most 96 sections, all inside. */
  function ReadPe(image: Image): (r: Option<Pe>)
    ensures r.Some? ==> Valid(image, r.value)
  {
    if |image| < DOS_SIZE || WordAt(image, 0, 2) != 0x5a4d then None else
    var lfanew := WordAt(image, 60, 4);
    if lfanew >= 0x8000_0000 || lfanew + 4 + FILE_HEADER_SIZE > |image| then None else
    if WordAt(image, lfanew, 4) != 0x4550 then None else
    var sections, optSize := WordAt(image, lfanew + 6, 2), WordAt(image, lfanew + 20, 2);
    var opt := lfanew + 4 + FILE_HEADER_SIZE;
    if sections == 0 || sections > MAX_SECTIONS || opt + optSize + sections * SECTION_SIZE > |image| then None else
    Some(Pe(sections, opt + optSize, WordAt(image, lfanew + 12, 4), WordAt(image, lfanew + 16, 4),
            ImageBase(image, opt, optSize)))
  }

  predicate Valid(image: Image, pe: Pe) {
    0 < pe.sections <= MAX_SECTIONS && pe.sectionsOff + pe.sections * SECTION_SIZE <= |image|
  }

  /** Number of symbol records the scan may look at. */
  function Records(image: Image, pe: Pe): (n: nat)
    ensures n > 0 ==> n == pe.nsym && pe.symOff + n * SYM_SIZE <= |image|
  {
    if pe.symOff != 0 && pe.nsym != 0 && pe.symOff + pe.nsym * SYM_SIZE <= |image| then pe.nsym else 0
  }

  /** The string table behind the records, its length word included; empty when there is none. */
  function StringTable(image: Image, pe: Pe): Bytes {
    var off := pe.symOff + pe.nsym * SYM_SIZE;
    if pe.symOff == 0 || pe.nsym == 0 || off + 4 > |image| then [] else
    var size := WordAt(image, off, 4);
    if size < 4 || off + size > |image| then [] else image[off..off + size]
  }

  // ---- Symbol records ----

  function Record(image: Image, pe: Pe, i: nat): (r: Bytes)
    requires i < Records(image, pe)
    ensures |r| == SYM_SIZE
  {
    image[pe.symOff + i * SYM_SIZE..pe.symOff + i * SYM_SIZE + SYM_SIZE]
  }

  /** Number of auxiliary records after record `i`. */
  function Auxiliaries(image: Image, pe: Pe, i: nat): byte
    requires i < Records(image, pe)
  {
    Record(image, pe, i)[17]
  }

  /** The primary records, in order: each skips the auxiliary records its count announces. A count that runs
      past the table ends the scan before its own record is interpreted. */
  function Primaries(image: Image, pe: Pe, i: nat): (ps: seq<nat>)
    ensures forall k | 0 <= k < |ps| :: i <= ps[k] < Records(image, pe)
    decreases Records(image, pe) - i
  {
    if i >= Records(image, pe) then [] else
    var naux := Auxiliaries(image, pe, i);
    if naux != 0 && i + naux >= Records(image, pe) then [] else
    [i] + Primaries(image, pe, i + naux + 1)
  }

  lemma PrimariesStep(image: Image, pe: Pe, i: nat)
    requires i < Records(image, pe)
    ensures var ps, naux := Primaries(image, pe, i), Auxiliaries(image, pe, i);
      if naux != 0 && i + naux >= Records(image, pe) then ps == [] else
      ps != [] && ps[0] == i && ps[1..] == Primaries(image, pe, i + naux + 1)
  {
    hide Records, Auxiliaries;
  }

  lemma NoPrimaries(image: Image, pe: Pe, i: nat)
    requires i >= Records(image, pe)
    ensures Primaries(image, pe, i) == []
  {
  }

  /** An auxiliary record is never taken for a symbol: no position a primary record's count covers is itself
      primary, and the next primary record comes right behind them. */
  lemma {:induction false} AuxiliariesAreSkipped(image: Image, pe: Pe, i: nat, k: nat)
    requires k < |Primaries(image, pe, i)|
    ensures var ps := Primaries(image, pe, i);
      var naux := Auxiliaries(image, pe, ps[k]);
      && (forall j | ps[k] < j <= ps[k] + naux :: j !in ps)
      && (k + 1 < |ps| ==> ps[k + 1] == ps[k] + naux + 1)
      && ps[k] + naux < Records(image, pe)
    decreases k
  {
    hide Auxiliaries;
    var ps := Primaries(image, pe, i);
    var rest := Primaries(image, pe, i + Auxiliaries(image, pe, i) + 1);
    assert ps == [i] + rest;
    if k > 0 {
      AuxiliariesAreSkipped(image, pe, i + Auxiliaries(image, pe, i) + 1, k - 1);
      assert rest[k - 1] == ps[k];
    }
  }

  /** Every record is either primary or announced by a primary record, up to where the scan ends. */
  lemma {:induction false} PrimariesCover(image: Image, pe: Pe, i: nat, j: nat)
    requires i <= j < Records(image, pe) && Primaries(image, pe, i) != []
    requires var ps := Primaries(image, pe, i);
      j <= ps[|ps| - 1] + Auxiliaries(image, pe, ps[|ps| - 1])
    ensures var ps := Primaries(image, pe, i);
      exists k | 0 <= k < |ps| :: ps[k] <= j <= ps[k] + Auxiliaries(image, pe, ps[k])
    decreases Records(image, pe) - i
  {
    hide Auxiliaries;
    var ps, next := Primaries(image, pe, i), i + Auxiliaries(image, pe, i) + 1;
    var rest := Primaries(image, pe, next);
    assert ps == [i] + rest;
    if j < next {
      assert ps[0] <= j <= ps[0] + Auxiliaries(image, pe, ps[0]);
    } else {
      assert ps[|ps| - 1] == if rest == [] then i else rest[|rest| - 1];
      PrimariesCover(image, pe, next, j);
      var k :| 0 <= k < |rest| && rest[k] <= j <= rest[k] + Auxiliaries(image, pe, rest[k]);
      assert ps[k + 1] == rest[k];
    }
  }

  /** The name bytes a record points at: in the string table, or in the record itself. */
  function NameBytes(image: Image, pe: Pe, i: nat): Option<Bytes>
    requires i < Records(image, pe)
  {
    var r, strings := Record(image, pe, i), StringTable(image, pe);
    if WordAt(r, 0, 4) != 0 then Some(r[..8])
    else if WordAt(r, 4, 4) >= |strings| then None
    else Some(strings[WordAt(r, 4, 4)..])
  }

  /** Section number of a record, signed. */
  function SectionNumber(image: Image, pe: Pe, i: nat): int
    requires i < Records(image, pe)
  {
    var w := WordAt(Record(image, pe, i), 12, 2);
    if w < 0x8000 then w else w - U16
  }

  /** A function symbol of one of the sections, with a name that starts neither with a dot nor with NUL. */
  predicate Interpreted(image: Image, pe: Pe, i: nat): (b: bool)
    requires i < Records(image, pe)
    ensures b ==> 0 < SectionNumber(image, pe, i) <= pe.sections && NameBytes(image, pe, i).Some?
  {
    && 0 < SectionNumber(image, pe, i) <= pe.sections
    && WordAt(Record(image, pe, i), 14, 2) / 16 % 4 == 2
    && NameBytes(image, pe, i).Some?
    && var name := NameBytes(image, pe, i).value;
       name != [] && name[0] != 46 && name[0] != 0
  }

  function SymbolAddress(image: Image, pe: Pe, moduleBase: u64, i: nat): u64
    requires Valid(image, pe) && i < Records(image, pe)
    requires 0 < SectionNumber(image, pe, i) <= pe.sections
  {
    var section := pe.sectionsOff + (SectionNumber(image, pe, i) - 1) * SECTION_SIZE;
    Wrap(moduleBase + WordAt(image, section + 12, 4) + WordAt(Record(image, pe, i), 8, 4))
  }

  // ---- The name pool ----

  datatype Named = Named(names: Bytes, off: int)

  /** `bw_pe_add_name` */
  function AddName(names: Bytes, src: Bytes): (a: Named)
    requires |names| <= NAME_MAX
    ensures |a.names| <= NAME_MAX && names <= a.names && -1 <= a.off < |a.names|
    ensures a.off >= 0 ==> a.off == |names|
    ensures a.off < 0 ==> a.names == names
  {
    if src == [] || |names| >= NAME_MAX then Named(names, -1) else
    var t := CStr(Take(src, NAME_MAX - |names| - 1));
    if t == [] then Named(names, -1) else Named(names + t + [0], |names|)
  }

  /** `i` is where the copy loop of `bw_pe_add_name` stops. */
  lemma AddNameIs(names: Bytes, src: Bytes, i: nat)
    requires |names| < NAME_MAX && src != [] && i <= |src| && i < NAME_MAX - |names|
    requires forall k | 0 <= k < i :: src[k] != 0
    requires i == |src| || i == NAME_MAX - |names| - 1 || src[i] == 0
    ensures AddName(names, src) == if i == 0 then Named(names, -1) else Named(names + src[..i] + [0], |names|)
  {
    hide StrLen;
    var clipped := Take(src, NAME_MAX - |names| - 1);
    assert clipped[..i] == src[..i];
    StrLenUnique(clipped, i);
  }

  lemma AddNameFull(names: Bytes, src: Bytes)
    requires |names| <= NAME_MAX && (src == [] || |names| == NAME_MAX)
    ensures AddName(names, src) == Named(names, -1)
  {
  }

  // ---- The scan ----

  datatype Symbol = Symbol(addr: u64, nameOff: u32)

  datatype Symbols = Symbols(syms: seq<Symbol>, names: Bytes)

  /** Interprets the records at these positions, in order, until the table is full or a name finds no room. */
  function Interpret(image: Image, pe: Pe, moduleBase: u64, ps: seq<nat>, x: Symbols): (r: Symbols)
    requires Valid(image, pe) && |x.names| <= NAME_MAX && |x.syms| <= SYM_MAX
    requires forall k | 0 <= k < |ps| :: ps[k] < Records(image, pe)
    ensures |r.names| <= NAME_MAX && |r.syms| <= SYM_MAX
    decreases |ps|
  {
    if ps == [] || |x.syms| == SYM_MAX then x
    else if !Interpreted(image, pe, ps[0]) then Interpret(image, pe, moduleBase, ps[1..], x)
    else
      var a := AddName(x.names, NameBytes(image, pe, ps[0]).value);
      if a.off < 0 then x else
      Interpret(image, pe, moduleBase, ps[1..],
                Symbols(x.syms + [Symbol(SymbolAddress(image, pe, moduleBase, ps[0]), a.off)], a.names))
  }

  const NO_SYMBOLS := Symbols([], [])

  function ScanSymbols(image: Image, pe: Pe, moduleBase: u64): (r: Symbols)
    requires Valid(image, pe)
    ensures |r.names| <= NAME_MAX && |r.syms| <= SYM_MAX
  {
    Interpret(image, pe, moduleBase, Primaries(image, pe, 0), NO_SYMBOLS)
  }

  /** The symbol is that of record `i`: at its address, and under its name, clipped to the room the pool had left. */
  ghost predicate Stands(image: Image, pe: Pe, moduleBase: u64, names: Bytes, s: Symbol, i: nat)
    requires Valid(image, pe) && i < Records(image, pe)
  {
    && Interpreted(image, pe, i)
    && s.addr == SymbolAddress(image, pe, moduleBase, i)
    && s.nameOff < |names| <= NAME_MAX && 0 in names[s.nameOff..]
    && CStr(names[s.nameOff..]) == CStr(Take(NameBytes(image, pe, i).value, NAME_MAX - s.nameOff - 1)) != []
  }

  lemma AddNameFacts(names: Bytes, src: Bytes)
    requires |names| <= NAME_MAX && AddName(names, src).off >= 0
    ensures var a := AddName(names, src);
      var s := a.names[a.off..];
      0 in s && CStr(s) == CStr(Take(src, NAME_MAX - a.off - 1)) != []
  {
    hide StrLen, CStr, Take;
    var t := CStr(Take(src, NAME_MAX - |names| - 1));
    assert (names + t + [0])[|names|..] == t + [0] + [];
    CStrOfTerminated(t, []);
  }

  /** A name that does not start with NUL is refused only when the pool has no room for a byte of it. */
  lemma AddNameFails(names: Bytes, src: Bytes)
    requires |names| <= NAME_MAX && src != [] && src[0] != 0 && AddName(names, src).off < 0
    ensures |names| >= NAME_MAX - 1
  {
  }

  lemma StandsGrow(image: Image, pe: Pe, moduleBase: u64, names: Bytes, names': Bytes, s: Symbol, i: nat)
    requires Valid(image, pe) && i < Records(image, pe) && |names'| <= NAME_MAX
    requires Stands(image, pe, moduleBase, names, s, i) && names <= names'
    ensures Stands(image, pe, moduleBase, names', s, i)
  {
    hide StrLen, Interpreted, NameBytes, SymbolAddress, CStr;
    var more := names'[|names|..];
    assert names' == names + more;
    assert names'[s.nameOff..] == names[s.nameOff..] + more;
    CStrStable(names[s.nameOff..], more);
  }

  ghost predicate AllStand(image: Image, pe: Pe, moduleBase: u64, x: Symbols, at: seq<nat>)
    requires Valid(image, pe)
  {
    && |at| == |x.syms|
    && (forall k | 0 <= k < |at| ::
          at[k] < Records(image, pe) && Stands(image, pe, moduleBase, x.names, x.syms[k], at[k]))
  }

  /** Those of the positions whose records are interpreted. */
  function InterpretedOf(image: Image, pe: Pe, ps: seq<nat>): (taken: seq<nat>)
    requires forall k | 0 <= k < |ps| :: ps[k] < Records(image, pe)
    ensures forall i :: i in taken <==> i in ps && Interpreted(image, pe, i)
    decreases |ps|
  {
    if ps == [] then [] else
    (if Interpreted(image, pe, ps[0]) then [ps[0]] else []) + InterpretedOf(image, pe, ps[1..])
  }

  predicate Ascends(ps: seq<nat>) {
    forall j, k | 0 <= j < k < |ps| :: ps[j] < ps[k]
  }

  lemma {:induction false} PrimariesAscend(image: Image, pe: Pe, i: nat)
    ensures Ascends(Primaries(image, pe, i))
    decreases Records(image, pe) - i
  {
    hide Auxiliaries, Records;
    if Primaries(image, pe, i) != [] {
      PrimariesAscend(image, pe, i + Auxiliaries(image, pe, i) + 1);
    }
  }

  lemma AscendsCons(x: nat, ps: seq<nat>)
    requires Ascends(ps) && forall y | y in ps :: x < y
    ensures Ascends([x] + ps)
  {
    var all := [x] + ps;
    forall j, k | 0 <= j < k < |all|
      ensures all[j] < all[k]
    {
      assert all[k] == ps[k - 1] && ps[k - 1] in ps;
    }
  }

  lemma AscendsTail(ps: seq<nat>)
    requires Ascends(ps) && ps != []
    ensures Ascends(ps[1..]) && forall y | y in ps[1..] :: ps[0] < y
  {
  }

  lemma {:induction false} InterpretedAscend(image: Image, pe: Pe, ps: seq<nat>)
    requires Ascends(ps) && forall k | 0 <= k < |ps| :: ps[k] < Records(image, pe)
    ensures Ascends(InterpretedOf(image, pe, ps))
    decreases |ps|
  {
    hide Interpreted, Records, Ascends;
    if ps == [] {
      NothingAscends();
    } else {
      AscendsTail(ps);
      InterpretedAscend(image, pe, ps[1..]);
      var rest := InterpretedOf(image, pe, ps[1..]);
      AscendsCons(ps[0], rest);
      assert [] + rest == rest;
    }
  }

  lemma NothingAscends()
    ensures Ascends([])
  {
  }

  /** The table is full, or the pool has no room for another name. */
  predicate Full(x: Symbols) {
    |x.syms| == SYM_MAX || |x.names| >= NAME_MAX - 1
  }

  /** The symbols added are those of the first interpreted records, and of all of them unless room ran out. */
  lemma {:induction false} InterpretSound(image: Image, pe: Pe, moduleBase: u64, ps: seq<nat>, x: Symbols, at: seq<nat>)
    returns (added: seq<nat>)
    requires Valid(image, pe) && |x.names| <= NAME_MAX && |x.syms| <= SYM_MAX
    requires forall k | 0 <= k < |ps| :: ps[k] < Records(image, pe)
    requires AllStand(image, pe, moduleBase, x, at)
    ensures var r, taken := Interpret(image, pe, moduleBase, ps, x), InterpretedOf(image, pe, ps);
      AllStand(image, pe, moduleBase, r, at + added) && added <= taken && (added == taken || Full(r))
    decreases |ps|
  {
    hide Interpreted, NameBytes, SymbolAddress, AddName, Records, CStr, Stands, AllStand;
    added := [];
    assert at + [] == at;
    if ps == [] || |x.syms| == SYM_MAX {
    } else if !Interpreted(image, pe, ps[0]) {
      added := InterpretSound(image, pe, moduleBase, ps[1..], x, at);
    } else {
      var a := AddName(x.names, NameBytes(image, pe, ps[0]).value);
      if a.off < 0 {
        NameRefused(image, pe, ps[0], x.names);
      } else {
        var s := Symbol(SymbolAddress(image, pe, moduleBase, ps[0]), a.off);
        NameRecorded(image, pe, moduleBase, ps[0], x.names);
        AllStandAdd(image, pe, moduleBase, x, at, s, ps[0], a.names);
        var more := InterpretSound(image, pe, moduleBase, ps[1..], Symbols(x.syms + [s], a.names), at + [ps[0]]);
        added := [ps[0]] + more;
        assert at + added == at + [ps[0]] + more;
      }
    }
  }

  lemma NameRefused(image: Image, pe: Pe, i: nat, names: Bytes)
    requires i < Records(image, pe) && Interpreted(image, pe, i) && |names| <= NAME_MAX
    requires AddName(names, NameBytes(image, pe, i).value).off < 0
    ensures |names| >= NAME_MAX - 1
  {
    hide NameBytes, AddName;
    AddNameFails(names, NameBytes(image, pe, i).value);
  }

  lemma NameRecorded(image: Image, pe: Pe, moduleBase: u64, i: nat, names: Bytes)
    requires Valid(image, pe) && i < Records(image, pe) && Interpreted(image, pe, i) && |names| <= NAME_MAX
    requires AddName(names, NameBytes(image, pe, i).value).off >= 0
    ensures var a := AddName(names, NameBytes(image, pe, i).value);
      Stands(image, pe, moduleBase, a.names, Symbol(SymbolAddress(image, pe, moduleBase, i), a.off), i)
  {
    hide NameBytes, AddName, CStr, SymbolAddress, Interpreted;
    AddNameFacts(names, NameBytes(image, pe, i).value);
  }

  lemma AllStandAdd(image: Image, pe: Pe, moduleBase: u64, x: Symbols, at: seq<nat>, s: Symbol, i: nat, names: Bytes)
    requires Valid(image, pe) && AllStand(image, pe, moduleBase, x, at) && x.names <= names && |names| <= NAME_MAX
    requires i < Records(image, pe) && Stands(image, pe, moduleBase, names, s, i)
    ensures AllStand(image, pe, moduleBase, Symbols(x.syms + [s], names), at + [i])
  {
    hide Stands, Records;
    forall k | 0 <= k < |at|
      ensures Stands(image, pe, moduleBase, names, x.syms[k], at[k])
    {
      StandsGrow(image, pe, moduleBase, x.names, names, x.syms[k], at[k]);
    }
  }

  /** The index holds one symbol for each of the first interpreted primary records, in file order, each at its
      record's address and under its record's name; for all of them, unless the table or the pool filled up. */
  lemma ScanSound(image: Image, pe: Pe, moduleBase: u64) returns (at: seq<nat>)
    requires Valid(image, pe)
    ensures var x, ps := ScanSymbols(image, pe, moduleBase), Primaries(image, pe, 0);
      && AllStand(image, pe, moduleBase, x, at) && Ascends(at)
      && at <= InterpretedOf(image, pe, ps)
      && (Full(x) || forall i | i in ps && Interpreted(image, pe, i) :: i in at)
  {
    hide Primaries, Interpreted, Stands, Interpret, InterpretedOf;
    var ps := Primaries(image, pe, 0);
    at := InterpretSound(image, pe, moduleBase, ps, NO_SYMBOLS, []);
    assert [] + at == at;
    PrimariesAscend(image, pe, 0);
    InterpretedAscend(image, pe, ps);
    var taken := InterpretedOf(image, pe, ps);
    assert forall k | 0 <= k < |at| :: at[k] == taken[k];
  }

  // ---- Moving the module ----

  function Shifted(syms: seq<Symbol>, d: nat): (r: seq<Symbol>)
    requires forall k | 0 <= k < |syms| :: syms[k].addr + d < U64
    ensures |r| == |syms| && forall k | 0 <= k < |r| :: r[k] == Symbol(syms[k].addr + d, syms[k].nameOff)
  {
    seq(|syms|, k requires 0 <= k < |syms| => Symbol(syms[k].addr + d, syms[k].nameOff))
  }

  predicate NoOverflow(syms: seq<Symbol>, d: nat) {
    forall k | 0 <= k < |syms| :: syms[k].addr + d < U64
  }

  /** No address of a symbol of a module loaded here wraps around. */
  predicate Fits(moduleBase: nat) {
    moduleBase + 2 * U32 < U64
  }

  lemma AddressShifts(image: Image, pe: Pe, moduleBase: u64, d: nat, i: nat)
    requires Valid(image, pe) && i < Records(image, pe) && Fits(moduleBase + d)
    requires 0 < SectionNumber(image, pe, i) <= pe.sections
    ensures SymbolAddress(image, pe, moduleBase + d, i) == SymbolAddress(image, pe, moduleBase, i) + d
  {
    Pow256Words();
  }

  lemma {:induction false} InterpretShifts(image: Image, pe: Pe, moduleBase: u64, d: nat, ps: seq<nat>, x: Symbols)
    requires Valid(image, pe) && Fits(moduleBase + d)
    requires |x.names| <= NAME_MAX && |x.syms| <= SYM_MAX && NoOverflow(x.syms, d)
    requires forall k | 0 <= k < |ps| :: ps[k] < Records(image, pe)
    ensures var r := Interpret(image, pe, moduleBase, ps, x);
      && NoOverflow(r.syms, d)
      && Interpret(image, pe, moduleBase + d, ps, Symbols(Shifted(x.syms, d), x.names))
      == Symbols(Shifted(r.syms, d), r.names)
    decreases |ps|
  {
    hide NameBytes, SymbolAddress, AddName, Records, SectionNumber, Record;
    if ps != [] && |x.syms| < SYM_MAX {
      if !Interpreted(image, pe, ps[0]) {
        InterpretShifts(image, pe, moduleBase, d, ps[1..], x);
      } else {
        var a := AddName(x.names, NameBytes(image, pe, ps[0]).value);
        if a.off >= 0 {
          AddressShifts(image, pe, moduleBase, d, ps[0]);
          var s := Symbol(SymbolAddress(image, pe, moduleBase, ps[0]), a.off);
          var syms := x.syms + [s];
          assert NoOverflow(syms, d);
          assert Shifted(syms, d) == Shifted(x.syms, d) + [Symbol(s.addr + d, a.off)];
          InterpretShifts(image, pe, moduleBase, d, ps[1..], Symbols(syms, a.names));
        }
      }
    }
  }

  /** Loading the same image `d` bytes higher moves every symbol by `d` and changes nothing else. */
  lemma ScanShifts(image: Image, pe: Pe, moduleBase: u64, d: nat)
    requires Valid(image, pe) && Fits(moduleBase + d)
    ensures var r := ScanSymbols(image, pe, moduleBase);
      && NoOverflow(r.syms, d)
      && ScanSymbols(image, pe, moduleBase + d) == Symbols(Shifted(r.syms, d), r.names)
  {
    assert Shifted([], d) == [];
    InterpretShifts(image, pe, moduleBase, d, Primaries(image, pe, 0), NO_SYMBOLS);
  }
}
