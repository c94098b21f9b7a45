/** What the decoder does with what it cannot use: unit headers that make it give up the section or skip the unit, and
    instructions that end a program. */
module Refusals {
  import opened Bytes
  import opened Leb128
  import opened Forms
  import opened LinePrograms
  import opened EntryTables
  import opened ProgramEncoding
  import opened Units
  import opened EncodedUnits

  /** Fixed parameters of a program as bytes, whatever they hold. */
  datatype Raw = Raw(minInst: byte, maxOps: byte, defaultStmt: byte, lineBase: byte, lineRange: byte, opcodeBase: byte)

  function SizeOf(dwarf64: bool): OffsetSize {
    if dwarf64 then 8 else 4
  }

  predicate FitsLength(dwarf64: bool, n: nat) {
    n < if dwarf64 then U64 else 0xffff_ffff
  }

  /** A unit with this body, and what follows it. */
  function Delimit(dwarf64: bool, body: Bytes, tail: Bytes): Bytes {
    EncodeLength(dwarf64, |body|) + (body + tail)
  }

  function WithVersion(dwarf64: bool, version: u16, addrSize: byte, headerLength: nat, header: Bytes): Bytes {
    EncodeVersion(version, addrSize) + (LeBytes(headerLength, SizeOf(dwarf64)) + header)
  }

  function EncodeRaw(version: u16, r: Raw): Bytes {
    [r.minInst] + (if version >= 4 then [r.maxOps] else [])
      + [r.defaultStmt, r.lineBase, r.lineRange, r.opcodeBase]
  }

  /** A length below two, or past the end of the section, ends the section. */
  lemma LengthRefused(dwarf64: bool, n: nat, rest: Bytes, sections: Sections, pool: Bytes)
    requires |pool| <= 262144 && FitsLength(dwarf64, n) && (n < 2 || n > |rest|)
    ensures ParseUnit(EncodeLength(dwarf64, n) + rest, sections, pool) == Unit(Rejected, [], pool, [])
  {
    hide EncodeLength, ReadUnitLength;
    LengthEncoded(dwarf64, n, rest);
  }

  /** Version 5 units with segment selectors are skipped, whatever else they hold. */
  lemma SegmentsSkipped(dwarf64: bool, addrSize: byte, segmentSize: byte, more: Bytes, tail: Bytes,
                        sections: Sections, pool: Bytes)
    requires |pool| <= 262144 && segmentSize != 0
    requires FitsLength(dwarf64, 4 + |more|)
    ensures ParseUnit(Delimit(dwarf64, [5, 0, addrSize, segmentSize] + more, tail), sections, pool)
         == Unit(Accepted, tail, pool, [])
  {
    hide EncodeLength, ReadUnitLength;
    var body := [5, 0, addrSize, segmentSize] + more;
    DelimitedBody(dwarf64, body, tail);
    var s, rest := body + tail, [addrSize, segmentSize] + (more + tail);
    assert s == [5, 0] + rest && s[..2] == [5, 0] && s[2..] == rest;
    FiveIs();
    assert rest[1..][0] == segmentSize;
  }

  lemma FiveIs()
    ensures LeValue([5, 0]) == 5
  {
    assert [5, 0][1..] == [0] && LeValue([0]) == 0;
  }

  lemma DelimitedBody(dwarf64: bool, body: Bytes, tail: Bytes)
    requires FitsLength(dwarf64, |body|)
    ensures var s := Delimit(dwarf64, body, tail);
      && ReadUnitLength(s) == Got(UnitLength(|body|, SizeOf(dwarf64)), body + tail)
      && (|body| >= 2 ==> Delimited(s) && AfterUnit(s) == tail)
  {
    hide EncodeLength, ReadUnitLength;
    LengthEncoded(dwarf64, |body|, body + tail);
    assert (body + tail)[|body|..] == tail;
  }

  lemma PrologueOf(dwarf64: bool, version: u16, addrSize: byte, headerLength: u64, header: Bytes, tail: Bytes)
    requires version != 5 ==> addrSize == 8
    requires headerLength < if dwarf64 then U64 else U32
    requires FitsLength(dwarf64, |WithVersion(dwarf64, version, addrSize, headerLength, header)|)
    ensures var s := Delimit(dwarf64, WithVersion(dwarf64, version, addrSize, headerLength, header), tail);
      && Delimited(s) && AfterUnit(s) == tail
      && ReadPrologue(s) == if headerLength > |header| then NoUnit else
           Prologue(version, SizeOf(dwarf64), addrSize, header + tail, (header + tail)[headerLength..])
  {
    hide EncodeLength, EncodeVersion, ReadUnitLength, ReadVersion, LeBytes, LeValue, Delimited;
    var size, body := SizeOf(dwarf64), WithVersion(dwarf64, version, addrSize, headerLength, header);
    VersionLength(version, addrSize);
    DelimitedBody(dwarf64, body, tail);
    var s1 := LeBytes(headerLength, size) + (header + tail);
    assert body + tail == EncodeVersion(version, addrSize) + s1;
    VersionEncoded(version, addrSize, s1);
    Pow256Words();
    LeOfEncoding(headerLength, size, header + tail);
  }

  /** A header length past the end of its unit ends the section. */
  lemma HeaderLengthRefused(dwarf64: bool, version: u16, addrSize: byte, headerLength: u64, header: Bytes, tail: Bytes,
                            sections: Sections, pool: Bytes)
    requires |pool| <= 262144 && (version != 5 ==> addrSize == 8)
    requires |header| < headerLength < if dwarf64 then U64 else U32
    requires FitsLength(dwarf64, |WithVersion(dwarf64, version, addrSize, headerLength, header)|)
    ensures var s := Delimit(dwarf64, WithVersion(dwarf64, version, addrSize, headerLength, header), tail);
      ParseUnit(s, sections, pool) == Unit(Rejected, [], pool, [])
  {
    hide ReadPrologue, WithVersion, Delimit, Tables, ReadParameters;
    PrologueOf(dwarf64, version, addrSize, headerLength, header, tail);
  }

  /** Without a minimum instruction length or operations per instruction the unit is skipped. Otherwise a line range
      or an opcode base of zero ends the section, as do operand counts that the section has no room for. */
  lemma ParametersRefused(dwarf64: bool, version: u16, addrSize: byte, headerLength: u64, raw: Raw, more: Bytes,
                          tail: Bytes, sections: Sections, pool: Bytes)
    requires |pool| <= 262144 && (version != 5 ==> addrSize == 8)
    requires var header := EncodeRaw(version, raw) + more;
      && headerLength <= |header|
      && FitsLength(dwarf64, |WithVersion(dwarf64, version, addrSize, headerLength, header)|)
    ensures var header := EncodeRaw(version, raw) + more;
      var u := ParseUnit(Delimit(dwarf64, WithVersion(dwarf64, version, addrSize, headerLength, header), tail),
                         sections, pool);
      var skipped := raw.minInst == 0 || (version >= 4 && raw.maxOps == 0);
      && (skipped ==> u == Unit(Accepted, tail, pool, []))
      && (!skipped && (raw.lineRange == 0 || raw.opcodeBase == 0 || |more + tail| < raw.opcodeBase - 1) ==>
            u == Unit(Rejected, [], pool, []))
  {
    hide ReadPrologue, WithVersion, Delimit, Tables, ReadParameters, EncodeRaw, Run, Delimited;
    var header := EncodeRaw(version, raw) + more;
    LengthBound(dwarf64, version, addrSize, headerLength, header);
    PrologueOf(dwarf64, version, addrSize, headerLength, header, tail);
    assert header + tail == EncodeRaw(version, raw) + (more + tail);
    RawRead(version, addrSize, raw, more + tail);
  }

  lemma LengthBound(dwarf64: bool, version: u16, addrSize: byte, headerLength: u64, header: Bytes)
    requires headerLength <= |header|
    requires FitsLength(dwarf64, |WithVersion(dwarf64, version, addrSize, headerLength, header)|)
    ensures headerLength < if dwarf64 then U64 else U32
  {
  }

  lemma RawRead(version: u16, addrSize: byte, raw: Raw, rest: Bytes)
    ensures var r := ReadParameters(version, addrSize, EncodeRaw(version, raw) + rest);
      if raw.minInst == 0 || (version >= 4 && raw.maxOps == 0) then r.Got? && r.value.Unusable?
      else r.Bad? <==> raw.lineRange == 0 || raw.opcodeBase == 0 || |rest| < raw.opcodeBase - 1
  {
    hide ReadOpcodes;
    var s2 := [raw.defaultStmt, raw.lineBase, raw.lineRange, raw.opcodeBase] + rest;
    var s := EncodeRaw(version, raw) + rest;
    if version >= 4 {
      assert s == [raw.minInst] + ([raw.maxOps] + s2);
      assert s[1..] == [raw.maxOps] + s2 && s[1..][1..] == s2;
    } else {
      assert s == [raw.minInst] + s2;
      assert s[1..] == s2;
    }
    OpcodesRead(raw, rest);
  }

  lemma OpcodesRead(raw: Raw, rest: Bytes)
    ensures var r := ReadOpcodes([raw.defaultStmt, raw.lineBase, raw.lineRange, raw.opcodeBase] + rest);
      && !r.Overread?
      && (r.Bad? <==> raw.lineRange == 0 || raw.opcodeBase == 0 || |rest| < raw.opcodeBase - 1)
  {
    var s := [raw.defaultStmt, raw.lineBase, raw.lineRange, raw.opcodeBase] + rest;
    assert s[1..][1..][1..][1..] == rest;
  }

  // ---- Instructions ----

  /** An operand ends within ten bytes. */
  predicate LebEnds(s: Bytes) {
    0 < LebLength(s) <= 10
  }

  /** A malformed operand of a known opcode ends the program; nothing else does. */
  lemma OperandStops(cfg: Config, op: byte, s: Bytes)
    requires 0 < op < cfg.opcodeBase
    ensures op == 2 || op == 3 || op == 4 ==> (Decode(cfg, [op] + s).Stop? <==> !LebEnds(s))
    ensures op == 9 ==> (Decode(cfg, [op] + s).Stop? <==> |s| < 2)
    ensures op !in {2, 3, 4, 9} ==> Decode(cfg, [op] + s).Decoded?
  {
    hide Uleb, Sleb, LebLength, ReadOperands, LeValue, UnsignedSum, SignedSum;
    UlebMeaning(s);
    SlebMeaning(s);
    assert ([op] + s)[1..] == s;
  }

  /** The operands of an opcode that is ignored are read up to the first malformed one, and the program goes on ten
      bytes into it. */
  lemma IgnoredOperands(cfg: Config, op: byte, operands: seq<u64>, s: Bytes)
    requires 0 < op < cfg.opcodeBase && op !in {1, 2, 3, 4, 8, 9}
    requires |operands| < cfg.stdLen[op - 1] && !LebEnds(s)
    ensures Decode(cfg, [op] + (EncodeOperands(operands) + s))
         == Decoded(Standard(op, operands), s[Min(|s|, 10)..], false)
  {
    hide ReadOperands, EncodeOperands, Uleb, Sleb, LebLength;
    OperandsBroken(cfg.stdLen[op - 1], operands, s);
    assert ([op] + (EncodeOperands(operands) + s))[1..] == EncodeOperands(operands) + s;
  }

  lemma {:induction false} OperandsBroken(n: nat, operands: seq<u64>, s: Bytes)
    requires |operands| < n && !LebEnds(s)
    ensures ReadOperands(n, EncodeOperands(operands) + s) == Operands(operands, s[Min(|s|, 10)..], false)
    decreases |operands|
  {
    hide EncodeUleb, Uleb, LebLength, UnsignedSum;
    if operands == [] {
      assert EncodeOperands(operands) + s == s;
      UlebMeaning(s);
    } else {
      var others := EncodeOperands(operands[1..]);
      UlebRoundTrip(operands[0], others + s);
      assert EncodeOperands(operands) + s == EncodeUleb(operands[0]) + (others + s);
      OperandsBroken(n - 1, operands[1..], s);
    }
  }

  /** An extended opcode of any length: where the program goes on depends on the length alone, and the address is read
      from behind the opcode, even past the length. A length of zero or past the section ends the program, as does an
      address of another size than four or eight bytes or past the section. */
  lemma ExtendedOpcode(cfg: Config, len: u64, body: Bytes)
    ensures var d, size := Decode(cfg, [0] + (EncodeUleb(len) + body)), cfg.addrSize;
      if len == 0 || |body| < len then d == Stop
      else if body[0] == 1 then d == Decoded(EndSequence, body[len..], true)
      else if body[0] != 2 then d == Decoded(Extended(body[0], body[1..len]), body[len..], true)
      else if (size != 4 && size != 8) || |body| < 1 + size then d == Stop
      else
        && LeValue(body[1..1 + size]) < U64
        && d == Decoded(SetAddress(LeValue(body[1..1 + size])), body[len..], true)
  {
    hide EncodeUleb, Uleb, LeValue;
    UlebRoundTrip(len, body);
    assert ([0] + (EncodeUleb(len) + body))[1..] == EncodeUleb(len) + body;
    var size := cfg.addrSize;
    if 0 < len <= |body| && body[0] == 2 && (size == 4 || size == 8) && |body| >= 1 + size {
      LeFits(body[1..], size);
      assert body[1..][..size] == body[1..1 + size];
    }
  }

  /** A malformed length ends the program too. */
  lemma ExtendedLengthStops(cfg: Config, s: Bytes)
    requires !LebEnds(s)
    ensures Decode(cfg, [0] + s) == Stop
  {
    hide Uleb, LebLength, UnsignedSum;
    UlebMeaning(s);
    assert ([0] + s)[1..] == s;
  }
}
