/** Line-number programs as producers write them: an encoder for abstract instructions, and the proof that
    the decoder recovers exactly the program that was encoded. */
module ProgramEncoding {
  import opened Bytes
  import opened Division
  import opened Leb128
  import opened LinePrograms

  /** Instructions that have an encoding under a header: an opcode below the base must be reachable, and an
      ignored standard opcode carries as many operands as the header declares. */
  predicate Encodable(cfg: Config, i: Instr) {
    match i
    case Special(opcode) => opcode >= cfg.opcodeBase
    case Copy => cfg.opcodeBase > 1
    case AdvancePc(_) => cfg.opcodeBase > 2
    case AdvanceLine(_) => cfg.opcodeBase > 3
    case SetFile(_) => cfg.opcodeBase > 4
    case ConstAddPc => cfg.opcodeBase > 8
    case FixedAdvancePc(_) => cfg.opcodeBase > 9
    case EndSequence => true
    case SetAddress(a) => cfg.addrSize == 8 || (cfg.addrSize == 4 && a < U32)
    case Standard(opcode, operands) =>
      && 0 < opcode < cfg.opcodeBase && opcode !in {1, 2, 3, 4, 8, 9}
      && |operands| == cfg.stdLen[opcode - 1]
    case Extended(opcode, payload) => opcode != 1 && opcode != 2 && 1 + |payload| < U64
  }

  function EncodeOperands(operands: seq<u64>): Bytes
    decreases |operands|
  {
    if operands == [] then [] else EncodeUleb(operands[0]) + EncodeOperands(operands[1..])
  }

  function EncodeExtended(opcode: byte, payload: Bytes): Bytes {
    [0] + (EncodeUleb(1 + |payload|) + ([opcode] + payload))
  }

  function Encode(cfg: Config, i: Instr): (s: Bytes)
    ensures s != []
  {
    match i
    case Special(opcode) => [opcode]
    case Copy => [1]
    case AdvancePc(n) => [2] + EncodeUleb(n)
    case AdvanceLine(d) => [3] + EncodeSleb(d)
    case SetFile(n) => [4] + EncodeUleb(n)
    case ConstAddPc => [8]
    case FixedAdvancePc(d) => [9] + LeBytes(d, 2)
    case EndSequence => EncodeExtended(1, [])
    case SetAddress(a) => EncodeExtended(2, LeBytes(a, cfg.addrSize))
    case Standard(opcode, operands) => [opcode] + EncodeOperands(operands)
    case Extended(opcode, payload) => EncodeExtended(opcode, payload)
  }

  function EncodeAll(cfg: Config, prog: seq<Instr>): Bytes
    decreases |prog|
  {
    if prog == [] then [] else Encode(cfg, prog[0]) + EncodeAll(cfg, prog[1..])
  }

  ghost predicate AllEncodable(cfg: Config, prog: seq<Instr>) {
    forall k | 0 <= k < |prog| :: Encodable(cfg, prog[k])
  }

  lemma {:induction false} OperandsRoundTrip(operands: seq<u64>, tail: Bytes)
    ensures ReadOperands(|operands|, EncodeOperands(operands) + tail) == Operands(operands, tail, true)
    decreases |operands|
  {
    hide EncodeUleb, Uleb;
    if operands != [] {
      var others := EncodeOperands(operands[1..]);
      UlebRoundTrip(operands[0], others + tail);
      assert EncodeOperands(operands) + tail == EncodeUleb(operands[0]) + (others + tail);
      OperandsRoundTrip(operands[1..], tail);
    } else {
      assert EncodeOperands(operands) + tail == tail;
    }
  }

  /** The decoder finds the opcode, the payload and the next instruction of an extended opcode. */
  lemma ExtendedFraming(opcode: byte, payload: Bytes, tail: Bytes)
    requires 1 + |payload| < U64
    ensures var s, body := EncodeExtended(opcode, payload) + tail, [opcode] + payload + tail;
      && s[0] == 0 && Uleb(s[1..]) == Got(1 + |payload|, body)
      && body[1 + |payload|..] == tail
      && body[1..1 + |payload|] == payload
      && body[1..] == payload + tail
  {
    hide EncodeUleb, Uleb;
    var len, body := 1 + |payload|, [opcode] + payload + tail;
    var s := EncodeExtended(opcode, payload) + tail;
    assert s[0] == 0 && s[1..] == EncodeUleb(len) + body;
    UlebRoundTrip(len, body);
  }

  lemma SetAddressRoundTrip(cfg: Config, a: u64, tail: Bytes)
    requires cfg.addrSize == 8 || (cfg.addrSize == 4 && a < U32)
    ensures Decode(cfg, EncodeExtended(2, LeBytes(a, cfg.addrSize)) + tail) == Decoded(SetAddress(a), tail, true)
  {
    hide EncodeUleb, Uleb, LeValue, LeBytes, EncodeExtended;
    ExtendedFraming(2, LeBytes(a, cfg.addrSize), tail);
    Pow256Words();
    LeOfEncoding(a, cfg.addrSize, tail);
  }

  lemma ExtendedRoundTrip(cfg: Config, opcode: byte, payload: Bytes, tail: Bytes)
    requires 1 + |payload| < U64 && opcode != 2
    requires opcode == 1 ==> payload == []
    ensures Decode(cfg, EncodeExtended(opcode, payload) + tail)
         == Decoded(if opcode == 1 then EndSequence else Extended(opcode, payload), tail, true)
  {
    hide EncodeUleb, Uleb, EncodeExtended;
    ExtendedFraming(opcode, payload, tail);
  }

  lemma UlebOperandRoundTrip(cfg: Config, i: Instr, n: u64, tail: Bytes)
    requires Encodable(cfg, i) && (i == AdvancePc(n) || i == SetFile(n))
    ensures Decode(cfg, Encode(cfg, i) + tail) == Decoded(i, tail, true)
  {
    hide EncodeUleb, Uleb, DecodeExtended, ReadOperands, Le;
    UlebRoundTrip(n, tail);
    assert (Encode(cfg, i) + tail)[1..] == EncodeUleb(n) + tail;
  }

  lemma SlebOperandRoundTrip(cfg: Config, d: i64, tail: Bytes)
    requires Encodable(cfg, AdvanceLine(d))
    ensures Decode(cfg, Encode(cfg, AdvanceLine(d)) + tail) == Decoded(AdvanceLine(d), tail, true)
  {
    hide EncodeSleb, Sleb, Uleb, DecodeExtended, ReadOperands, Le;
    SlebRoundTrip(d, tail);
    assert (Encode(cfg, AdvanceLine(d)) + tail)[1..] == EncodeSleb(d) + tail;
  }

  lemma FixedOperandRoundTrip(cfg: Config, d: u16, tail: Bytes)
    requires Encodable(cfg, FixedAdvancePc(d))
    ensures Decode(cfg, Encode(cfg, FixedAdvancePc(d)) + tail) == Decoded(FixedAdvancePc(d), tail, true)
  {
    hide LeValue, LeBytes, Sleb, Uleb, DecodeExtended, ReadOperands;
    Pow256Words();
    LeOfEncoding(d, 2, tail);
    assert (Encode(cfg, FixedAdvancePc(d)) + tail)[1..] == LeBytes(d, 2) + tail;
  }

  lemma StandardRoundTrip(cfg: Config, opcode: byte, operands: seq<u64>, tail: Bytes)
    requires Encodable(cfg, Standard(opcode, operands))
    ensures Decode(cfg, Encode(cfg, Standard(opcode, operands)) + tail)
         == Decoded(Standard(opcode, operands), tail, true)
  {
    hide Le, Sleb, Uleb, DecodeExtended, ReadOperands, EncodeOperands;
    OperandsRoundTrip(operands, tail);
    assert (Encode(cfg, Standard(opcode, operands)) + tail)[1..] == EncodeOperands(operands) + tail;
  }

  lemma PlainRoundTrip(cfg: Config, i: Instr, tail: Bytes)
    requires Encodable(cfg, i) && (i.Special? || i.Copy? || i.ConstAddPc?)
    ensures Decode(cfg, Encode(cfg, i) + tail) == Decoded(i, tail, true)
  {
    hide Le, Sleb, Uleb, DecodeExtended, ReadOperands;
    assert (Encode(cfg, i) + tail)[1..] == tail;
  }

  /** Decoding undoes encoding, whatever follows. */
  lemma DecodeEncoded(cfg: Config, i: Instr, tail: Bytes)
    requires Encodable(cfg, i)
    ensures Decode(cfg, Encode(cfg, i) + tail) == Decoded(i, tail, true)
  {
    hide Decode, EncodeExtended, LeBytes, EncodeUleb, EncodeSleb, EncodeOperands;
    match i
    case AdvancePc(n) => UlebOperandRoundTrip(cfg, i, n, tail);
    case AdvanceLine(d) => SlebOperandRoundTrip(cfg, d, tail);
    case SetFile(n) => UlebOperandRoundTrip(cfg, i, n, tail);
    case FixedAdvancePc(d) => FixedOperandRoundTrip(cfg, d, tail);
    case EndSequence => ExtendedRoundTrip(cfg, 1, [], tail);
    case SetAddress(a) => SetAddressRoundTrip(cfg, a, tail);
    case Standard(opcode, operands) => StandardRoundTrip(cfg, opcode, operands, tail);
    case Extended(opcode, payload) => ExtendedRoundTrip(cfg, opcode, payload, tail);
    case _ => PlainRoundTrip(cfg, i, tail);
  }

  /** The loop executes exactly the program that was encoded, and stops at the end of the unit. */
  lemma {:induction false} DisassembleEncoded(cfg: Config, prog: seq<Instr>, tail: Bytes)
    requires AllEncodable(cfg, prog)
    ensures Disassemble(cfg, EncodeAll(cfg, prog) + tail, |tail|) == prog
    decreases |prog|
  {
    hide Encode, Decode, Encodable;
    if prog == [] {
      assert EncodeAll(cfg, prog) + tail == tail;
    } else {
      var others := EncodeAll(cfg, prog[1..]);
      assert EncodeAll(cfg, prog) + tail == Encode(cfg, prog[0]) + (others + tail);
      assert forall k | 0 <= k < |prog[1..]| :: prog[1..][k] == prog[k + 1];
      DecodeEncoded(cfg, prog[0], others + tail);
      DisassembleEncoded(cfg, prog[1..], tail);
    }
  }

  lemma EncodableExecutable(cfg: Config, prog: seq<Instr>)
    requires AllEncodable(cfg, prog)
    ensures Executable(cfg, prog)
  {
    forall k | 0 <= k < |prog| && prog[k].Special?
      ensures prog[k].opcode >= cfg.opcodeBase
    {
      assert Encodable(cfg, prog[k]);
    }
  }

  /** For every encodable program, the byte-level run ends with the registers and the rows, in order, of the
      abstract program. */
  lemma RunOfEncoded(cfg: Config, files: Files, prog: seq<Instr>, tail: Bytes, r: Regs)
    requires AllEncodable(cfg, prog)
    ensures Executable(cfg, prog)
    ensures Run(cfg, files, EncodeAll(cfg, prog) + tail, |tail|, r) == ExecAll(cfg, files, prog, r)
  {
    EncodableExecutable(cfg, prog);
    DisassembleEncoded(cfg, prog, tail);
  }

  /** Conversely, every instruction decoded from well-formed operands has an encoding. */
  lemma DecodedEncodable(cfg: Config, s: Bytes)
    requires s != [] && Decode(cfg, s).Decoded? && Decode(cfg, s).complete
    requires |s| < U64
    ensures Encodable(cfg, Decode(cfg, s).instr)
  {
    hide Uleb, Sleb, LeValue;
    if s[0] == 0 {
      var body := Uleb(s[1..]).rest;
      if body[0] == 2 {
        LeFits(body[1..], cfg.addrSize);
      }
    }
  }

  lemma {:induction false} IntactEncodable(cfg: Config, s: Bytes, end: nat)
    requires Intact(cfg, s, end) && |s| < U64
    ensures AllEncodable(cfg, Disassemble(cfg, s, end))
    decreases |s|
  {
    hide Decode, Encodable;
    if |s| > end && Decode(cfg, s).Decoded? {
      DecodedEncodable(cfg, s);
      IntactEncodable(cfg, Decode(cfg, s).rest, end);
    }
  }

  /** Decoding any program with well-formed operands, however they were padded and wherever it breaks off, and
      encoding it again canonically changes neither the registers nor a single row. */
  lemma ReencodedProgramSameRun(cfg: Config, files: Files, s: Bytes, end: nat, tail: Bytes, r: Regs)
    requires Intact(cfg, s, end) && |s| < U64
    ensures Run(cfg, files, EncodeAll(cfg, Disassemble(cfg, s, end)) + tail, |tail|, r) == Run(cfg, files, s, end, r)
  {
    IntactEncodable(cfg, s, end);
    RunOfEncoded(cfg, files, Disassemble(cfg, s, end), tail, r);
  }

  // ---- Meaning-preserving expansion ----

  /** A special opcode, or `const_add_pc`, spelled out with the plain opcodes. */
  function ExpandOne(cfg: Config, i: Instr): seq<Instr>
    requires i.Special? ==> i.opcode >= cfg.opcodeBase
  {
    match i
    case Special(opcode) =>
      [AdvancePc(OpAdvance(cfg, opcode)), AdvanceLine(LineDelta(cfg, opcode)), Copy]
    case ConstAddPc => [AdvancePc(OpAdvance(cfg, 255))]
    case _ => [i]
  }

  function Expand(cfg: Config, prog: seq<Instr>): (e: seq<Instr>)
    requires Executable(cfg, prog)
    ensures Executable(cfg, e)
    ensures forall k | 0 <= k < |e| :: !e[k].Special? && !e[k].ConstAddPc?
    decreases |prog|
  {
    if prog == [] then [] else ExpandOne(cfg, prog[0]) + Expand(cfg, prog[1..])
  }

  lemma {:induction false} ExecAppend(cfg: Config, files: Files, a: seq<Instr>, b: seq<Instr>, r: Regs)
    requires Executable(cfg, a) && Executable(cfg, b)
    ensures Executable(cfg, a + b)
    ensures var first := ExecAll(cfg, files, a, r);
      var second := ExecAll(cfg, files, b, first.regs);
      ExecAll(cfg, files, a + b, r) == Step(second.regs, first.rows + second.rows)
    decreases |a|
  {
    hide Exec;
    if a == [] {
      assert a + b == b;
    } else {
      assert (a + b)[1..] == a[1..] + b;
      ExecAppend(cfg, files, a[1..], b, Exec(cfg, files, a[0], r).regs);
    }
  }

  lemma ExecOne(cfg: Config, files: Files, i: Instr, r: Regs)
    requires i.Special? ==> i.opcode >= cfg.opcodeBase
    ensures Executable(cfg, [i]) && ExecAll(cfg, files, [i], r) == Exec(cfg, files, i, r)
  {
    hide Exec;
    assert [i][1..] == [];
  }

  lemma ExpandOneMeaning(cfg: Config, files: Files, i: Instr, r: Regs)
    requires i.Special? ==> i.opcode >= cfg.opcodeBase
    ensures Executable(cfg, ExpandOne(cfg, i))
    ensures ExecAll(cfg, files, ExpandOne(cfg, i), r) == Exec(cfg, files, i, r)
  {
    hide Advance, MoveLine, RowOf, OpAdvance, LineDelta;
    var e := ExpandOne(cfg, i);
    if i.Special? {
      var r1 := Advance(cfg, r, OpAdvance(cfg, i.opcode));
      var r2 := MoveLine(r1, LineDelta(cfg, i.opcode));
      ExecOne(cfg, files, Copy, r2);
      assert e[1..][1..] == [Copy];
      assert ExecAll(cfg, files, e[1..], r1) == ExecAll(cfg, files, [Copy], r2);
      assert ExecAll(cfg, files, e, r) == ExecAll(cfg, files, e[1..], r1);
    } else {
      ExecOne(cfg, files, e[0], r);
      assert e == [e[0]];
    }
  }

  /** Expansion changes neither the registers nor a single row. */
  lemma {:induction false} ExpandMeaning(cfg: Config, files: Files, prog: seq<Instr>, r: Regs)
    requires Executable(cfg, prog)
    ensures ExecAll(cfg, files, Expand(cfg, prog), r) == ExecAll(cfg, files, prog, r)
    decreases |prog|
  {
    hide Exec, ExpandOne;
    if prog != [] {
      var first := Exec(cfg, files, prog[0], r);
      ExpandOneMeaning(cfg, files, prog[0], r);
      ExpandMeaning(cfg, files, prog[1..], first.regs);
      ExecAppend(cfg, files, ExpandOne(cfg, prog[0]), Expand(cfg, prog[1..]), r);
    }
  }

  lemma {:induction false} ExpandEncodable(cfg: Config, prog: seq<Instr>)
    requires AllEncodable(cfg, prog) && cfg.opcodeBase >= 4
    ensures Executable(cfg, prog) && AllEncodable(cfg, Expand(cfg, prog))
    decreases |prog|
  {
    EncodableExecutable(cfg, prog);
    if prog != [] {
      forall k | 0 <= k < |prog[1..]|
        ensures Encodable(cfg, prog[1..][k])
      {
        assert prog[1..][k] == prog[k + 1];
      }
      ExpandEncodable(cfg, prog[1..]);
      assert Encodable(cfg, prog[0]);
    }
  }

  /** On bytes: the expanded program, encoded, yields the table of the original, encoded. */
  lemma ExpandedBytesSameRows(cfg: Config, files: Files, prog: seq<Instr>, tail: Bytes, r: Regs)
    requires AllEncodable(cfg, prog) && cfg.opcodeBase >= 4
    ensures Executable(cfg, prog)
    ensures Run(cfg, files, EncodeAll(cfg, Expand(cfg, prog)) + tail, |tail|, r)
         == Run(cfg, files, EncodeAll(cfg, prog) + tail, |tail|, r)
  {
    ExpandEncodable(cfg, prog);
    RunOfEncoded(cfg, files, prog, tail, r);
    RunOfEncoded(cfg, files, Expand(cfg, prog), tail, r);
    ExpandMeaning(cfg, files, prog, r);
  }

  /** The same for any program with well-formed operands as it stands in a section. */
  lemma ExpandedProgramSameRows(cfg: Config, files: Files, s: Bytes, end: nat, tail: Bytes, r: Regs)
    requires Intact(cfg, s, end) && |s| < U64 && cfg.opcodeBase >= 4
    ensures Run(cfg, files, EncodeAll(cfg, Expand(cfg, Disassemble(cfg, s, end))) + tail, |tail|, r)
         == Run(cfg, files, s, end, r)
  {
    var prog := Disassemble(cfg, s, end);
    IntactEncodable(cfg, s, end);
    ExpandedBytesSameRows(cfg, files, prog, tail, r);
    ReencodedProgramSameRun(cfg, files, s, end, tail, r);
  }

  // ---- Choosing a special opcode ----

  /** The opcode a producer computes for a line increment and an operation advance. */
  function SpecialOpcode(cfg: Config, lineDelta: int, opAdvance: nat): int {
    (lineDelta - cfg.lineBase) + cfg.lineRange * opAdvance + cfg.opcodeBase
  }

  predicate Representable(cfg: Config, lineDelta: int, opAdvance: nat) {
    && cfg.lineBase <= lineDelta < cfg.lineBase + cfg.lineRange
    && SpecialOpcode(cfg, lineDelta, opAdvance) <= 255
  }

  /** A representable pair decodes back to exactly that pair. */
  lemma SpecialOpcodeDecodes(cfg: Config, lineDelta: int, opAdvance: nat)
    requires Representable(cfg, lineDelta, opAdvance)
    ensures var op := SpecialOpcode(cfg, lineDelta, opAdvance);
      && cfg.opcodeBase <= op
      && OpAdvance(cfg, op) == opAdvance && LineDelta(cfg, op) == lineDelta
  {
    var m := lineDelta - cfg.lineBase;
    assert cfg.lineRange * opAdvance >= 0;
    QuotientUnique(m + cfg.lineRange * opAdvance, opAdvance, m, cfg.lineRange);
    assert SpecialOpcode(cfg, lineDelta, opAdvance) - cfg.opcodeBase == m + cfg.lineRange * opAdvance;
  }

  /** Every special opcode stands for a representable pair, the one it was built from. */
  lemma SpecialOpcodeOnto(cfg: Config, opcode: byte)
    requires opcode >= cfg.opcodeBase
    ensures Representable(cfg, LineDelta(cfg, opcode), OpAdvance(cfg, opcode))
    ensures SpecialOpcode(cfg, LineDelta(cfg, opcode), OpAdvance(cfg, opcode)) == opcode
  {
    var x := opcode - cfg.opcodeBase;
    assert x == cfg.lineRange * (x / cfg.lineRange) + x % cfg.lineRange;
  }
}
