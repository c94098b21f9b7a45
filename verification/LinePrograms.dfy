/** The line-number program: abstract instructions, their meaning (sections 6.2.2 and 6.2.5.1-6.2.5.3 of
    the DWARF 5 standard, as this decoder treats them), their byte form, and the interpreter loop. */
module LinePrograms {
  import opened Bytes
  import opened Leb128
  import opened Cursors
  import opened LineTables

  /** The header fields the program depends on. `stdLen[k]` is the operand count of opcode `k + 1`. */
  datatype ConfigFields = Config(
    minInst: byte, maxOps: byte, lineBase: int, lineRange: byte, opcodeBase: byte, stdLen: Bytes, addrSize: byte)
  {
    predicate Valid() {
      && minInst > 0 && maxOps > 0 && lineRange > 0 && opcodeBase > 0
      && -128 <= lineBase <= 127
      && |stdLen| == opcodeBase - 1
    }
  }

  type Config = c: ConfigFields | c.Valid() witness Config(1, 1, 0, 1, 1, [], 8)

  /** Offsets of file names in the pool, by file index; -1 stands for no name. */
  type Files = f: seq<int> | forall k | 0 <= k < |f| :: f[k] < STR_MAX

  datatype Regs = Regs(address: u64, opIndex: u64, fileIdx: u64, line: u64)

  const INITIAL := Regs(0, 0, 1, 1)

  datatype Instr =
    | Special(opcode: byte)
    | Copy
    | AdvancePc(operations: u64)
    | AdvanceLine(delta: i64)
    | SetFile(index: u64)
    | ConstAddPc
    | FixedAdvancePc(bytes: u16)
    | EndSequence
    | SetAddress(target: u64)
    | Standard(opcode: byte, operands: seq<u64>)  // operands read and ignored
    | Extended(opcode: byte, payload: Bytes)      // payload skipped

  // ---- Meaning ----

  /** Bytes from the start of an instruction to the one that holds operation `n`. */
  function OperationBytes(cfg: Config, n: nat): int {
    cfg.minInst * (n / cfg.maxOps)
  }

  /** Moves the operation pointer by `n` operations. */
  function Advance(cfg: Config, r: Regs, n: u64): Regs {
    var ops := Wrap(r.opIndex + n);
    r.(address := Wrap(r.address + OperationBytes(cfg, ops)), opIndex := ops % cfg.maxOps)
  }

  function MoveLine(r: Regs, delta: int): Regs {
    r.(line := Wrap(r.line + delta))
  }

  /** Operation advance and line increment of a special opcode. */
  function OpAdvance(cfg: Config, opcode: byte): (n: u64)
    requires opcode >= cfg.opcodeBase
  {
    (opcode - cfg.opcodeBase) / cfg.lineRange
  }

  function LineDelta(cfg: Config, opcode: byte): (d: int)
    requires opcode >= cfg.opcodeBase
    ensures -128 <= d < 383
  {
    cfg.lineBase + (opcode - cfg.opcodeBase) % cfg.lineRange
  }

  /** The row the current registers describe, if it is one the table accepts. */
  function RowOf(files: Files, r: Regs): seq<Row> {
    if r.fileIdx < |files| then Emitted(r.address, files[r.fileIdx], r.line) else []
  }

  datatype Step = Step(regs: Regs, rows: seq<Row>)

  function Exec(cfg: Config, files: Files, i: Instr, r: Regs): Step
    requires i.Special? ==> i.opcode >= cfg.opcodeBase
  {
    match i
    case Special(opcode) =>
      var r' := MoveLine(Advance(cfg, r, OpAdvance(cfg, opcode)), LineDelta(cfg, opcode));
      Step(r', RowOf(files, r'))
    case Copy => Step(r, RowOf(files, r))
    case AdvancePc(n) => Step(Advance(cfg, r, n), [])
    case AdvanceLine(d) => Step(MoveLine(r, d), [])
    case SetFile(n) => Step(r.(fileIdx := n), [])
    case ConstAddPc => Step(Advance(cfg, r, OpAdvance(cfg, 255)), [])
    case FixedAdvancePc(d) => Step(r.(address := Wrap(r.address + d), opIndex := 0), [])
    case EndSequence => Step(INITIAL, [])
    case SetAddress(a) => Step(r.(address := a, opIndex := 0), [])
    case Standard(_, _) => Step(r, [])
    case Extended(_, _) => Step(r, [])
  }

  predicate AppendsRow(i: Instr) {
    i.Special? || i.Copy?
  }

  /** Special opcodes start at the opcode base. */
  predicate Executable(cfg: Config, prog: seq<Instr>) {
    forall k | 0 <= k < |prog| :: prog[k].Special? ==> prog[k].opcode >= cfg.opcodeBase
  }

  /** Registers after a program, and every row it emits, in order and without any limit on their number. */
  function ExecAll(cfg: Config, files: Files, prog: seq<Instr>, r: Regs): Step
    requires Executable(cfg, prog)
    decreases |prog|
  {
    if prog == [] then Step(r, []) else
    var first := Exec(cfg, files, prog[0], r);
    var others := ExecAll(cfg, files, prog[1..], first.regs);
    Step(others.regs, first.rows + others.rows)
  }

  // ---- From bytes to instructions ----

  /** Operands of an ignored standard opcode. Reading stops at the first malformed one, and the program
      goes on from where that left the cursor. */
  datatype Operands = Operands(values: seq<u64>, rest: Bytes, complete: bool)

  function ReadOperands(n: nat, s: Bytes): (o: Operands)
    ensures |o.rest| <= |s|
    ensures o.complete <==> |o.values| == n
    decreases n
  {
    if n == 0 then Operands([], s, true) else
    match Uleb(s)
    case Got(v, s1) =>
      var o := ReadOperands(n - 1, s1);
      Operands([v] + o.values, o.rest, o.complete)
    case Bad(s1) => Operands([], s1, false)
  }

  /** One instruction, or `Stop` where the loop breaks. `complete` tells whether every operand was read. */
  datatype Decoded = Decoded(instr: Instr, rest: Bytes, complete: bool) | Stop

  function DecodeExtended(cfg: Config, s: Bytes): (d: Decoded)
    ensures d.Decoded? ==> |d.rest| < |s| && !d.instr.Special? && !d.instr.Copy?
  {
    match Uleb(s)
    case Bad(_) => Stop
    case Got(len, body) =>
      if len == 0 || |body| < len then Stop else
      var next := body[len..];
      if body[0] == 1 then Decoded(EndSequence, next, true)
      else if body[0] == 2 then
        if cfg.addrSize != 8 && cfg.addrSize != 4 then Stop
        else match Le(body[1..], cfg.addrSize)
          case Got(a, _) =>
            LeFits(body[1..], cfg.addrSize);
            Decoded(SetAddress(a), next, true)
          case _ => Stop
      else Decoded(Extended(body[0], body[1..len]), next, true)
  }

  lemma LeFits(s: Bytes, n: nat)
    requires n <= |s| && (n == 8 || n == 4 || n == 2)
    ensures LeValue(s[..n]) < Pow256(n) <= U64
    ensures n == 4 ==> LeValue(s[..n]) < U32
    ensures n == 2 ==> LeValue(s[..n]) < U16
  {
    LeBound(s[..n]);
    Pow256Words();
  }

  function Decode(cfg: Config, s: Bytes): (d: Decoded)
    requires s != []
    ensures d.Decoded? ==> |d.rest| < |s|
    ensures d.Decoded? && d.instr.Special? ==> d.instr.opcode >= cfg.opcodeBase
  {
    var op, s1 := s[0], s[1..];
    if op == 0 then DecodeExtended(cfg, s1)
    else if op >= cfg.opcodeBase then Decoded(Special(op), s1, true)
    else if op == 1 then Decoded(Copy, s1, true)
    else if op == 2 then
      match Uleb(s1)
      case Got(n, s2) => Decoded(AdvancePc(n), s2, true)
      case Bad(_) => Stop
    else if op == 3 then
      match Sleb(s1)
      case Got(d, s2) => Decoded(AdvanceLine(d), s2, true)
      case Bad(_) => Stop
    else if op == 4 then
      match Uleb(s1)
      case Got(n, s2) => Decoded(SetFile(n), s2, true)
      case Bad(_) => Stop
    else if op == 8 then Decoded(ConstAddPc, s1, true)
    else if op == 9 then
      match Le(s1, 2)
      case Got(d, s2) =>
        LeFits(s1, 2);
        Decoded(FixedAdvancePc(d), s2, true)
      case _ => Stop
    else
      var o := ReadOperands(cfg.stdLen[op - 1], s1);
      Decoded(Standard(op, o.values), o.rest, o.complete)
  }

  /** The instructions the loop executes over `s` until `tail` bytes of the section remain. An instruction
      may read past that point; none starts there. */
  function Disassemble(cfg: Config, s: Bytes, tail: nat): (prog: seq<Instr>)
    ensures Executable(cfg, prog)
    decreases |s|
  {
    if |s| <= tail then [] else
    match Decode(cfg, s)
    case Stop => []
    case Decoded(i, rest, _) => [i] + Disassemble(cfg, rest, tail)
  }

  /** Every operand of every instruction the loop executes is well formed. It may end by breaking. */
  predicate Intact(cfg: Config, s: Bytes, tail: nat)
    decreases |s|
  {
    |s| <= tail ||
    match Decode(cfg, s)
    case Stop => true
    case Decoded(_, rest, complete) => complete && Intact(cfg, rest, tail)
  }

  function Run(cfg: Config, files: Files, s: Bytes, tail: nat, r: Regs): Step {
    ExecAll(cfg, files, Disassemble(cfg, s, tail), r)
  }

  lemma RunStep(cfg: Config, files: Files, s: Bytes, tail: nat, r: Regs)
    requires |s| > tail
    ensures match Decode(cfg, s)
      case Stop => Run(cfg, files, s, tail, r) == Step(r, [])
      case Decoded(i, rest, _) =>
        var first := Exec(cfg, files, i, r);
        var others := Run(cfg, files, rest, tail, first.regs);
        Run(cfg, files, s, tail, r) == Step(others.regs, first.rows + others.rows)
  {
    hide Decode, Exec;
    var d := Decode(cfg, s);
    if d.Decoded? {
      var prog := Disassemble(cfg, s, tail);
      assert prog[0] == d.instr;
      assert prog[1..] == Disassemble(cfg, d.rest, tail);
    }
  }

  // ---- The interpreter ----

  /** What one turn of the loop has to do, for the instruction at the front of `s`. */
  ghost predicate Performs(cfg: Config, files: Files, s: Bytes, r: Regs, before: seq<Row>,
                           stop: bool, rest: Bytes, r': Regs, after: seq<Row>)
    requires s != []
  {
    match Decode(cfg, s)
    case Stop => stop && after == before
    case Decoded(i, next, _) =>
      var step := Exec(cfg, files, i, r);
      !stop && rest == next && r' == step.regs && after == Capped(before + step.rows)
  }

  /** The operand of `set_address`, when it is of a size the decoder reads. */
  method ReadAddress(c: Cursor, cfg: Config) returns (ok: bool, addr: u64)
    requires c.Valid()
    modifies c`p
    ensures c.Valid()
    ensures ok <==> (cfg.addrSize == 8 || cfg.addrSize == 4) && Le(old(c.Rest()), cfg.addrSize).Got?
    ensures ok ==> addr == Le(old(c.Rest()), cfg.addrSize).value
  {
    hide LeValue;
    ghost var s := c.Rest();
    addr := 0;
    ok := false;
    if cfg.addrSize == 8 || cfg.addrSize == 4 {
      var w;
      ok, w := c.Word(cfg.addrSize);
      if ok {
        LeFits(s, cfg.addrSize);
        addr := w;
      }
    }
  }

  method StepExtended(c: Cursor, cfg: Config, r: Regs) returns (stop: bool, r': Regs)
    requires c.Valid()
    modifies c`p
    ensures c.Valid()
    ensures match DecodeExtended(cfg, old(c.Rest()))
      case Stop => stop
      case Decoded(i, next, _) => !stop && c.Rest() == next && r' == Exec(cfg, [], i, r).regs
    ensures match DecodeExtended(cfg, old(c.Rest()))
      case Stop => true
      case Decoded(i, _, _) => Exec(cfg, [], i, r).rows == []
  {
    hide Uleb, LeValue;
    r' := r;
    var ok, insnLen := c.ReadUleb();
    if !ok || insnLen == 0 || !c.Ok(insnLen) {
      return true, r;
    }
    ghost var body := c.Rest();
    var insnEnd := c.p + insnLen;
    var ext;
    ok, ext := c.U8();
    if ext == 1 {
      r' := INITIAL;
    } else if ext == 2 {
      var addr;
      ok, addr := ReadAddress(c, cfg);
      if !ok {
        return true, r;
      }
      r' := r.(address := addr, opIndex := 0);
    }
    c.p := insnEnd;
    assert c.Rest() == body[insnLen..];
    return false, r';
  }

  /** The opcodes the decoder only skips. */
  method SkipOperands(c: Cursor, n: nat) returns (ghost o: Operands)
    requires c.Valid()
    modifies c`p
    ensures c.Valid()
    ensures o == ReadOperands(n, old(c.Rest())) && c.Rest() == o.rest
  {
    hide Uleb;
    var a, ok, dummy := 0, true, 0;
    ghost var start := c.Rest();
    ghost var values: seq<u64> := [];
    while a < n
      invariant c.Valid() && a <= n && |values| == a
      invariant ReadOperands(n, start)
             == Operands(values + ReadOperands(n - a, c.Rest()).values, ReadOperands(n - a, c.Rest()).rest,
                         ReadOperands(n - a, c.Rest()).complete)
    {
      ok, dummy := c.ReadUleb();
      if !ok {
        return ReadOperands(n, start);
      }
      values := values + [dummy];
      a := a + 1;
    }
    return ReadOperands(n, start);
  }

  method StepStandard(c: Cursor, cfg: Config, op: byte, r: Regs) returns (stop: bool, r': Regs)
    requires c.Valid() && c.p > 0 && c.data[c.p - 1] == op
    requires 1 < op < cfg.opcodeBase
    modifies c`p
    ensures c.Valid()
    ensures Performs(cfg, [], [op] + old(c.Rest()), r, [], stop, c.Rest(), r', [])
  {
    hide Uleb, Sleb, LeValue, Advance, MoveLine;
    var ok;
    r' := r;
    ghost var s := [op] + c.Rest();
    assert s[1..] == c.Rest();
    if op == 2 {
      var opAdvance;
      ok, opAdvance := c.ReadUleb();
      if !ok {
        return true, r;
      }
      r' := Advance(cfg, r, opAdvance);
    } else if op == 3 {
      var d;
      ok, d := c.ReadSleb();
      if !ok {
        return true, r;
      }
      r' := MoveLine(r, d);
    } else if op == 4 {
      var index;
      ok, index := c.ReadUleb();
      if !ok {
        return true, r;
      }
      r' := r.(fileIdx := index);
    } else if op == 8 {
      r' := Advance(cfg, r, OpAdvance(cfg, 255));
    } else if op == 9 {
      var d;
      ok, d := c.Word(2);
      if !ok {
        return true, r;
      }
      LeFits(old(c.Rest()), 2);
      r' := r.(address := Wrap(r.address + d), opIndex := 0);
    } else {
      ghost var o := SkipOperands(c, cfg.stdLen[op - 1]);
    }
    return false, r';
  }

  /** One turn of the loop of `bw_parse_unit`. */
  method StepOne(c: Cursor, tab: LineTable, cfg: Config, files: Files, r: Regs) returns (stop: bool, r': Regs)
    requires c.Valid() && tab.Valid() && c.Rest() != []
    modifies c`p, tab`nrow, tab.rows
    ensures c.Valid() && tab.Valid()
    ensures Performs(cfg, files, old(c.Rest()), r, old(tab.Rows()), stop, c.Rest(), r', tab.Rows())
  {
    hide DecodeExtended, Advance, MoveLine, Emitted;
    ghost var s, before := c.Rest(), tab.Rows();
    var ok, op := c.U8();
    assert s == [op] + s[1..];
    if op == 0 {
      stop, r' := StepExtended(c, cfg, r);
    } else if op >= cfg.opcodeBase {
      r' := MoveLine(Advance(cfg, r, OpAdvance(cfg, op)), LineDelta(cfg, op));
      if r'.fileIdx < |files| {
        tab.Emit(r'.address, files[r'.fileIdx], r'.line);
      }
      stop := false;
    } else if op == 1 {
      r' := r;
      if r.fileIdx < |files| {
        tab.Emit(r.address, files[r.fileIdx], r.line);
      }
      stop := false;
    } else {
      stop, r' := StepStandard(c, cfg, op, r);
    }
    assert Capped(before + []) == before by {
      assert before + [] == before;
    }
  }

  /** The loop of `bw_parse_unit`: whatever the bytes, it appends to the table the rows of the program they
      disassemble to, in order, up to the capacity of the table, and ends with the registers of that program. */
  method RunProgram(c: Cursor, tab: LineTable, cfg: Config, files: Files, unitEnd: nat) returns (ghost final: Regs)
    requires c.Valid() && tab.Valid() && unitEnd <= |c.data|
    modifies c`p, tab`nrow, tab.rows
    ensures c.Valid() && tab.Valid()
    ensures var run := Run(cfg, files, old(c.Rest()), |c.data| - unitEnd, INITIAL);
      tab.Rows() == Capped(old(tab.Rows()) + run.rows) && final == run.regs
  {
    hide Run, Performs, Decode, Exec, Capped;
    ghost var before, tail, start := tab.Rows(), |c.data| - unitEnd, c.Rest();
    ghost var total := Run(cfg, files, start, tail, INITIAL);
    ghost var done: seq<Row> := [];
    var r := INITIAL;
    NothingAppended(before);
    assert [] + total.rows == total.rows;
    while c.p < unitEnd
      invariant c.Valid() && tab.Valid()
      invariant tab.Rows() == Capped(before + done)
      invariant done + Run(cfg, files, c.Rest(), tail, r).rows == total.rows
      invariant Run(cfg, files, c.Rest(), tail, r).regs == total.regs
      decreases |c.Rest()|
    {
      ghost var s, rows := c.Rest(), tab.Rows();
      RunStep(cfg, files, s, tail, r);
      var stop, r' := StepOne(c, tab, cfg, files, r);
      PerformsMeans(cfg, files, s, r, rows, stop, c.Rest(), r', tab.Rows());
      if stop {
        assert done + [] == done;
        return r;
      }
      ghost var step := Exec(cfg, files, Decode(cfg, s).instr, r);
      CappedAppend(before + done, step.rows);
      assert (before + done) + step.rows == before + (done + step.rows);
      assert done + (step.rows + Run(cfg, files, c.Rest(), tail, r').rows)
          == (done + step.rows) + Run(cfg, files, c.Rest(), tail, r').rows;
      done := done + step.rows;
      r := r';
    }
    RunEnd(cfg, files, c.Rest(), tail, r);
    assert done + [] == done;
    return r;
  }

  lemma NothingAppended(rows: seq<Row>)
    requires |rows| <= ROW_MAX
    ensures Capped(rows + []) == rows
  {
    assert rows + [] == rows;
  }

  lemma RunEnd(cfg: Config, files: Files, s: Bytes, tail: nat, r: Regs)
    requires |s| <= tail
    ensures Run(cfg, files, s, tail, r) == Step(r, [])
  {
  }

  lemma PerformsMeans(cfg: Config, files: Files, s: Bytes, r: Regs, before: seq<Row>,
                      stop: bool, rest: Bytes, r': Regs, after: seq<Row>)
    requires s != [] && Performs(cfg, files, s, r, before, stop, rest, r', after)
    ensures stop <==> Decode(cfg, s).Stop?
    ensures stop ==> after == before
    ensures !stop ==> rest == Decode(cfg, s).rest && |rest| < |s|
    ensures !stop ==> var step := Exec(cfg, files, Decode(cfg, s).instr, r);
      r' == step.regs && after == Capped(before + step.rows)
  {
    hide Exec;
  }
}
