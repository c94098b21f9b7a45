/** Conservation laws of the line-number registers: what a run of instructions does to the address is
    determined by the sum of its operation advances, however they are split over instructions; line and file
    follow the changes made since the last reset. */
module Registers {
  import opened Bytes
  import opened Division
  import opened LinePrograms
  import opened ProgramEncoding

  /** The operation advance an adjusted opcode stands for. */
  function AdjustedAdvance(cfg: Config, adjusted: nat): nat {
    DivMod(adjusted, cfg.lineRange);
    adjusted / cfg.lineRange
  }

  /** Operations an instruction advances by, as the standard defines them (section 6.2.5 of the DWARF 5 standard). */
  function Operations(cfg: Config, i: Instr): nat
    requires i.Special? ==> i.opcode >= cfg.opcodeBase
  {
    match i
    case Special(opcode) => AdjustedAdvance(cfg, opcode - cfg.opcodeBase)
    case AdvancePc(n) => n
    case ConstAddPc => AdjustedAdvance(cfg, 255 - cfg.opcodeBase)
    case _ => 0
  }

  function TotalOperations(cfg: Config, prog: seq<Instr>): nat
    requires Executable(cfg, prog)
    decreases |prog|
  {
    if prog == [] then 0 else Operations(cfg, prog[0]) + TotalOperations(cfg, prog[1..])
  }

  /** Instructions that set the pointer instead of advancing it. */
  predicate Repositions(i: Instr) {
    i.EndSequence? || i.SetAddress? || i.FixedAdvancePc?
  }

  /** Bytes from the start of an instruction to the one that holds operation `n`. */
  function BytesTo(cfg: Config, n: nat): int {
    cfg.minInst * (n / cfg.maxOps)
  }

  /** The address `n` operations after `r`, before reduction to 64 bits. */
  function AddressAfter(cfg: Config, r: Regs, n: nat): int {
    r.address + BytesTo(cfg, r.opIndex + n)
  }

  /** The operation index `n` operations after the start of an instruction. */
  function IndexOf(cfg: Config, n: nat): (index: nat)
    ensures index < cfg.maxOps
  {
    n % cfg.maxOps
  }

  lemma AdvanceIs(cfg: Config, r: Regs, n: u64)
    requires r.opIndex + n < U64
    ensures Advance(cfg, r, n).address == Wrap(AddressAfter(cfg, r, n))
    ensures Advance(cfg, r, n).opIndex == IndexOf(cfg, r.opIndex + n)
  {
    hide Wrap;
    WrapKeeps(r.opIndex + n);
  }

  lemma WrapAdd(a: int, b: int)
    ensures Wrap(Wrap(a) + b) == Wrap(a + b)
  {
  }

  lemma BytesSplit(cfg: Config, x: nat, n: nat)
    ensures BytesTo(cfg, x) + BytesTo(cfg, IndexOf(cfg, x) + n) == BytesTo(cfg, x + n)
    ensures IndexOf(cfg, IndexOf(cfg, x) + n) == IndexOf(cfg, x + n)
  {
    SplitDivision(x, n, cfg.maxOps);
    Distribute(cfg.minInst, x / cfg.maxOps, (x % cfg.maxOps + n) / cfg.maxOps);
  }

  lemma BytesMonotone(cfg: Config, x: nat, y: nat)
    requires x <= y
    ensures 0 <= BytesTo(cfg, x) <= BytesTo(cfg, y)
  {
    DivMod(x, cfg.maxOps);
    DivMonotone(x, y, cfg.maxOps);
    MulMonotone(cfg.minInst, 0, x / cfg.maxOps);
    MulMonotone(cfg.minInst, x / cfg.maxOps, y / cfg.maxOps);
  }

  /** Where `n` more operations lead after a first advance by `a`. */
  lemma AddressAfterAdvance(cfg: Config, r: Regs, a: u64, n: nat)
    requires r.opIndex + a < U64
    ensures Wrap(AddressAfter(cfg, Advance(cfg, r, a), n)) == Wrap(AddressAfter(cfg, r, a + n))
    ensures IndexOf(cfg, Advance(cfg, r, a).opIndex + n) == IndexOf(cfg, r.opIndex + a + n)
    ensures 0 <= AddressAfter(cfg, r, a) < U64 ==>
      AddressAfter(cfg, Advance(cfg, r, a), n) == AddressAfter(cfg, r, a + n)
  {
    hide Advance, Wrap, BytesTo;
    AdvanceIs(cfg, r, a);
    var x := r.opIndex + a;
    SplitDivision(x, n, cfg.maxOps);
    BytesSplit(cfg, x, n);
    WrapAdd(AddressAfter(cfg, r, a), BytesTo(cfg, IndexOf(cfg, x) + n));
    WrapKeeps(AddressAfter(cfg, r, a));
  }

  lemma WrapKeeps(x: int)
    ensures 0 <= x < U64 ==> Wrap(x) == x
  {
  }

  /** Advances merge and split freely. */
  lemma AdvancesMerge(cfg: Config, r: Regs, a: u64, b: u64)
    requires r.opIndex + a + b < U64
    ensures Advance(cfg, Advance(cfg, r, a), b) == Advance(cfg, r, a + b)
  {
    hide Advance;
    AdvanceIs(cfg, r, a);
    AdvanceIs(cfg, r, a + b);
    var r1 := Advance(cfg, r, a);
    OpIndexBelow(cfg, r, a);
    AdvanceIs(cfg, r1, b);
    AddressAfterAdvance(cfg, r, a, b);
    AdvanceFrame(cfg, r, a);
    AdvanceFrame(cfg, r, a + b);
    AdvanceFrame(cfg, r1, b);
  }

  lemma AdvanceFrame(cfg: Config, r: Regs, n: u64)
    ensures Advance(cfg, r, n).line == r.line && Advance(cfg, r, n).fileIdx == r.fileIdx
  {
  }

  lemma OpIndexBelow(cfg: Config, r: Regs, n: u64)
    ensures Advance(cfg, r, n).opIndex < cfg.maxOps
    ensures Advance(cfg, r, n).opIndex <= r.opIndex + n
  {
    ModBelow(Wrap(r.opIndex + n), cfg.maxOps);
    ModBelow(r.opIndex + n, U64);
  }

  /** The operation index stays below the number of operations per instruction, whatever is executed. */
  lemma {:induction false} OpIndexInvariant(cfg: Config, files: Files, prog: seq<Instr>, r: Regs)
    requires Executable(cfg, prog) && r.opIndex < cfg.maxOps
    ensures ExecAll(cfg, files, prog, r).regs.opIndex < cfg.maxOps
    decreases |prog|
  {
    hide RowOf, Advance;
    if prog != [] {
      var i := prog[0];
      match i {
        case Special(opcode) => OpIndexBelow(cfg, r, OpAdvance(cfg, opcode));
        case AdvancePc(n) => OpIndexBelow(cfg, r, n);
        case ConstAddPc => OpIndexBelow(cfg, r, OpAdvance(cfg, 255));
        case _ =>
      }
      OpIndexInvariant(cfg, files, prog[1..], Exec(cfg, files, i, r).regs);
    }
  }

  predicate Straight(prog: seq<Instr>) {
    forall k | 0 <= k < |prog| :: !Repositions(prog[k])
  }

  /** No single addition of an advance to the operation index overflows, from operation index `opIndex` on. */
  predicate NoOverflow(cfg: Config, prog: seq<Instr>, opIndex: nat)
    requires Executable(cfg, prog)
    decreases |prog|
  {
    prog == [] ||
    var n := opIndex + Operations(cfg, prog[0]);
    n < U64 && NoOverflow(cfg, prog[1..], IndexOf(cfg, n))
  }

  /** Advances that leave room for an operation index never overflow. With one operation per instruction, as in
      every unit up to version 3, that is all of them. */
  lemma {:induction false} SmallAdvances(cfg: Config, prog: seq<Instr>, opIndex: nat)
    requires Executable(cfg, prog) && opIndex < cfg.maxOps
    requires forall k | 0 <= k < |prog| :: Operations(cfg, prog[k]) + cfg.maxOps <= U64
    ensures NoOverflow(cfg, prog, opIndex)
    decreases |prog|
  {
    hide Operations, IndexOf;
    if prog != [] {
      forall k | 0 <= k < |prog[1..]|
        ensures Operations(cfg, prog[1..][k]) + cfg.maxOps <= U64
      {
        assert prog[1..][k] == prog[k + 1];
      }
      SmallAdvances(cfg, prog[1..], IndexOf(cfg, opIndex + Operations(cfg, prog[0])));
    }
  }

  lemma OneOperation(cfg: Config, prog: seq<Instr>)
    requires Executable(cfg, prog) && cfg.maxOps == 1
    ensures NoOverflow(cfg, prog, 0)
  {
    forall k | 0 <= k < |prog|
      ensures Operations(cfg, prog[k]) + cfg.maxOps <= U64
    {
      OperationsFit(cfg, prog[k]);
    }
    SmallAdvances(cfg, prog, 0);
  }

  lemma OperationsFit(cfg: Config, i: Instr)
    requires i.Special? ==> i.opcode >= cfg.opcodeBase
    ensures Operations(cfg, i) < U64
  {
    match i
    case Special(opcode) => AdjustedIsOpAdvance(cfg, opcode);
    case ConstAddPc => AdjustedIsOpAdvance(cfg, 255);
    case _ =>
  }

  /** Where an addition does overflow, operations are lost: with two operations per instruction, an advance by
      2^64 - 1 from operation index 1 leaves the address where it was. */
  lemma OverflowLoses(r: Regs)
    requires r.address == 0 && r.opIndex == 1
    ensures var cfg := Config(1, 2, 0, 1, 1, [], 8);
      && !NoOverflow(cfg, [AdvancePc(U64 - 1)], 1)
      && Advance(cfg, r, U64 - 1).address == 0
      && AddressAfter(cfg, r, U64 - 1) == 0x8000_0000_0000_0000
  {
  }

  /** One instruction is an advance by its operations, as far as the pointer is concerned. */
  lemma ExecPointer(cfg: Config, files: Files, i: Instr, r: Regs)
    requires i.Special? ==> i.opcode >= cfg.opcodeBase
    requires !Repositions(i) && r.opIndex < cfg.maxOps && r.opIndex + Operations(cfg, i) < U64
    ensures var step, n := Exec(cfg, files, i, r), Operations(cfg, i);
      && step.regs.address == Advance(cfg, r, n).address
      && step.regs.opIndex == Advance(cfg, r, n).opIndex == IndexOf(cfg, r.opIndex + n)
      && forall row | row in step.rows :: row.addr == step.regs.address
  {
    hide Wrap, OperationBytes, BytesTo, IndexOf;
    OpIndexBelow(cfg, r, Operations(cfg, i));
    AdvanceIs(cfg, r, Operations(cfg, i));
    if Operations(cfg, i) == 0 {
      AdvanceByZero(cfg, r);
    }
  }

  lemma AdvanceByZero(cfg: Config, r: Regs)
    requires r.opIndex < cfg.maxOps
    ensures Advance(cfg, r, 0) == r
  {
    hide Advance, BytesTo, IndexOf, Wrap;
    AdvanceIs(cfg, r, 0);
    AdvanceFrame(cfg, r, 0);
    WithinInstruction(cfg, r.opIndex);
    WrapKeeps(r.address);
  }

  lemma WithinInstruction(cfg: Config, n: nat)
    requires n < cfg.maxOps
    ensures BytesTo(cfg, n) == 0 && IndexOf(cfg, n) == n
  {
    QuotientUnique(n, 0, n, cfg.maxOps);
    NoBytes(cfg, n);
  }

  lemma NoBytes(cfg: Config, n: nat)
    requires n / cfg.maxOps == 0
    ensures BytesTo(cfg, n) == 0
  {
  }

  /** Where `n` more operations lead after one instruction. */
  lemma PointerStep(cfg: Config, files: Files, i: Instr, r: Regs, n: nat)
    requires i.Special? ==> i.opcode >= cfg.opcodeBase
    requires !Repositions(i) && r.opIndex < cfg.maxOps && r.opIndex + Operations(cfg, i) < U64
    ensures var r1, m := Exec(cfg, files, i, r).regs, Operations(cfg, i) + n;
      && r1.opIndex == IndexOf(cfg, r.opIndex + Operations(cfg, i))
      && Wrap(AddressAfter(cfg, r1, n)) == Wrap(AddressAfter(cfg, r, m))
      && IndexOf(cfg, r1.opIndex + n) == IndexOf(cfg, r.opIndex + m)
  {
    hide Exec, Advance, Operations, AddressAfter, IndexOf, Wrap;
    var a := Operations(cfg, i);
    ExecPointer(cfg, files, i, r);
    AddressAfterAdvance(cfg, r, a, n);
    SamePointer(cfg, Exec(cfg, files, i, r).regs, Advance(cfg, r, a), n);
  }

  /** Between repositionings, and unless the addition of one advance to the operation index overflows, address and
      operation index equal the start advanced by the sum of all operation advances, however large. */
  lemma {:induction false} PointerConserved(cfg: Config, files: Files, prog: seq<Instr>, r: Regs)
    requires Executable(cfg, prog) && Straight(prog)
    requires r.opIndex < cfg.maxOps && NoOverflow(cfg, prog, r.opIndex)
    ensures var end, n := ExecAll(cfg, files, prog, r).regs, TotalOperations(cfg, prog);
      && end.address == Wrap(AddressAfter(cfg, r, n))
      && end.opIndex == IndexOf(cfg, r.opIndex + n)
    decreases |prog|
  {
    hide Exec, Advance, Operations, BytesTo, AddressAfter, IndexOf, Wrap;
    if prog == [] {
      AdvanceByZero(cfg, r);
      AdvanceIs(cfg, r, 0);
    } else {
      PointerStep(cfg, files, prog[0], r, TotalOperations(cfg, prog[1..]));
      PointerConserved(cfg, files, prog[1..], Exec(cfg, files, prog[0], r).regs);
    }
  }

  /** If neither an addition to the operation index nor the address overflows, the rows emitted in between have
      non-decreasing addresses, none below the start and none above the end. */
  lemma {:induction false} RowsAscend(cfg: Config, files: Files, prog: seq<Instr>, r: Regs)
    requires Executable(cfg, prog) && Straight(prog)
    requires r.opIndex < cfg.maxOps && NoOverflow(cfg, prog, r.opIndex)
    requires AddressAfter(cfg, r, TotalOperations(cfg, prog)) < U64
    ensures var out := ExecAll(cfg, files, prog, r);
      && r.address <= out.regs.address
      && (forall j | 0 <= j < |out.rows| :: r.address <= out.rows[j].addr <= out.regs.address)
      && (forall j, k | 0 <= j < k < |out.rows| :: out.rows[j].addr <= out.rows[k].addr)
    decreases |prog|
  {
    hide Exec, Advance, Operations, AddressAfter, Wrap, IndexOf;
    if prog != [] {
      var n, others := Operations(cfg, prog[0]), TotalOperations(cfg, prog[1..]);
      AddressAfterMonotone(cfg, r, 0, n);
      AddressAfterMonotone(cfg, r, n, n + others);
      ExecPointer(cfg, files, prog[0], r);
      AddressAfterAdvance(cfg, r, n, others);
      AdvanceIs(cfg, r, n);
      WrapKeeps(AddressAfter(cfg, r, n));
      AddressAfterZero(cfg, r);
      var r1 := Exec(cfg, files, prog[0], r).regs;
      assert AddressAfter(cfg, r1, others) == AddressAfter(cfg, Advance(cfg, r, n), others) by {
        SamePointer(cfg, r1, Advance(cfg, r, n), others);
      }
      RowsAscend(cfg, files, prog[1..], r1);
    }
  }

  lemma SamePointer(cfg: Config, r: Regs, r': Regs, n: nat)
    requires r.address == r'.address && r.opIndex == r'.opIndex
    ensures AddressAfter(cfg, r, n) == AddressAfter(cfg, r', n)
  {
  }

  lemma AddressAfterZero(cfg: Config, r: Regs)
    ensures r.address <= AddressAfter(cfg, r, 0)
  {
    BytesMonotone(cfg, r.opIndex, r.opIndex);
  }

  lemma AddressAfterMonotone(cfg: Config, r: Regs, a: nat, b: nat)
    requires a <= b
    ensures AddressAfter(cfg, r, a) <= AddressAfter(cfg, r, b)
  {
    BytesMonotone(cfg, r.opIndex + a, r.opIndex + b);
  }

  // ---- The address of any program ----

  /** Neither `end_sequence` nor `set_address`. */
  predicate Continues(prog: seq<Instr>) {
    forall k | 0 <= k < |prog| :: !prog[k].EndSequence? && !prog[k].SetAddress?
  }

  /** The operation an instruction leads to, from operation index `opIndex`, as a 64-bit word. */
  function OperationAfter(cfg: Config, i: Instr, opIndex: u64): u64
    requires i.Special? ==> i.opcode >= cfg.opcodeBase
  {
    (opIndex + Operations(cfg, i)) % U64
  }

  /** Bytes the operation advances of a program amount to: each counts whole instructions of the minimum length from
      the operation index so far, which restarts at zero after every `fixed_advance_pc`. */
  function AdvancedBytes(cfg: Config, prog: seq<Instr>, opIndex: u64): int
    requires Executable(cfg, prog)
    decreases |prog|
  {
    if prog == [] then 0
    else if prog[0].FixedAdvancePc? then AdvancedBytes(cfg, prog[1..], 0)
    else
      var n := OperationAfter(cfg, prog[0], opIndex);
      BytesTo(cfg, n) + AdvancedBytes(cfg, prog[1..], IndexOf(cfg, n))
  }

  /** The operation index after a program. */
  function IndexAfter(cfg: Config, prog: seq<Instr>, opIndex: u64): u64
    requires Executable(cfg, prog)
    decreases |prog|
  {
    if prog == [] then opIndex
    else if prog[0].FixedAdvancePc? then IndexAfter(cfg, prog[1..], 0)
    else IndexAfter(cfg, prog[1..], IndexOf(cfg, OperationAfter(cfg, prog[0], opIndex)))
  }

  /** The operands of all `fixed_advance_pc`, as they stand in the program. */
  function FixedSum(prog: seq<Instr>): nat
    decreases |prog|
  {
    if prog == [] then 0
    else (if prog[0].FixedAdvancePc? then prog[0].bytes else 0) + FixedSum(prog[1..])
  }

  /** What one instruction does to the pointer. */
  lemma PointerOfOne(cfg: Config, files: Files, i: Instr, r: Regs)
    requires (i.Special? ==> i.opcode >= cfg.opcodeBase) && !i.EndSequence? && !i.SetAddress?
    requires r.opIndex < cfg.maxOps
    ensures var r1, n := Exec(cfg, files, i, r).regs, OperationAfter(cfg, i, r.opIndex);
      if i.FixedAdvancePc? then r1.address == Wrap(r.address + i.bytes) && r1.opIndex == 0
      else r1.address == Wrap(r.address + BytesTo(cfg, n)) && r1.opIndex == IndexOf(cfg, n)
  {
    hide Advance, RowOf, BytesTo, IndexOf, Wrap, OpAdvance, AdjustedAdvance, MoveLine;
    MoveKeepsPointer(r);
    if i.Special? {
      AdjustedIsOpAdvance(cfg, i.opcode);
      AdvanceByOperations(cfg, r, OpAdvance(cfg, i.opcode));
      MoveKeepsPointer(Advance(cfg, r, OpAdvance(cfg, i.opcode)));
    } else if i.AdvancePc? {
      AdvanceByOperations(cfg, r, i.operations);
    } else if i.ConstAddPc? {
      AdjustedIsOpAdvance(cfg, 255);
      AdvanceByOperations(cfg, r, OpAdvance(cfg, 255));
    } else if !i.FixedAdvancePc? {
      AdvanceByOperations(cfg, r, 0);
      AdvanceByZero(cfg, r);
    }
  }

  lemma AdjustedIsOpAdvance(cfg: Config, opcode: byte)
    requires opcode >= cfg.opcodeBase
    ensures AdjustedAdvance(cfg, opcode - cfg.opcodeBase) == OpAdvance(cfg, opcode)
  {
  }

  lemma MoveKeepsPointer(r: Regs)
    ensures forall d: int :: MoveLine(r, d).address == r.address && MoveLine(r, d).opIndex == r.opIndex
  {
  }

  lemma AdvanceByOperations(cfg: Config, r: Regs, a: u64)
    ensures var r1, n := Advance(cfg, r, a), (r.opIndex + a) % U64;
      r1.address == Wrap(r.address + BytesTo(cfg, n)) && r1.opIndex == IndexOf(cfg, n)
  {
  }

  /** For every header and every program without `end_sequence` and `set_address`: the address is the start plus the
      advanced bytes plus the plain sum of the fixed operands, modulo 2^64. */
  lemma {:induction false} AddressOfProgram(cfg: Config, files: Files, prog: seq<Instr>, r: Regs)
    requires Executable(cfg, prog) && Continues(prog) && r.opIndex < cfg.maxOps
    ensures var end := ExecAll(cfg, files, prog, r).regs;
      && end.address == (r.address + AdvancedBytes(cfg, prog, r.opIndex) + FixedSum(prog)) % U64
      && end.opIndex == IndexAfter(cfg, prog, r.opIndex)
    decreases |prog|
  {
    hide Exec, Wrap, OperationAfter, BytesTo, IndexOf;
    if prog == [] {
      WrapIs(r.address);
    } else {
      var i, r1 := prog[0], Exec(cfg, files, prog[0], r).regs;
      PointerOfOne(cfg, files, i, r);
      var bytes := if i.FixedAdvancePc? then i.bytes else BytesTo(cfg, OperationAfter(cfg, i, r.opIndex));
      var rest := AdvancedBytes(cfg, prog[1..], r1.opIndex) + FixedSum(prog[1..]);
      AddressOfProgram(cfg, files, prog[1..], r1);
      WrapAdd(r.address + bytes, rest);
      WrapIs(r1.address + rest);
      WrapIs(r.address + bytes + rest);
    }
  }

  lemma WrapIs(x: int)
    ensures Wrap(x) == x % U64
    ensures 0 <= x < U64 ==> x % U64 == x
  {
  }

  /** Whatever ran before, `set_address` starts the pointer afresh at its operand. */
  lemma AddressAfterSet(cfg: Config, files: Files, a: seq<Instr>, target: u64, b: seq<Instr>, r: Regs)
    requires Executable(cfg, a) && Executable(cfg, b) && Continues(b)
    ensures var prog := a + [SetAddress(target)] + b;
      && Executable(cfg, prog)
      && var end := ExecAll(cfg, files, prog, r).regs;
         && end.address == (target + AdvancedBytes(cfg, b, 0) + FixedSum(b)) % U64
         && end.opIndex == IndexAfter(cfg, b, 0)
  {
    hide ExecAll, AdvancedBytes, FixedSum, IndexAfter;
    var r1 := ExecAll(cfg, files, a, r).regs;
    ExecAppend(cfg, files, a, [SetAddress(target)], r);
    ExecOne(cfg, files, SetAddress(target), r1);
    ExecAppend(cfg, files, a + [SetAddress(target)], b, r);
    AddressOfProgram(cfg, files, b, r1.(address := target, opIndex := 0));
  }

  /** A row is that of the registers right after the instruction that appends it. */
  lemma RowAfterPrefix(cfg: Config, files: Files, a: seq<Instr>, i: Instr, r: Regs)
    requires Executable(cfg, a) && (i.Special? ==> i.opcode >= cfg.opcodeBase)
    ensures Executable(cfg, a + [i])
    ensures var before, after := ExecAll(cfg, files, a, r), ExecAll(cfg, files, a + [i], r);
      after.rows == before.rows + if i.Special? || i.Copy? then RowOf(files, after.regs) else []
  {
    hide ExecAll, Advance, MoveLine, RowOf;
    ExecOne(cfg, files, i, ExecAll(cfg, files, a, r).regs);
    ExecAppend(cfg, files, a, [i], r);
  }

  /** In a stretch without `fixed_advance_pc` the advances merge, unless one addition overflows. */
  lemma {:induction false} AdvancedBytesMerge(cfg: Config, prog: seq<Instr>, opIndex: u64)
    requires Executable(cfg, prog) && Straight(prog) && opIndex < cfg.maxOps && NoOverflow(cfg, prog, opIndex)
    ensures var n := opIndex + TotalOperations(cfg, prog);
      AdvancedBytes(cfg, prog, opIndex) == BytesTo(cfg, n) && IndexAfter(cfg, prog, opIndex) == IndexOf(cfg, n)
    decreases |prog|
  {
    hide Operations, BytesTo, IndexOf;
    if prog == [] {
      WithinInstruction(cfg, opIndex);
    } else {
      var n := opIndex + Operations(cfg, prog[0]);
      WrapIs(n);
      AdvancedBytesMerge(cfg, prog[1..], IndexOf(cfg, n));
      BytesSplit(cfg, n, TotalOperations(cfg, prog[1..]));
    }
  }

  // ---- The other registers ----

  /** What an instruction adds to the line register. */
  function LineChange(cfg: Config, i: Instr): int
    requires i.Special? ==> i.opcode >= cfg.opcodeBase
  {
    match i
    case Special(opcode) => cfg.lineBase + (opcode - cfg.opcodeBase) % cfg.lineRange
    case AdvanceLine(d) => d
    case _ => 0
  }

  function TotalLineChange(cfg: Config, prog: seq<Instr>): int
    requires Executable(cfg, prog)
    decreases |prog|
  {
    if prog == [] then 0 else LineChange(cfg, prog[0]) + TotalLineChange(cfg, prog[1..])
  }

  /** The file selected last, if any was. */
  function LastFile(prog: seq<Instr>, file: u64): u64
    decreases |prog|
  {
    if prog == [] then file
    else if prog[|prog| - 1].SetFile? then prog[|prog| - 1].index
    else LastFile(prog[..|prog| - 1], file)
  }

  /** Within a sequence the line register is the start plus the sum of all line changes, modulo 2^64, and the
      file register holds the file selected last. */
  lemma {:induction false} LineAndFileConserved(cfg: Config, files: Files, prog: seq<Instr>, r: Regs)
    requires Executable(cfg, prog) && forall k | 0 <= k < |prog| :: !prog[k].EndSequence?
    ensures var end := ExecAll(cfg, files, prog, r).regs;
      && end.line == Wrap(r.line + TotalLineChange(cfg, prog))
      && end.fileIdx == LastFile(prog, r.fileIdx)
    decreases |prog|
  {
    hide LineDelta, OpAdvance, Wrap, RowOf;
    if prog == [] {
      WrapKeeps(r.line);
    } else {
      var r1 := Exec(cfg, files, prog[0], r).regs;
      LineOfOne(cfg, files, prog[0], r);
      LineAndFileConserved(cfg, files, prog[1..], r1);
      WrapAdd(r.line + LineChange(cfg, prog[0]), TotalLineChange(cfg, prog[1..]));
      LastFileFront(prog, r.fileIdx);
    }
  }

  lemma LineOfOne(cfg: Config, files: Files, i: Instr, r: Regs)
    requires (i.Special? ==> i.opcode >= cfg.opcodeBase) && !i.EndSequence?
    ensures var r1 := Exec(cfg, files, i, r).regs;
      r1.line == Wrap(r.line + LineChange(cfg, i)) && r1.fileIdx == if i.SetFile? then i.index else r.fileIdx
  {
    hide OpAdvance, RowOf, OperationBytes;
    WrapKeeps(r.line);
  }

  lemma {:induction false} LastFileFront(prog: seq<Instr>, file: u64)
    requires prog != []
    ensures LastFile(prog, file) == LastFile(prog[1..], if prog[0].SetFile? then prog[0].index else file)
    decreases |prog|
  {
    if |prog| > 1 && !prog[|prog| - 1].SetFile? {
      LastFileFront(prog[..|prog| - 1], file);
      assert prog[..|prog| - 1][1..] == prog[1..][..|prog| - 2];
    }
  }

  /** `end_sequence` emits nothing and forgets everything: the rows of what follows are those it emits from
      address 0, operation index 0, file 1 and line 1. */
  lemma SequencesAreIndependent(cfg: Config, files: Files, a: seq<Instr>, b: seq<Instr>, r: Regs)
    requires Executable(cfg, a) && Executable(cfg, b)
    ensures var prog := a + [EndSequence] + b;
      && Executable(cfg, prog)
      && ExecAll(cfg, files, prog, r).rows
      == ExecAll(cfg, files, a, r).rows + ExecAll(cfg, files, b, Regs(0, 0, 1, 1)).rows
      && ExecAll(cfg, files, prog, r).regs == ExecAll(cfg, files, b, Regs(0, 0, 1, 1)).regs
  {
    hide ExecAll;
    var r1 := ExecAll(cfg, files, a, r).regs;
    ExecAppend(cfg, files, a, [EndSequence], r);
    ExecOne(cfg, files, EndSequence, r1);
    ExecAppend(cfg, files, a + [EndSequence], b, r);
  }
}
