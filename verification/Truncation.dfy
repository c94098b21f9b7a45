/** What bytes behind a line-number program can change. Operands are bounded by the section, not by the unit,
    so an operand cut off by the end of the section is completed by whatever is appended. This module says
    exactly when that changes the instructions executed, and when it changes the rows. */
module Truncation {
  import opened Bytes
  import opened Leb128
  import opened LinePrograms

  /** A read with bytes appended behind everything it may look at. */
  function Extend<T>(r: Read<T>, tail: Bytes): Read<T> {
    match r
    case Got(v, rest) => Got(v, rest + tail)
    case Bad(rest) => Bad(rest + tail)
    case Overread => Overread
  }

  function ExtendDecoded(d: Decoded, tail: Bytes): Decoded {
    match d
    case Decoded(i, rest, complete) => Decoded(i, rest + tail, complete)
    case Stop => Stop
  }

  function Repeat(b: byte, n: nat): (s: Bytes)
    ensures |s| == n && forall k | 0 <= k < n :: s[k] == b
  {
    seq(n, _ => b)
  }

  // ---- Operands cut off by the end of the section ----

  /** The bytes end before the integer does, and before the ten bytes it may take. */
  predicate LebShort(s: Bytes) {
    LebLength(s) == 0 && |s| < 10
  }

  predicate OperandsShort(n: nat, s: Bytes)
    decreases n
  {
    n > 0 && (LebShort(s) || (Uleb(s).Got? && OperandsShort(n - 1, Uleb(s).rest)))
  }

  predicate ReadsAddress(cfg: Config, body: Bytes) {
    body != [] && body[0] == 2 && (cfg.addrSize == 4 || cfg.addrSize == 8)
  }

  /** An extended opcode whose length is cut off, whose declared length passes the end of the section, or whose
      address operand does. An address of a size the decoder does not read stops it in any case. */
  predicate ExtendedShort(cfg: Config, s: Bytes) {
    if !Uleb(s).Got? then LebShort(s) else
    var len, body := Uleb(s).value, Uleb(s).rest;
    len > 0 && if |body| < len then body == [] || body[0] != 2 || ReadsAddress(cfg, body)
               else ReadsAddress(cfg, body) && |body| - 1 < cfg.addrSize
  }

  /** Reading the instruction at the front of `s` comes to the end of the section. */
  predicate Truncated(cfg: Config, s: Bytes)
    requires s != []
  {
    var op, s1 := s[0], s[1..];
    if op == 0 then ExtendedShort(cfg, s1)
    else if op >= cfg.opcodeBase || op == 1 || op == 8 then false
    else if op == 2 || op == 3 || op == 4 then LebShort(s1)
    else if op == 9 then |s1| < 2
    else OperandsShort(cfg.stdLen[op - 1], s1)
  }

  /** Some instruction the loop executes, or stops at, is truncated. */
  predicate Starved(cfg: Config, s: Bytes, end: nat)
    decreases |s|
  {
    |s| > end &&
    (Truncated(cfg, s) || (Decode(cfg, s).Decoded? && Starved(cfg, Decode(cfg, s).rest, end)))
  }

  // ---- Complete operands are read alike, whatever follows ----

  lemma {:induction false} LebBeyond(s: Bytes, tail: Bytes)
    requires LebLength(s) == 0
    ensures LebLength(s + tail) == 0 || LebLength(s + tail) > |s|
    decreases |s|
  {
    if s != [] {
      assert (s + tail)[1..] == s[1..] + tail;
      LebBeyond(s[1..], tail);
    }
  }

  lemma UlebSettled(s: Bytes, tail: Bytes)
    requires !LebShort(s)
    ensures Uleb(s + tail) == Extend(Uleb(s), tail)
  {
    hide Uleb, LebLength, UnsignedSum, Wrap;
    UlebMeaning(s);
    UlebMeaning(s + tail);
    if Uleb(s).Got? {
      UlebStable(s, tail);
    } else if LebLength(s) == 0 {
      LebBeyond(s, tail);
    } else {
      LebLengthStable(s, tail);
    }
  }

  lemma SlebSettled(s: Bytes, tail: Bytes)
    requires !LebShort(s)
    ensures Sleb(s + tail) == Extend(Sleb(s), tail)
  {
    hide Sleb, LebLength, SignedSum, Wrap, Signed;
    SlebMeaning(s);
    SlebMeaning(s + tail);
    if Sleb(s).Got? {
      SlebStable(s, tail);
    } else if LebLength(s) == 0 {
      LebBeyond(s, tail);
    } else {
      LebLengthStable(s, tail);
    }
  }

  lemma {:induction false} OperandsSettled(n: nat, s: Bytes, tail: Bytes)
    requires !OperandsShort(n, s)
    ensures ReadOperands(n, s + tail) == ReadOperands(n, s).(rest := ReadOperands(n, s).rest + tail)
    decreases n
  {
    hide Uleb, LebShort;
    if n > 0 {
      UlebSettled(s, tail);
      if Uleb(s).Got? {
        OperandsSettled(n - 1, Uleb(s).rest, tail);
      }
    }
  }

  lemma ExtendedSettled(cfg: Config, s: Bytes, tail: Bytes)
    requires !ExtendedShort(cfg, s)
    ensures DecodeExtended(cfg, s + tail) == ExtendDecoded(DecodeExtended(cfg, s), tail)
  {
    hide Uleb, LeValue, LebShort;
    UlebShape(s);
    UlebSettled(s, tail);
    if Uleb(s).Got? && Uleb(s).value > 0 {
      var len, body := Uleb(s).value, Uleb(s).rest;
      if |body| >= len {
        assert (body + tail)[len..] == body[len..] + tail;
        assert (body + tail)[1..len] == body[1..len];
        assert (body + tail)[1..] == body[1..] + tail;
        if ReadsAddress(cfg, body) {
          LeStable(body[1..], cfg.addrSize, tail);
        }
      }
    }
  }

  lemma UlebShape(s: Bytes)
    ensures LebShort(s) ==> Uleb(s) == Bad([])
  {
    hide Uleb, LebLength, UnsignedSum, Wrap;
    UlebMeaning(s);
  }

  lemma SlebShape(s: Bytes)
    ensures LebShort(s) ==> Sleb(s) == Bad([])
  {
    hide Sleb, LebLength, SignedSum, Wrap, Signed;
    SlebMeaning(s);
  }

  lemma DecodeSettled(cfg: Config, s: Bytes, tail: Bytes)
    requires s != [] && !Truncated(cfg, s)
    ensures Decode(cfg, s + tail) == ExtendDecoded(Decode(cfg, s), tail)
  {
    hide Uleb, Sleb, LeValue, DecodeExtended, ReadOperands, ExtendedShort, OperandsShort, LebShort;
    var op, s1 := s[0], s[1..];
    assert (s + tail)[1..] == s1 + tail;
    if op == 0 {
      ExtendedSettled(cfg, s1, tail);
    } else if op < cfg.opcodeBase && op != 1 && op != 8 {
      if op == 2 || op == 4 {
        UlebSettled(s1, tail);
      } else if op == 3 {
        SlebSettled(s1, tail);
      } else if op == 9 {
        LeStable(s1, 2, tail);
      } else {
        OperandsSettled(cfg.stdLen[op - 1], s1, tail);
      }
    }
  }

  lemma {:induction false} ProgramSettled(cfg: Config, s: Bytes, tail: Bytes, end: nat)
    requires !Starved(cfg, s, end)
    ensures Disassemble(cfg, s + tail, end + |tail|) == Disassemble(cfg, s, end)
    decreases |s|
  {
    hide Decode, Truncated;
    if |s| > end {
      DecodeSettled(cfg, s, tail);
      if Decode(cfg, s).Decoded? {
        ProgramSettled(cfg, Decode(cfg, s).rest, tail, end);
      }
    }
  }

  // ---- A truncated instruction can be completed ----

  lemma {:induction false} LebCompleted(s: Bytes, b: byte, tail: Bytes)
    requires LebLength(s) == 0 && b < 128
    ensures LebLength(s + [b] + tail) == |s| + 1
    decreases |s|
  {
    var t := s + [b] + tail;
    if s != [] {
      assert t[1..] == s[1..] + [b] + tail;
      LebCompleted(s[1..], b, tail);
    }
  }

  lemma UlebCompleted(s: Bytes, b: byte, tail: Bytes)
    requires LebShort(s) && b < 128
    ensures Uleb(s + [b] + tail) == Got(Wrap(UnsignedSum(s + [b])), tail)
  {
    hide Uleb, LebLength, UnsignedSum, Wrap;
    LebCompleted(s, b, tail);
    var t := s + [b] + tail;
    UlebMeaning(t);
    assert t[..|s| + 1] == s + [b] && t[|s| + 1..] == tail;
  }

  lemma SlebCompleted(s: Bytes, b: byte, tail: Bytes)
    requires LebShort(s) && b < 128
    ensures Sleb(s + [b] + tail).Got? && Sleb(s + [b] + tail).rest == tail
  {
    hide Sleb, LebLength, SignedSum, Wrap, Signed;
    LebCompleted(s, b, tail);
    var t := s + [b] + tail;
    SlebMeaning(t);
    assert t[|s| + 1..] == tail;
  }

  /** Up to nine continued groups and a one make a number that is not zero modulo 2^64. */
  lemma {:induction false} SumOfOne(s: Bytes)
    requires LebLength(s) == 0
    ensures 0 < UnsignedSum(s + [1]) < 2 * Pow2(7 * |s|)
    decreases |s|
  {
    hide Pow2;
    PowZero();
    if s == [] {
      assert [1][1..] == [] && s + [1] == [1];
    } else {
      assert (s + [1])[1..] == s[1..] + [1];
      SumOfOne(s[1..]);
      Pow2Seven(7 * |s[1..]|);
    }
  }

  lemma LengthCompleted(s: Bytes)
    requires LebShort(s)
    ensures 0 < UnsignedSum(s + [1]) < U64
  {
    hide Pow2, UnsignedSum;
    SumOfOne(s);
    GroupPowerBelow(7 * |s|);
  }

  lemma {:induction false} OperandsOfZeros(n: nat, s: Bytes, more: nat)
    requires (s == [] || OperandsShort(n, s)) && n <= more
    ensures ReadOperands(n, s + Repeat(0, more)).complete
    ensures n > 0 ==> !ReadOperands(n, s).complete
    decreases n
  {
    hide Uleb, LebLength;
    if n > 0 {
      UlebShape(s);
      if LebShort(s) || s == [] {
        assert LebLength([]) == 0;
        var rest := Repeat(0, more - 1);
        assert s + Repeat(0, more) == s + [0] + rest;
        UlebCompleted(s, 0, rest);
        OperandsOfZeros(n - 1, [], more - 1);
        assert [] + rest == rest;
      } else {
        UlebSettled(s, Repeat(0, more));
        OperandsOfZeros(n - 1, Uleb(s).rest, more);
      }
    }
  }

  lemma ExtendedCompleted(cfg: Config, s: Bytes) returns (tail: Bytes)
    requires ExtendedShort(cfg, s)
    ensures DecodeExtended(cfg, s).Stop? && DecodeExtended(cfg, s + tail).Decoded?
  {
    hide Uleb, LebLength, UnsignedSum, LeValue;
    UlebShape(s);
    if !Uleb(s).Got? {
      LengthCompleted(s);
      var len := UnsignedSum(s + [1]);
      var body := Repeat(0, len);
      tail := [1] + body;
      UlebCompleted(s, 1, body);
      assert s + tail == s + [1] + body;
    } else {
      var len: nat, body := Uleb(s).value, Uleb(s).rest;
      tail := Repeat(0, len + 8);
      UlebStable(s, tail);
      assert (body + tail)[0] == if body == [] then 0 else body[0];
    }
  }

  /** A truncated instruction stops the loop or, when its operands are ignored, records too few of them; some
      bytes behind it complete it. */
  lemma Completed(cfg: Config, s: Bytes) returns (tail: Bytes)
    requires s != [] && Truncated(cfg, s)
    ensures Decode(cfg, s + tail).Decoded?
    ensures Decode(cfg, s).Decoded? ==> Decode(cfg, s).instr != Decode(cfg, s + tail).instr
  {
    hide Uleb, Sleb, LeValue, DecodeExtended, ExtendedShort, OperandsShort, ReadOperands, LebShort;
    var op, s1 := s[0], s[1..];
    if op == 0 {
      tail := ExtendedCompleted(cfg, s1);
    } else if op == 2 || op == 3 || op == 4 {
      tail := [0];
      UlebShape(s1);
      SlebShape(s1);
      UlebCompleted(s1, 0, []);
      SlebCompleted(s1, 0, []);
      assert s1 + tail == s1 + [0] + [];
    } else if op == 9 {
      tail := [0, 0];
    } else {
      var n := cfg.stdLen[op - 1];
      tail := Repeat(0, n);
      OperandsOfZeros(n, s1, n);
      NoOperands(s1);
    }
    assert (s + tail)[1..] == s1 + tail;
  }

  lemma NoOperands(s: Bytes)
    ensures !OperandsShort(0, s)
  {
  }

  lemma {:induction false} StarvedReadsOn(cfg: Config, s: Bytes, end: nat) returns (tail: Bytes)
    requires Starved(cfg, s, end)
    ensures Disassemble(cfg, s + tail, end + |tail|) != Disassemble(cfg, s, end)
    decreases |s|
  {
    hide Decode, Truncated;
    if Truncated(cfg, s) {
      tail := Completed(cfg, s);
      var a, b := Disassemble(cfg, s + tail, end + |tail|), Disassemble(cfg, s, end);
      assert a[0] == Decode(cfg, s + tail).instr;
      assert b == [] || b[0] == Decode(cfg, s).instr;
    } else {
      tail := StarvedReadsOn(cfg, Decode(cfg, s).rest, end);
      DecodeSettled(cfg, s, tail);
      var a, b := Disassemble(cfg, s + tail, end + |tail|), Disassemble(cfg, s, end);
      assert a[1..] == Disassemble(cfg, Decode(cfg, s).rest + tail, end + |tail|);
      assert b[1..] == Disassemble(cfg, Decode(cfg, s).rest, end);
    }
  }

  /** No bytes behind the section change the instructions executed. */
  ghost predicate Local(cfg: Config, s: Bytes, end: nat) {
    forall tail: Bytes :: Disassemble(cfg, s + tail, end + |tail|) == Disassemble(cfg, s, end)
  }

  /** That is the case exactly when no instruction executed, or stopped at, is truncated. */
  lemma LocalIff(cfg: Config, s: Bytes, end: nat)
    ensures Local(cfg, s, end) <==> !Starved(cfg, s, end)
  {
    hide Disassemble, Starved;
    if Starved(cfg, s, end) {
      var tail := StarvedReadsOn(cfg, s, end);
    } else {
      forall tail: Bytes
        ensures Disassemble(cfg, s + tail, end + |tail|) == Disassemble(cfg, s, end)
      {
        ProgramSettled(cfg, s, tail, end);
      }
    }
  }

  // ---- Rows from beyond ----

  /** A truncated `set_address` whose declared length ends before the unit does. With the bytes it misses
      appended, the loop goes on inside the unit instead of ending. */
  predicate Overruns(cfg: Config, s: Bytes, end: nat)
    requires s != []
  {
    && s[0] == 0 && Uleb(s[1..]).Got?
    && var len, body := Uleb(s[1..]).value, Uleb(s[1..]).rest;
       0 < len < |body| - end && ReadsAddress(cfg, body) && |body| - 1 < cfg.addrSize
  }

  function AfterOverrun(cfg: Config, s: Bytes, end: nat): (rest: Bytes)
    requires s != [] && Overruns(cfg, s, end)
    ensures end < |rest| < |s|
  {
    Uleb(s[1..]).rest[Uleb(s[1..]).value..]
  }

  /** How many bytes of the address are missing. */
  function Missing(cfg: Config, s: Bytes, end: nat): (n: nat)
    requires s != [] && Overruns(cfg, s, end)
    ensures 0 < n <= 8
  {
    cfg.addrSize - (|Uleb(s[1..]).rest| - 1)
  }

  /** The address the completed instruction sets. */
  function CompletedAddress(cfg: Config, s: Bytes, end: nat, tail: Bytes): u64
    requires s != [] && Overruns(cfg, s, end) && Missing(cfg, s, end) <= |tail|
  {
    var operand := Uleb(s[1..]).rest[1..] + tail;
    LeFits(operand, cfg.addrSize);
    LeValue(operand[..cfg.addrSize])
  }

  /** The instruction appends a row to the table: at an address that is not zero, unless it is known. */
  predicate AppendsWith(files: Files, i: Instr, after: Regs, known: bool) {
    AppendsRow(i) && RowOf(files, if known then after else after.(address := 1)) != []
  }

  /** The address no longer depends on an earlier operand. */
  predicate SetsAddress(i: Instr) {
    i.SetAddress? || i.EndSequence?
  }

  /** What is left of the unit appends a row for some address in `r`, or for the one in `r` if it is known. */
  predicate Appends(cfg: Config, files: Files, s: Bytes, end: nat, r: Regs, known: bool)
    decreases |s|
  {
    |s| > end &&
    if Overruns(cfg, s, end) then Appends(cfg, files, AfterOverrun(cfg, s, end), end, r.(opIndex := 0), false)
    else match Decode(cfg, s)
      case Stop => false
      case Decoded(i, rest, _) =>
        var r' := Exec(cfg, files, i, r).regs;
        AppendsWith(files, i, r', known) || Appends(cfg, files, rest, end, r', known || SetsAddress(i))
  }

  /** The program comes to a `set_address` that overruns the section, and what follows it appends a row. */
  predicate Leaks(cfg: Config, files: Files, s: Bytes, end: nat, r: Regs)
    decreases |s|
  {
    |s| > end &&
    if Overruns(cfg, s, end) then Appends(cfg, files, AfterOverrun(cfg, s, end), end, r.(opIndex := 0), false)
    else match Decode(cfg, s)
      case Stop => false
      case Decoded(i, rest, _) => Leaks(cfg, files, rest, end, Exec(cfg, files, i, r).regs)
  }

  lemma OverrunStops(cfg: Config, s: Bytes, end: nat)
    requires s != [] && Overruns(cfg, s, end)
    ensures Truncated(cfg, s) && Decode(cfg, s) == Stop
  {
    hide Uleb, LeValue, LebLength;
  }

  lemma OverrunCompleted(cfg: Config, s: Bytes, end: nat, tail: Bytes)
    requires s != [] && Overruns(cfg, s, end)
    ensures Decode(cfg, s + tail) ==
      if |tail| < Missing(cfg, s, end) then Stop
      else Decoded(SetAddress(CompletedAddress(cfg, s, end, tail)), AfterOverrun(cfg, s, end) + tail, true)
  {
    hide Uleb, LeValue, LebLength;
    var len, body := Uleb(s[1..]).value, Uleb(s[1..]).rest;
    assert (s + tail)[1..] == s[1..] + tail;
    UlebStable(s[1..], tail);
    assert (body + tail)[1..] == body[1..] + tail;
    assert (body + tail)[len..] == body[len..] + tail;
  }

  lemma {:induction false} OperandsEnd(n: nat, s: Bytes, tail: Bytes)
    requires OperandsShort(n, s)
    ensures ReadOperands(n, s).rest == [] && |ReadOperands(n, s + tail).rest| <= |tail|
    decreases n
  {
    hide Uleb, LebLength;
    UlebShape(s);
    if LebShort(s) {
      ShortEnd(s, tail);
    } else {
      UlebSettled(s, tail);
      OperandsEnd(n - 1, Uleb(s).rest, tail);
    }
  }

  lemma ShortEnd(s: Bytes, tail: Bytes)
    requires LebShort(s)
    ensures Uleb(s + tail).Got? ==> |Uleb(s + tail).rest| < |tail|
    ensures Uleb(s + tail).Bad? ==> |Uleb(s + tail).rest| <= |tail|
    ensures Sleb(s + tail).Got? ==> |Sleb(s + tail).rest| < |tail|
  {
    hide Uleb, Sleb, LebLength, UnsignedSum, SignedSum, Wrap, Signed;
    UlebMeaning(s + tail);
    SlebMeaning(s + tail);
    LebBeyond(s, tail);
  }

  lemma ExtendedEnds(cfg: Config, s: Bytes, end: nat, tail: Bytes)
    requires ExtendedShort(cfg, s) && !Overruns(cfg, [0] + s, end)
    ensures DecodeExtended(cfg, s).Stop?
    ensures var d := DecodeExtended(cfg, s + tail); d.Decoded? ==> |d.rest| <= end + |tail| && !AppendsRow(d.instr)
  {
    hide Uleb, LebLength, LeValue;
    assert ([0] + s)[1..] == s;
    UlebShape(s);
    if LebShort(s) {
      ShortEnd(s, tail);
    } else {
      UlebSettled(s, tail);
    }
  }

  /** Completed or not, any other truncated instruction appends no row, and no instruction of the unit follows. */
  lemma TruncatedEnds(cfg: Config, s: Bytes, end: nat, tail: Bytes)
    requires s != [] && Truncated(cfg, s) && !Overruns(cfg, s, end)
    ensures var d := Decode(cfg, s); d.Decoded? ==> |d.rest| <= end && !AppendsRow(d.instr)
    ensures var d := Decode(cfg, s + tail); d.Decoded? ==> |d.rest| <= end + |tail| && !AppendsRow(d.instr)
  {
    hide Uleb, Sleb, LebShort, LeValue, DecodeExtended, ExtendedShort, OperandsShort, ReadOperands, Overruns;
    var op, s1 := s[0], s[1..];
    assert (s + tail)[1..] == s1 + tail;
    if op == 0 {
      assert s == [0] + s1;
      ExtendedEnds(cfg, s1, end, tail);
    } else if op == 2 || op == 3 || op == 4 {
      UlebShape(s1);
      SlebShape(s1);
      ShortEnd(s1, tail);
    } else if op != 9 {
      OperandsEnd(cfg.stdLen[op - 1], s1, tail);
    }
  }

  lemma ExecRows(cfg: Config, files: Files, i: Instr, r: Regs)
    requires i.Special? ==> i.opcode >= cfg.opcodeBase
    ensures var step := Exec(cfg, files, i, r); step.rows == if AppendsRow(i) then RowOf(files, step.regs) else []
  {
    hide Advance, MoveLine, RowOf;
  }

  lemma TruncatedRows(cfg: Config, files: Files, s: Bytes, end: nat, r: Regs, tail: Bytes)
    requires |s| > end && Truncated(cfg, s) && !Overruns(cfg, s, end)
    ensures Run(cfg, files, s, end, r).rows == []
    ensures Run(cfg, files, s + tail, end + |tail|, r).rows == []
  {
    hide Decode, Truncated, Overruns, Exec, Run;
    TruncatedEnds(cfg, s, end, tail);
    RunStep(cfg, files, s, end, r);
    RunStep(cfg, files, s + tail, end + |tail|, r);
    if Decode(cfg, s).Decoded? {
      ExecRows(cfg, files, Decode(cfg, s).instr, r);
      RunEnd(cfg, files, Decode(cfg, s).rest, end, Exec(cfg, files, Decode(cfg, s).instr, r).regs);
    }
    if Decode(cfg, s + tail).Decoded? {
      var d := Decode(cfg, s + tail);
      ExecRows(cfg, files, d.instr, r);
      RunEnd(cfg, files, d.rest, end + |tail|, Exec(cfg, files, d.instr, r).regs);
    }
  }

  // ---- Registers that differ in their address at most ----

  predicate Alike(r: Regs, r': Regs, known: bool) {
    r.opIndex == r'.opIndex && r.fileIdx == r'.fileIdx && r.line == r'.line && (known ==> r.address == r'.address)
  }

  lemma WrapInjective(a: u64, b: u64, k: int)
    ensures Wrap(a + k) == Wrap(b + k) ==> a == b
  {
  }

  lemma AdvanceAlike(cfg: Config, r: Regs, r': Regs, n: u64, known: bool)
    requires Alike(r, r', known)
    ensures var after, after' := Advance(cfg, r, n), Advance(cfg, r', n);
      Alike(after, after', known) && (r.address != r'.address ==> after.address != after'.address)
  {
    hide OperationBytes, Wrap;
    WrapInjective(r.address, r'.address, OperationBytes(cfg, Wrap(r.opIndex + n)));
  }

  lemma ExecAlike(cfg: Config, files: Files, i: Instr, r: Regs, r': Regs, known: bool)
    requires i.Special? ==> i.opcode >= cfg.opcodeBase
    requires Alike(r, r', known)
    ensures var after, after' := Exec(cfg, files, i, r).regs, Exec(cfg, files, i, r').regs;
      && Alike(after, after', known || SetsAddress(i))
      && (r.address != r'.address && !SetsAddress(i) ==> after.address != after'.address)
  {
    hide Advance, OpAdvance, LineDelta, RowOf, Wrap;
    match i
    case Special(opcode) => AdvanceAlike(cfg, r, r', OpAdvance(cfg, opcode), known);
    case AdvancePc(n) => AdvanceAlike(cfg, r, r', n, known);
    case ConstAddPc => AdvanceAlike(cfg, r, r', OpAdvance(cfg, 255), known);
    case FixedAdvancePc(d) => WrapInjective(r.address, r'.address, d);
    case _ =>
  }

  /** A row is appended only where `AppendsWith` says so, whatever the unknown address. */
  lemma RowAlike(files: Files, i: Instr, r: Regs, r': Regs, known: bool)
    requires Alike(r, r', known) && AppendsRow(i) && RowOf(files, r') != []
    ensures AppendsWith(files, i, r, known)
  {
  }

  /** Of two different addresses at most one is zero. */
  lemma OneAppends(files: Files, i: Instr, r: Regs, r1: Regs, r2: Regs, known: bool)
    requires Alike(r, r1, known) && Alike(r, r2, known) && (!known ==> r1.address != r2.address)
    requires AppendsWith(files, i, r, known)
    ensures RowOf(files, r1) != [] || RowOf(files, r2) != []
  {
  }

  lemma {:induction false} NothingAppended(cfg: Config, files: Files, s: Bytes, end: nat, r: Regs, r': Regs,
                                           known: bool, tail: Bytes)
    requires !Appends(cfg, files, s, end, r, known) && Alike(r, r', known)
    ensures Run(cfg, files, s + tail, end + |tail|, r').rows == []
    decreases |s|
  {
    hide Decode, Truncated, Overruns, Exec, Run, Alike, AppendsWith, CompletedAddress, Missing;
    if |s| <= end {
      RunEnd(cfg, files, s + tail, end + |tail|, r');
    } else if Overruns(cfg, s, end) {
      OverrunCompleted(cfg, s, end, tail);
      RunStep(cfg, files, s + tail, end + |tail|, r');
      if Decode(cfg, s + tail).Decoded? {
        var a := CompletedAddress(cfg, s, end, tail);
        ExecSetAddress(cfg, files, a, r, r', known);
        NothingAppended(cfg, files, AfterOverrun(cfg, s, end), end, r.(opIndex := 0),
                        r'.(address := a, opIndex := 0), false, tail);
      }
    } else if Truncated(cfg, s) {
      TruncatedRows(cfg, files, s, end, r', tail);
    } else {
      DecodeSettled(cfg, s, tail);
      RunStep(cfg, files, s + tail, end + |tail|, r');
      if Decode(cfg, s).Decoded? {
        var i := Decode(cfg, s).instr;
        var after, after' := Exec(cfg, files, i, r).regs, Exec(cfg, files, i, r').regs;
        ExecAlike(cfg, files, i, r, r', known);
        NothingAppended(cfg, files, Decode(cfg, s).rest, end, after, after', known || SetsAddress(i), tail);
        ExecRows(cfg, files, i, r');
        if AppendsRow(i) && RowOf(files, after') != [] {
          assert !SetsAddress(i);
          RowAlike(files, i, after, after', known);
        }
      }
    }
  }

  lemma ExecSetAddress(cfg: Config, files: Files, a: u64, r: Regs, r': Regs, known: bool)
    requires Alike(r, r', known)
    ensures Exec(cfg, files, SetAddress(a), r') == Step(r'.(address := a, opIndex := 0), [])
    ensures Alike(r.(opIndex := 0), r'.(address := a, opIndex := 0), false)
  {
  }

  const ZEROS: Bytes := Repeat(0, 8)
  const ONES: Bytes := Repeat(1, 8)

  lemma {:induction false} LeInjective(a: Bytes, b: Bytes)
    requires |a| == |b| && LeValue(a) == LeValue(b)
    ensures a == b
    decreases |a|
  {
    if a != [] {
      LeInjective(a[1..], b[1..]);
      assert a == [a[0]] + a[1..] && b == [b[0]] + b[1..];
    }
  }

  lemma OverrunDiffers(cfg: Config, s: Bytes, end: nat)
    requires s != [] && Overruns(cfg, s, end)
    ensures CompletedAddress(cfg, s, end, ZEROS) != CompletedAddress(cfg, s, end, ONES)
  {
    hide Uleb, LeValue, LebLength;
    var n, operand := cfg.addrSize, Uleb(s[1..]).rest[1..];
    var a, b := (operand + ZEROS)[..n], (operand + ONES)[..n];
    assert a[n - 1] == 0 && b[n - 1] == 1;
    if LeValue(a) == LeValue(b) {
      LeInjective(a, b);
    }
  }

  /** Where a row can be appended, it is with zeros or with ones behind the section. */
  lemma {:induction false} SomethingAppended(cfg: Config, files: Files, s: Bytes, end: nat, r: Regs,
                                             r1: Regs, r2: Regs, known: bool)
    requires Appends(cfg, files, s, end, r, known)
    requires Alike(r, r1, known) && Alike(r, r2, known) && (!known ==> r1.address != r2.address)
    ensures Run(cfg, files, s + ZEROS, end + 8, r1).rows != [] || Run(cfg, files, s + ONES, end + 8, r2).rows != []
    decreases |s|
  {
    hide Decode, Truncated, Overruns, Exec, Run, Alike, AppendsWith, CompletedAddress, Missing;
    RunStep(cfg, files, s + ZEROS, end + 8, r1);
    RunStep(cfg, files, s + ONES, end + 8, r2);
    if Overruns(cfg, s, end) {
      OverrunCompleted(cfg, s, end, ZEROS);
      OverrunCompleted(cfg, s, end, ONES);
      OverrunDiffers(cfg, s, end);
      var a1, a2 := CompletedAddress(cfg, s, end, ZEROS), CompletedAddress(cfg, s, end, ONES);
      ExecSetAddress(cfg, files, a1, r, r1, known);
      ExecSetAddress(cfg, files, a2, r, r2, known);
      SomethingAppended(cfg, files, AfterOverrun(cfg, s, end), end, r.(opIndex := 0),
                        r1.(address := a1, opIndex := 0), r2.(address := a2, opIndex := 0), false);
    } else if Truncated(cfg, s) {
      TruncatedEnds(cfg, s, end, []);
      var d := Decode(cfg, s);
      NotAppending(files, d.instr, Exec(cfg, files, d.instr, r).regs, known);
    } else {
      DecodeSettled(cfg, s, ZEROS);
      DecodeSettled(cfg, s, ONES);
      var i := Decode(cfg, s).instr;
      var after, after1, after2 :=
        Exec(cfg, files, i, r).regs, Exec(cfg, files, i, r1).regs, Exec(cfg, files, i, r2).regs;
      ExecAlike(cfg, files, i, r, r1, known);
      ExecAlike(cfg, files, i, r, r2, known);
      if AppendsWith(files, i, after, known) {
        NotAppending(files, i, after, known);
        DifferentAddresses(cfg, files, i, r, r1, r2, known);
        OneAppends(files, i, after, after1, after2, known);
        ExecRows(cfg, files, i, r1);
        ExecRows(cfg, files, i, r2);
      } else {
        DifferentAddresses(cfg, files, i, r, r1, r2, known);
        SomethingAppended(cfg, files, Decode(cfg, s).rest, end, after, after1, after2, known || SetsAddress(i));
      }
    }
  }

  lemma NotAppending(files: Files, i: Instr, after: Regs, known: bool)
    ensures AppendsWith(files, i, after, known) ==> AppendsRow(i) && !SetsAddress(i)
  {
  }

  lemma DifferentAddresses(cfg: Config, files: Files, i: Instr, r: Regs, r1: Regs, r2: Regs, known: bool)
    requires i.Special? ==> i.opcode >= cfg.opcodeBase
    requires Alike(r, r1, known) && Alike(r, r2, known) && (!known ==> r1.address != r2.address)
    ensures !known && !SetsAddress(i) ==>
      Exec(cfg, files, i, r1).regs.address != Exec(cfg, files, i, r2).regs.address
  {
    hide Exec;
    if !known {
      ExecAlike(cfg, files, i, r1, r2, false);
    }
  }

  /** Bytes behind the section add rows at the end, if anything. */
  lemma {:induction false} RowsExtend(cfg: Config, files: Files, s: Bytes, end: nat, r: Regs, tail: Bytes)
    ensures Run(cfg, files, s, end, r).rows <= Run(cfg, files, s + tail, end + |tail|, r).rows
    ensures !Leaks(cfg, files, s, end, r) ==>
      Run(cfg, files, s, end, r).rows == Run(cfg, files, s + tail, end + |tail|, r).rows
    decreases |s|
  {
    hide Decode, Truncated, Overruns, Exec, Run, Appends, CompletedAddress, Missing;
    if |s| <= end {
      RunEnd(cfg, files, s, end, r);
      RunEnd(cfg, files, s + tail, end + |tail|, r);
    } else {
      RunStep(cfg, files, s, end, r);
      RunStep(cfg, files, s + tail, end + |tail|, r);
      if Overruns(cfg, s, end) {
        OverrunStops(cfg, s, end);
        OverrunCompleted(cfg, s, end, tail);
        if !Leaks(cfg, files, s, end, r) && Decode(cfg, s + tail).Decoded? {
          var a := CompletedAddress(cfg, s, end, tail);
          ExecSetAddress(cfg, files, a, r, r, true);
          NothingAppended(cfg, files, AfterOverrun(cfg, s, end), end, r.(opIndex := 0),
                          r.(address := a, opIndex := 0), false, tail);
        }
      } else if Truncated(cfg, s) {
        TruncatedRows(cfg, files, s, end, r, tail);
      } else {
        DecodeSettled(cfg, s, tail);
        if Decode(cfg, s).Decoded? {
          RowsExtend(cfg, files, Decode(cfg, s).rest, end, Exec(cfg, files, Decode(cfg, s).instr, r).regs, tail);
        }
      }
    }
  }

  lemma {:induction false} LeakingRows(cfg: Config, files: Files, s: Bytes, end: nat, r: Regs) returns (tail: Bytes)
    requires Leaks(cfg, files, s, end, r)
    ensures |Run(cfg, files, s, end, r).rows| < |Run(cfg, files, s + tail, end + |tail|, r).rows|
    decreases |s|
  {
    hide Decode, Truncated, Overruns, Exec, Run, Appends, CompletedAddress, Missing;
    RunStep(cfg, files, s, end, r);
    if Overruns(cfg, s, end) {
      OverrunStops(cfg, s, end);
      OverrunCompleted(cfg, s, end, ZEROS);
      OverrunCompleted(cfg, s, end, ONES);
      OverrunDiffers(cfg, s, end);
      var a1, a2 := CompletedAddress(cfg, s, end, ZEROS), CompletedAddress(cfg, s, end, ONES);
      ExecSetAddress(cfg, files, a1, r, r, true);
      ExecSetAddress(cfg, files, a2, r, r, true);
      RunStep(cfg, files, s + ZEROS, end + 8, r);
      RunStep(cfg, files, s + ONES, end + 8, r);
      SomethingAppended(cfg, files, AfterOverrun(cfg, s, end), end, r.(opIndex := 0),
                        r.(address := a1, opIndex := 0), r.(address := a2, opIndex := 0), false);
      tail := if Run(cfg, files, s + ZEROS, end + 8, r).rows != [] then ZEROS else ONES;
    } else {
      if Truncated(cfg, s) {
        TruncatedEnds(cfg, s, end, []);
        assert false;
      }
      var d := Decode(cfg, s);
      tail := LeakingRows(cfg, files, d.rest, end, Exec(cfg, files, d.instr, r).regs);
      DecodeSettled(cfg, s, tail);
      RunStep(cfg, files, s + tail, end + |tail|, r);
    }
  }

  /** No bytes behind the section change the rows. */
  ghost predicate RowsLocal(cfg: Config, files: Files, s: Bytes, end: nat, r: Regs) {
    forall tail: Bytes :: Run(cfg, files, s + tail, end + |tail|, r).rows == Run(cfg, files, s, end, r).rows
  }

  /** That is the case exactly when no `set_address` overruns the section with a row of its unit to follow. */
  lemma RowsLocalIff(cfg: Config, files: Files, s: Bytes, end: nat, r: Regs)
    ensures RowsLocal(cfg, files, s, end, r) <==> !Leaks(cfg, files, s, end, r)
  {
    hide Run, Leaks;
    if Leaks(cfg, files, s, end, r) {
      var tail := LeakingRows(cfg, files, s, end, r);
    } else {
      forall tail: Bytes
        ensures Run(cfg, files, s + tail, end + |tail|, r).rows == Run(cfg, files, s, end, r).rows
      {
        RowsExtend(cfg, files, s, end, r, tail);
      }
    }
  }
}
