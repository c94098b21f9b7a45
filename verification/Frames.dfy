/** The frame-pointer walk: one step (`context_step`), collecting return addresses into a bounded context
    (`bw_backtrace_collect`), replaying them (`bw_backtrace_process`) and streaming them (`bw_backtrace`). */
module Frames {
  import opened Bytes
  import opened Wrappers

  const MIN_ADDRESS: u64 := 0x1_0000

  datatype Arch = X64 | Aarch64 {
    /** The highest address taken for a user-space one. */
    function MaxAddress(): u64 {
      if X64? then 0x7fff_ffff_ffff else 0xf_ffff_ffff_ffff
    }
  }

  /** The word at every address. The walk does not write, so memory is a function. */
  type Memory = u64 -> u64

  datatype Frame = Frame(fp: u64, ip: u64)

  predicate Plausible(arch: Arch, address: u64) {
    MIN_ADDRESS <= address <= arch.MaxAddress()
  }

  // ---- What one step does ----

  /** The caller's frame: the saved frame pointer and, one word above it, the return address. */
  function Caller(arch: Arch, mem: Memory, f: Frame): Option<Frame> {
    if !Plausible(arch, f.fp) || f.fp % 8 != 0 then None
    else if mem(f.fp) == f.fp || !Plausible(arch, mem(f.fp)) || !Plausible(arch, mem(f.fp + 8)) then None
    else Some(Frame(mem(f.fp), mem(f.fp + 8)))
  }

  /** The first return addresses of the walk from `f`, at most `n` of them. */
  function Walk(arch: Arch, mem: Memory, f: Frame, n: nat): (ips: seq<u64>)
    ensures |ips| <= n
    decreases n
  {
    if n == 0 || Caller(arch, mem, f).None? then [] else
    var g := Caller(arch, mem, f).value;
    [g.ip] + Walk(arch, mem, g, n - 1)
  }

  /** The frame reached after as many steps as `Walk` takes. */
  function FrameAfter(arch: Arch, mem: Memory, f: Frame, n: nat): Frame
    decreases n
  {
    if n == 0 || Caller(arch, mem, f).None? then f else FrameAfter(arch, mem, Caller(arch, mem, f).value, n - 1)
  }

  /** One more step adds the return address of the frame reached so far, unless the walk ended before. */
  lemma {:induction false} WalkStep(arch: Arch, mem: Memory, f: Frame, n: nat)
    ensures var g := FrameAfter(arch, mem, f, n);
      if |Walk(arch, mem, f, n)| < n || Caller(arch, mem, g).None? then
        && Walk(arch, mem, f, n + 1) == Walk(arch, mem, f, n)
        && FrameAfter(arch, mem, f, n + 1) == g && Caller(arch, mem, g).None?
      else
        && Walk(arch, mem, f, n + 1) == Walk(arch, mem, f, n) + [Caller(arch, mem, g).value.ip]
        && FrameAfter(arch, mem, f, n + 1) == Caller(arch, mem, g).value
    decreases n
  {
    hide Caller;
    if n > 0 && Caller(arch, mem, f).Some? {
      var next := Caller(arch, mem, f).value;
      WalkStep(arch, mem, next, n - 1);
    } else if n == 0 && Caller(arch, mem, f).Some? {
      assert Walk(arch, mem, Caller(arch, mem, f).value, 0) == [];
    }
  }

  lemma WalkZero(arch: Arch, mem: Memory, f: Frame)
    ensures Walk(arch, mem, f, 0) == [] && FrameAfter(arch, mem, f, 0) == f
  {
  }

  /** A longer bound only extends the walk; once it ends short of its bound, no bound changes it. */
  lemma {:induction false} WalkPrefix(arch: Arch, mem: Memory, f: Frame, n: nat, m: nat)
    requires n <= m
    ensures Walk(arch, mem, f, n) == Take(Walk(arch, mem, f, m), n)
    ensures |Walk(arch, mem, f, n)| < n ==> Walk(arch, mem, f, m) == Walk(arch, mem, f, n)
    decreases n
  {
    hide Caller;
    if n > 0 && Caller(arch, mem, f).Some? {
      WalkPrefix(arch, mem, Caller(arch, mem, f).value, n - 1, m - 1);
    }
  }

  /** Every collected return address is plausible. */
  lemma {:induction false} WalkPlausible(arch: Arch, mem: Memory, f: Frame, n: nat)
    ensures forall k | 0 <= k < |Walk(arch, mem, f, n)| :: Plausible(arch, Walk(arch, mem, f, n)[k])
    decreases n
  {
    if n > 0 && Caller(arch, mem, f).Some? {
      WalkPlausible(arch, mem, Caller(arch, mem, f).value, n - 1);
    }
  }

  // ---- Walks that end ----

  /** The frames after `i` and after `j` steps have the same frame pointer. */
  ghost predicate RepeatsAt(arch: Arch, mem: Memory, f: Frame, i: nat, j: nat) {
    && i < j && |Walk(arch, mem, f, j)| == j
    && FrameAfter(arch, mem, f, i).fp == FrameAfter(arch, mem, f, j).fp
  }

  /** Some frame pointer comes up twice on the chain. */
  ghost predicate Repeats(arch: Arch, mem: Memory, f: Frame) {
    exists i: nat, j: nat :: RepeatsAt(arch, mem, f, i, j)
  }

  /** There are as many frames as anyone asks for. */
  ghost predicate Endless(arch: Arch, mem: Memory, f: Frame) {
    forall n: nat :: |Walk(arch, mem, f, n)| == n
  }

  lemma CompleteStep(arch: Arch, mem: Memory, f: Frame, n: nat)
    requires |Walk(arch, mem, f, n)| == n
    ensures |Walk(arch, mem, f, n + 1)| == n + 1 <==> Caller(arch, mem, FrameAfter(arch, mem, f, n)).Some?
    ensures |Walk(arch, mem, f, n + 1)| == n + 1 ==>
      FrameAfter(arch, mem, f, n + 1) == Caller(arch, mem, FrameAfter(arch, mem, f, n)).value
  {
    hide Caller, Walk, FrameAfter;
    WalkStep(arch, mem, f, n);
  }

  /** From the second occurrence of a frame pointer on, the walk goes round the same frames for ever. */
  lemma {:induction false} Periodic(arch: Arch, mem: Memory, f: Frame, i: nat, j: nat, n: nat)
    requires RepeatsAt(arch, mem, f, i, j)
    ensures |Walk(arch, mem, f, n)| == n
    ensures n >= j ==> FrameAfter(arch, mem, f, n).fp == FrameAfter(arch, mem, f, n - (j - i)).fp
    decreases n
  {
    hide Caller, Walk, FrameAfter;
    if n <= j {
      WalkPrefix(arch, mem, f, n, j);
    } else {
      var m := n - (j - i);
      Periodic(arch, mem, f, i, j, n - 1);
      Periodic(arch, mem, f, i, j, m - 1);
      Periodic(arch, mem, f, i, j, m);
      CompleteStep(arch, mem, f, m - 1);
      CompleteStep(arch, mem, f, n - 1);
      CallerOfPointer(arch, mem, FrameAfter(arch, mem, f, m - 1), FrameAfter(arch, mem, f, n - 1));
    }
  }

  lemma CallerOfPointer(arch: Arch, mem: Memory, f: Frame, g: Frame)
    requires f.fp == g.fp
    ensures Caller(arch, mem, f) == Caller(arch, mem, g)
  {
  }

  /** More numbers than there are values: one comes up twice. */
  lemma {:induction false} Pigeonhole(s: seq<nat>, bound: nat) returns (i: nat, j: nat)
    requires |s| > bound && forall k | 0 <= k < |s| :: s[k] < bound
    ensures i < j < |s| && s[i] == s[j]
    decreases bound
  {
    assert s[0] < bound;
    if forall k | 0 <= k < |s| :: s[k] < bound - 1 {
      i, j := Pigeonhole(s, bound - 1);
    } else {
      var m :| 0 <= m < |s| && s[m] >= bound - 1;
      if k :| 0 <= k < |s| && k != m && s[k] == s[m] {
        i, j := if k < m then k else m, if k < m then m else k;
      } else {
        var t := s[..m] + s[m + 1..];
        assert forall k | 0 <= k < |t| :: t[k] == s[if k < m then k else k + 1];
        i, j := Pigeonhole(t, bound - 1);
        i, j := if i < m then i else i + 1, if j < m then j else j + 1;
      }
    }
  }

  /** A walk of more frames than there are words has come by the same frame pointer twice. */
  lemma LongWalkRepeats(arch: Arch, mem: Memory, f: Frame)
    requires |Walk(arch, mem, f, U64)| == U64
    ensures Repeats(arch, mem, f)
  {
    hide Caller, Walk, FrameAfter;
    var fps: seq<nat> := seq(U64 + 1, k requires 0 <= k => FrameAfter(arch, mem, f, k).fp);
    var i, j := Pigeonhole(fps, U64);
    assert fps[i] == FrameAfter(arch, mem, f, i).fp && fps[j] == FrameAfter(arch, mem, f, j).fp;
    WalkPrefix(arch, mem, f, j, U64);
    assert RepeatsAt(arch, mem, f, i, j);
  }

  /** The walk never ends exactly when a frame pointer comes up twice. */
  lemma EndlessIffRepeats(arch: Arch, mem: Memory, f: Frame)
    ensures Endless(arch, mem, f) <==> Repeats(arch, mem, f)
    ensures !Repeats(arch, mem, f) ==> |Walk(arch, mem, f, U64)| < U64
  {
    hide Caller, Walk, FrameAfter;
    if Repeats(arch, mem, f) {
      var i: nat, j: nat :| RepeatsAt(arch, mem, f, i, j);
      forall n: nat
        ensures |Walk(arch, mem, f, n)| == n
      {
        Periodic(arch, mem, f, i, j, n);
      }
    } else if |Walk(arch, mem, f, U64)| == U64 {
      LongWalkRepeats(arch, mem, f);
    }
  }

  /** The only loop a step rejects is a frame that links to itself: a walk that comes to one of two frames
      linked to each other does not end. */
  lemma CycleNeverEnds(arch: Arch, mem: Memory, a: u64, b: u64, ip: u64)
    requires Plausible(arch, a) && Plausible(arch, b) && a != b && a % 8 == 0 && b % 8 == 0
    requires mem(a) == b && mem(b) == a
    requires Plausible(arch, mem(a + 8)) && Plausible(arch, mem(b + 8))
    ensures Endless(arch, mem, Frame(a, ip))
  {
    var f, g, h := Frame(a, ip), Frame(b, mem(a + 8)), Frame(a, mem(b + 8));
    assert Caller(arch, mem, f) == Some(g) && Caller(arch, mem, g) == Some(h);
    assert Walk(arch, mem, g, 1) == [h.ip] + Walk(arch, mem, h, 0);
    assert FrameAfter(arch, mem, g, 1) == FrameAfter(arch, mem, h, 0);
    assert RepeatsAt(arch, mem, f, 0, 2);
    EndlessIffRepeats(arch, mem, f);
  }

  /** Every frame the walk leaves links to a higher address, as on a stack that grows downwards. */
  ghost predicate Ascends(arch: Arch, mem: Memory, f: Frame) {
    forall n: nat | |Walk(arch, mem, f, n + 1)| == n + 1 ::
      FrameAfter(arch, mem, f, n).fp < FrameAfter(arch, mem, f, n + 1).fp
  }

  lemma {:induction false} AscendingPointers(arch: Arch, mem: Memory, f: Frame, i: nat, j: nat)
    requires Ascends(arch, mem, f) && i < j && |Walk(arch, mem, f, j)| == j
    ensures FrameAfter(arch, mem, f, i).fp < FrameAfter(arch, mem, f, j).fp
    decreases j
  {
    hide Caller, Walk, FrameAfter;
    assert |Walk(arch, mem, f, (j - 1) + 1)| == (j - 1) + 1;
    if i < j - 1 {
      WalkPrefix(arch, mem, f, j - 1, j);
      AscendingPointers(arch, mem, f, i, j - 1);
    }
  }

  /** So a walk up the stack ends. */
  lemma AscendingWalkEnds(arch: Arch, mem: Memory, f: Frame)
    requires Ascends(arch, mem, f)
    ensures !Repeats(arch, mem, f) && !Endless(arch, mem, f)
  {
    hide Caller, Walk, FrameAfter;
    if i: nat, j: nat :| RepeatsAt(arch, mem, f, i, j) {
      AscendingPointers(arch, mem, f, i, j);
    }
    EndlessIffRepeats(arch, mem, f);
  }

  /** Highest user-space address. */
  function UserMax(arch: Arch): u64 {
    match arch
    case X64 => 0x7fff_ffff_ffff
    case Aarch64 => 0xf_ffff_ffff_ffff
  }

  /** The frame record at `f.fp` links to `g`: it lies aligned in user space, its first word is the caller's frame
      pointer, another one than its own, and the word above that is the return address, both in user space. */
  predicate Links(arch: Arch, mem: Memory, f: Frame, g: Frame) {
    && 0x1_0000 <= f.fp <= UserMax(arch) && f.fp % 8 == 0
    && mem(f.fp) == g.fp != f.fp && 0x1_0000 <= g.fp <= UserMax(arch)
    && mem(f.fp + 8) == g.ip && 0x1_0000 <= g.ip <= UserMax(arch)
  }

  /** Frames linked one to the next from `f`, the last of which links to none. */
  ghost predicate Chain(arch: Arch, mem: Memory, f: Frame, frames: seq<Frame>)
    decreases |frames|
  {
    if frames == [] then forall g: Frame :: !Links(arch, mem, f, g)
    else Links(arch, mem, f, frames[0]) && Chain(arch, mem, frames[0], frames[1..])
  }

  function ReturnAddresses(frames: seq<Frame>): seq<u64>
    decreases |frames|
  {
    if frames == [] then [] else [frames[0].ip] + ReturnAddresses(frames[1..])
  }

  lemma CallerIsLinked(arch: Arch, mem: Memory, f: Frame)
    ensures match Caller(arch, mem, f)
      case None => forall g: Frame :: !Links(arch, mem, f, g)
      case Some(caller) => forall g: Frame :: Links(arch, mem, f, g) <==> g == caller
  {
  }

  /** In every memory, the walk recovers exactly the return addresses of the chain from `f`, innermost first: it goes
      on as long as there is a link, and no further. */
  lemma {:induction false} WalkOfChain(arch: Arch, mem: Memory, f: Frame, frames: seq<Frame>, n: nat)
    requires Chain(arch, mem, f, frames)
    ensures Walk(arch, mem, f, n) == Take(ReturnAddresses(frames), n)
    decreases n
  {
    hide Caller, Links;
    CallerIsLinked(arch, mem, f);
    if n > 0 {
      if frames != [] {
        WalkOfChain(arch, mem, frames[0], frames[1..], n - 1);
      } else if Caller(arch, mem, f).Some? {
        assert !Links(arch, mem, f, Caller(arch, mem, f).value);
      }
    }
  }

  /** Every walk that ends is that of a chain. */
  lemma {:induction false} ChainOfWalk(arch: Arch, mem: Memory, f: Frame, n: nat) returns (frames: seq<Frame>)
    requires |Walk(arch, mem, f, n)| < n
    ensures Chain(arch, mem, f, frames) && Walk(arch, mem, f, n) == ReturnAddresses(frames)
    decreases n
  {
    hide Caller, Links;
    CallerIsLinked(arch, mem, f);
    if Caller(arch, mem, f).None? {
      frames := [];
    } else {
      var g := Caller(arch, mem, f).value;
      var others := ChainOfWalk(arch, mem, g, n - 1);
      frames := [g] + others;
      assert frames[1..] == others;
    }
  }

  // ---- The step on a context ----

  /** `context_t`: eight words, of which two are used. */
  class Context {
    const data: array<u64>

    constructor (f: Frame)
      ensures fresh(data) && Valid() && FrameOf() == f
    {
      data := new u64[8](i => if i == 0 then f.fp else if i == 1 then f.ip else 0);
    }

    ghost predicate Valid() {
      data.Length == 8
    }

    ghost function FrameOf(): Frame
      reads data
      requires Valid()
    {
      Frame(data[0], data[1])
    }
  }

  /** `context_step`, with authenticated return addresses taken as plain ones. */
  method Step(ctx: Context?, arch: Arch, mem: Memory) returns (ok: bool)
    requires ctx != null ==> ctx.Valid()
    modifies if ctx == null then {} else {ctx.data}
    ensures ctx == null ==> !ok
    ensures ctx != null ==>
      var caller := Caller(arch, mem, old(ctx.FrameOf()));
      && (ok <==> caller.Some?)
      && ctx.FrameOf() == if ok then caller.value else old(ctx.FrameOf())
  {
    if ctx == null {
      return false;
    }
    if ctx.data[0] < MIN_ADDRESS {
      return false;
    }
    if ctx.data[0] > arch.MaxAddress() {
      return false;
    }
    if ctx.data[0] % 8 != 0 {
      return false;
    }
    var nextFp := mem(ctx.data[0]);
    if nextFp == ctx.data[0] {
      return false;
    }
    if nextFp < MIN_ADDRESS || nextFp > arch.MaxAddress() {
      return false;
    }
    var nextIp := mem(ctx.data[0] + 8);
    if nextIp < MIN_ADDRESS || nextIp > arch.MaxAddress() {
      return false;
    }
    ctx.data[0] := nextFp;
    ctx.data[1] := nextIp;
    return true;
  }

  // ---- Collecting ----

  /** `bw_context_t` */
  class Trace {
    const ip: array<u64>
    var ipCnt: nat

    ghost predicate Valid()
      reads this
    {
      ipCnt <= ip.Length
    }

    /** `mkbw_context` */
    constructor (depth: nat)
      ensures Valid() && fresh(ip) && ip.Length == depth && ipCnt == 0
    {
      ip := new u64[depth](_ => 0);
      ipCnt := 0;
    }
  }

  method Store(trace: Trace, i: nat, ip: u64)
    requires i < trace.ip.Length
    modifies trace.ip
    ensures trace.ip[..i + 1] == old(trace.ip[..i]) + [ip]
    ensures forall k | i < k < trace.ip.Length :: trace.ip[k] == old(trace.ip[k])
  {
    trace.ip[i] := ip;
  }

  /** `bw_backtrace_collect` from the frame `start`. The trace receives the first return addresses of the
      walk, as many as it has room for; the result says whether that was all of them. It takes one step more
      than there is room for at most, so it ends even on a cyclic chain. A walk without any frame leaves the
      count of an earlier collection in place. */
  method Collect(trace: Trace, start: Frame, arch: Arch, mem: Memory) returns (ok: bool, ghost steps: nat)
    requires trace.Valid()
    modifies trace`ipCnt, trace.ip
    ensures trace.Valid()
    ensures var depth := trace.ip.Length;
      var walk := Walk(arch, mem, start, depth);
      && trace.ip[..|walk|] == walk
      && (forall k | |walk| <= k < depth :: trace.ip[k] == old(trace.ip[k]))
      && trace.ipCnt == (if walk == [] then old(trace.ipCnt) else |walk|)
      && (forall k | 0 <= k < |walk| :: Plausible(arch, trace.ip[..|walk|][k]))
      && steps == |Walk(arch, mem, start, depth + 1)| <= depth + 1
      && (ok <==> steps <= depth)
  {
    hide Caller, Walk, FrameAfter, Plausible;
    WalkPlausible(arch, mem, start, trace.ip.Length);
    var ctx := new Context(start);
    var ipCnt := 0;
    var stepped := Step(ctx, arch, mem);
    ghost var prev := start;
    WalkZero(arch, mem, start);
    while stepped
      invariant trace.Valid() && ctx.Valid() && fresh(ctx.data)
      invariant ipCnt <= trace.ip.Length && trace.ip[..ipCnt] == Walk(arch, mem, start, ipCnt)
      invariant prev == FrameAfter(arch, mem, start, ipCnt)
      invariant stepped <==> Caller(arch, mem, prev).Some?
      invariant ctx.FrameOf() == if stepped then Caller(arch, mem, prev).value else prev
      invariant forall k | ipCnt <= k < trace.ip.Length :: trace.ip[k] == old(trace.ip[k])
      invariant trace.ipCnt == if ipCnt == 0 then old(trace.ipCnt) else ipCnt
      decreases trace.ip.Length - ipCnt, stepped
    {
      WalkStep(arch, mem, start, ipCnt);
      if ipCnt >= trace.ip.Length {
        return false, ipCnt + 1;
      }
      Store(trace, ipCnt, ctx.data[1]);
      ipCnt := ipCnt + 1;
      trace.ipCnt := ipCnt;
      prev := ctx.FrameOf();
      stepped := Step(ctx, arch, mem);
    }
    WalkStep(arch, mem, start, ipCnt);
    WalkEnds(arch, mem, start, ipCnt, trace.ip.Length);
    return true, ipCnt;
  }

  lemma WalkEnds(arch: Arch, mem: Memory, f: Frame, n: nat, m: nat)
    requires n <= m && |Walk(arch, mem, f, n + 1)| == |Walk(arch, mem, f, n)| == n
    ensures Walk(arch, mem, f, m) == Walk(arch, mem, f, n) == Walk(arch, mem, f, m + 1)
  {
    WalkPrefix(arch, mem, f, n, n + 1);
    WalkPrefix(arch, mem, f, n + 1, m + 1);
    WalkPrefix(arch, mem, f, m, m + 1);
  }

  // ---- Callbacks ----

  /** A callback: any function of the frames reported so far decides whether to go on. */
  type Decision = seq<u64> -> bool

  datatype Replayed = Replayed(calls: seq<u64>, completed: bool)

  /** Reports frames one by one until one is refused. */
  function Replay(decide: Decision, calls: seq<u64>, ips: seq<u64>): (r: Replayed)
    decreases |ips|
  {
    if ips == [] then Replayed(calls, true)
    else if !decide(calls + [ips[0]]) then Replayed(calls + [ips[0]], false)
    else Replay(decide, calls + [ips[0]], ips[1..])
  }

  class Callback {
    const decide: Decision
    var calls: seq<u64>

    constructor (decide: Decision)
      ensures this.decide == decide && calls == []
    {
      this.decide := decide;
      calls := [];
    }

    method Call(ip: u64) returns (more: bool)
      modifies this
      ensures calls == old(calls) + [ip] && more == decide(calls)
    {
      calls := calls + [ip];
      more := decide(calls);
    }
  }

  /** Frames reported so far, and then the rest. */
  lemma {:induction false} ReplayAppend(decide: Decision, calls: seq<u64>, a: seq<u64>, b: seq<u64>)
    ensures var first := Replay(decide, calls, a);
      Replay(decide, calls, a + b) == if first.completed then Replay(decide, first.calls, b) else first
    decreases |a|
  {
    if a == [] {
      assert a + b == b;
    } else {
      assert (a + b)[1..] == a[1..] + b;
      ReplayAppend(decide, calls + [a[0]], a[1..], b);
    }
  }

  /** What is reported is a prefix of the frames: all of them when every answer is yes, else up to and
      including the first no. */
  lemma {:induction false} ReplayMeaning(decide: Decision, calls: seq<u64>, ips: seq<u64>)
    ensures var r := Replay(decide, calls, ips);
      var n := |r.calls| - |calls|;
      && 0 <= n <= |ips| && r.calls == calls + ips[..n]
      && (forall k | 0 < k < n :: decide(calls + ips[..k]))
      && (r.completed ==> n == |ips| && (n > 0 ==> decide(calls + ips)))
      && (!r.completed ==> n > 0 && !decide(r.calls))
    decreases |ips|
  {
    if ips != [] {
      var next := calls + [ips[0]];
      assert next == calls + ips[..1];
      if decide(next) {
        ReplayMeaning(decide, next, ips[1..]);
        var n := |Replay(decide, next, ips[1..]).calls| - |next|;
        assert next + ips[1..][..n] == calls + ips[..n + 1];
        forall k | 0 < k < n + 1
          ensures decide(calls + ips[..k])
        {
          assert calls + ips[..k] == next + ips[1..][..k - 1];
          if k == 1 {
            assert next + ips[1..][..0] == next;
          }
        }
        assert next + ips[1..] == calls + ips;
      }
    }
  }

  /** `bw_backtrace_process` */
  method Process(trace: Trace, cb: Callback?) returns (ok: bool)
    requires trace.Valid()
    modifies cb
    ensures cb == null ==> ok
    ensures cb != null ==>
      Replayed(cb.calls, ok) == Replay(cb.decide, old(cb.calls), trace.ip[..trace.ipCnt])
  {
    var i := 0;
    ghost var ips := trace.ip[..trace.ipCnt];
    while i < trace.ipCnt
      invariant i <= trace.ipCnt && trace.Valid() && ips == trace.ip[..trace.ipCnt]
      invariant cb != null ==>
        Replay(cb.decide, cb.calls, ips[i..]) == Replay(cb.decide, old(cb.calls), ips)
    {
      assert ips[i..][1..] == ips[i + 1..];
      if cb != null {
        var more := cb.Call(trace.ip[i]);
        if !more {
          return false;
        }
      }
      i := i + 1;
    }
    return true;
  }

  // ---- Streaming ----

  /** The callback refuses the `k`-th frame. */
  ghost predicate RefusesAt(arch: Arch, mem: Memory, f: Frame, decide: Decision, calls: seq<u64>, k: nat) {
    k > 0 && |Walk(arch, mem, f, k)| == k && !decide(calls + Walk(arch, mem, f, k))
  }

  ghost predicate Refuses(arch: Arch, mem: Memory, f: Frame, decide: Decision, calls: seq<u64>) {
    exists k: nat :: RefusesAt(arch, mem, f, decide, calls, k)
  }

  /** The stream is over within `n` frames: the walk ends, or one of them is refused. */
  ghost predicate OverWithin(arch: Arch, mem: Memory, f: Frame, decide: Decision, calls: seq<u64>, n: nat) {
    |Walk(arch, mem, f, n + 1)| <= n || !Replay(decide, calls, Walk(arch, mem, f, n)).completed
  }

  lemma RefusedAt(arch: Arch, mem: Memory, f: Frame, decide: Decision, calls: seq<u64>, n: nat)
    requires !Replay(decide, calls, Walk(arch, mem, f, n)).completed
    ensures Refuses(arch, mem, f, decide, calls)
  {
    hide Walk, Replay;
    var walk := Walk(arch, mem, f, n);
    ReplayMeaning(decide, calls, walk);
    var k := |Replay(decide, calls, walk).calls| - |calls|;
    WalkPrefix(arch, mem, f, k, n);
    assert Walk(arch, mem, f, k) == walk[..k];
    assert RefusesAt(arch, mem, f, decide, calls, k);
  }

  /** A stream is over at some point exactly when no frame pointer comes up twice or a frame is refused. */
  lemma StreamEndsIff(arch: Arch, mem: Memory, f: Frame, decide: Decision, calls: seq<u64>)
    ensures (exists n: nat :: OverWithin(arch, mem, f, decide, calls, n))
       <==> !Repeats(arch, mem, f) || Refuses(arch, mem, f, decide, calls)
  {
    hide Walk, Replay, Repeats;
    EndlessIffRepeats(arch, mem, f);
    if n: nat :| OverWithin(arch, mem, f, decide, calls, n) {
      if |Walk(arch, mem, f, n + 1)| > n {
        RefusedAt(arch, mem, f, decide, calls, n);
      }
    }
    if !Repeats(arch, mem, f) {
      assert OverWithin(arch, mem, f, decide, calls, U64 - 1);
    }
    if k: nat :| RefusesAt(arch, mem, f, decide, calls, k) {
      ReplayMeaning(decide, calls, Walk(arch, mem, f, k));
      assert OverWithin(arch, mem, f, decide, calls, k);
    }
  }

  /** Once the stream is over, no larger number of frames changes what was reported. */
  lemma ReplayIsStream(arch: Arch, mem: Memory, f: Frame, decide: Decision, calls: seq<u64>, n: nat, m: nat)
    requires OverWithin(arch, mem, f, decide, calls, n) && n <= m
    ensures Replay(decide, calls, Walk(arch, mem, f, n)) == Replay(decide, calls, Walk(arch, mem, f, m))
  {
    hide Walk, Replay;
    if |Walk(arch, mem, f, n + 1)| <= n {
      WalkPrefix(arch, mem, f, n, n + 1);
      WalkPrefix(arch, mem, f, n + 1, m + 1);
      WalkPrefix(arch, mem, f, m, m + 1);
    } else {
      WalkPrefix(arch, mem, f, n, m);
      var walk := Walk(arch, mem, f, m);
      assert walk == Take(walk, n) + walk[|Take(walk, n)|..];
      ReplayAppend(decide, calls, Take(walk, n), walk[|Take(walk, n)|..]);
    }
  }

  lemma StreamStep(arch: Arch, mem: Memory, f: Frame, decide: Decision, calls: seq<u64>, n: nat)
    requires Caller(arch, mem, f).Some? && OverWithin(arch, mem, f, decide, calls, n)
    ensures n > 0
    ensures var g := Caller(arch, mem, f).value;
      var next, whole := calls + [g.ip], Replay(decide, calls, Walk(arch, mem, f, n));
      if !decide(next) then whole == Replayed(next, false)
      else whole == Replay(decide, next, Walk(arch, mem, g, n - 1)) && OverWithin(arch, mem, g, decide, next, n - 1)
  {
    hide Caller;
    assert Walk(arch, mem, f, 0) == [];
  }

  lemma StreamEnd(arch: Arch, mem: Memory, f: Frame, decide: Decision, calls: seq<u64>, n: nat)
    requires Caller(arch, mem, f).None?
    ensures Replay(decide, calls, Walk(arch, mem, f, n)) == Replayed(calls, true)
  {
    hide Caller;
  }

  /** A missing callback never refuses. */
  ghost function DecisionOf(cb: Callback?): Decision {
    if cb == null then (_: seq<u64>) => true else cb.decide
  }

  ghost function CallsOf(cb: Callback?): seq<u64>
    reads cb
  {
    if cb == null then [] else cb.calls
  }

  /** `bw_backtrace` from the frame `start`. It returns if no frame pointer comes up twice or the callback
      refuses a frame, and by `StreamEndsIff` only then. What it reports is the whole stream: replaying any
      number of frames from `frames` on gives the same calls and the same result. */
  method Backtrace(start: Frame, arch: Arch, mem: Memory, cb: Callback?) returns (ok: bool, ghost frames: nat)
    requires !Repeats(arch, mem, start) || Refuses(arch, mem, start, DecisionOf(cb), CallsOf(cb))
    modifies cb
    ensures OverWithin(arch, mem, start, DecisionOf(cb), old(CallsOf(cb)), frames)
    ensures forall m: nat | frames <= m ::
      var r := Replay(DecisionOf(cb), old(CallsOf(cb)), Walk(arch, mem, start, m));
      r.completed == ok && (cb != null ==> r.calls == cb.calls)
  {
    hide Caller, Repeats, Refuses, Walk, Replay, OverWithin;
    ghost var decide, calls := DecisionOf(cb), CallsOf(cb);
    StreamEndsIff(arch, mem, start, decide, calls);
    frames :| OverWithin(arch, mem, start, decide, calls, frames);
    forall m: nat | frames <= m
      ensures Replay(decide, calls, Walk(arch, mem, start, frames))
           == Replay(decide, calls, Walk(arch, mem, start, m))
    {
      ReplayIsStream(arch, mem, start, decide, calls, frames, m);
    }
    var ctx := new Context(start);
    ghost var total := Replay(decide, calls, Walk(arch, mem, start, frames));
    ghost var left, f := frames, start;
    var stepped := Step(ctx, arch, mem);
    while stepped
      invariant ctx.Valid() && fresh(ctx.data)
      invariant cb != null ==> cb.calls == calls
      invariant OverWithin(arch, mem, f, decide, calls, left)
      invariant Replay(decide, calls, Walk(arch, mem, f, left)) == total
      invariant stepped <==> Caller(arch, mem, f).Some?
      invariant ctx.FrameOf() == if stepped then Caller(arch, mem, f).value else f
      decreases left, stepped
    {
      StreamStep(arch, mem, f, decide, calls, left);
      var ip := ctx.data[1];
      calls := calls + [ip];
      if cb != null {
        var more := cb.Call(ip);
        if !more {
          return false, frames;
        }
      }
      f := ctx.FrameOf();
      left := left - 1;
      stepped := Step(ctx, arch, mem);
    }
    StreamEnd(arch, mem, f, decide, calls, left);
    return true, frames;
  }

  /** Collecting and then replaying makes exactly the calls of the streaming walk cut to the depth of the
      trace: for a fresh trace, in every memory, for every callback. When collecting reports a whole walk,
      they are the calls of the whole stream. */
  method CollectAndProcess(depth: nat, start: Frame, arch: Arch, mem: Memory, cb: Callback)
    returns (whole: bool, ok: bool)
    modifies cb
    ensures whole <==> |Walk(arch, mem, start, depth + 1)| <= depth
    ensures Replayed(cb.calls, ok) == Replay(cb.decide, old(cb.calls), Walk(arch, mem, start, depth))
    ensures whole ==> forall m: nat | depth <= m ::
      Replayed(cb.calls, ok) == Replay(cb.decide, old(cb.calls), Walk(arch, mem, start, m))
  {
    hide Walk, Replay;
    if |Walk(arch, mem, start, depth + 1)| <= depth {
      forall m: nat | depth <= m
        ensures Replay(cb.decide, cb.calls, Walk(arch, mem, start, depth))
             == Replay(cb.decide, cb.calls, Walk(arch, mem, start, m))
      {
        ReplayIsStream(arch, mem, start, cb.decide, cb.calls, depth, m);
      }
    }
    var trace := new Trace(depth);
    ghost var steps;
    whole, steps := Collect(trace, start, arch, mem);
    assert trace.ip[..trace.ipCnt] == Walk(arch, mem, start, depth);
    ok := Process(trace, cb);
  }

  // ---- A stale count ----

  /** A trace that is collected into twice, the second time from a frame without a caller: collecting reports a
      whole walk, and replaying reports the frames of the first one. */
  method CollectAgain(trace: Trace, first: Frame, second: Frame, arch: Arch, mem: Memory, cb: Callback)
    returns (whole: bool, ok: bool)
    requires trace.Valid() && Caller(arch, mem, second).None?
    requires Caller(arch, mem, first).Some? && trace.ip.Length > 0
    modifies trace`ipCnt, trace.ip, cb
    ensures whole
    ensures var walk := Walk(arch, mem, first, trace.ip.Length);
      walk != [] && Replayed(cb.calls, ok) == Replay(cb.decide, old(cb.calls), walk)
  {
    hide Replay;
    ghost var steps;
    whole, steps := Collect(trace, first, arch, mem);
    ghost var walk := Walk(arch, mem, first, trace.ip.Length);
    assert trace.ip[..trace.ipCnt] == walk;
    whole, steps := Collect(trace, second, arch, mem);
    assert trace.ip[..trace.ipCnt] == walk;
    ok := Process(trace, cb);
  }

  const ONE_FRAME: Memory := a => if a == 0x2_0000 then 0x3_0000 else if a == 0x2_0008 then 0x4_0000 else 0

  /** One frame, and then none: the one frame is reported again. */
  method StaleFrame() returns (calls: seq<u64>)
    ensures Caller(X64, ONE_FRAME, Frame(0, 0)).None?
    ensures calls == [0x4_0000]
  {
    var trace := new Trace(4);
    var cb := new Callback(_ => true);
    var f, g := Frame(0x2_0000, 0), Frame(0x3_0000, 0x4_0000);
    assert Caller(X64, ONE_FRAME, f) == Some(g) && Caller(X64, ONE_FRAME, g).None?;
    assert Walk(X64, ONE_FRAME, g, 3) == [];
    assert Walk(X64, ONE_FRAME, f, 4) == [0x4_0000];
    var whole, ok := CollectAgain(trace, f, Frame(0, 0), X64, ONE_FRAME, cb);
    assert [] + [0x4_0000] == [0x4_0000] && [0x4_0000][1..] == [];
    calls := cb.calls;
  }
}
