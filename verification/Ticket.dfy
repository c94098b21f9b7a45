/** The one-shot latch (`ticket_signal`, `ticket_wait`) as interleaved steps of any number of threads.

    A condition wait releases the mutex and falls asleep in one step; a sleeper is woken by a signal or
    spuriously, and then has to take the mutex again before it looks at the flag. */
module Ticket {

  /** Where a waiting thread is. `Checking` and `Leaving` hold the mutex. */
  datatype Waiter = Entering | Checking | Asleep | Leaving | Returned

  /** Where a signalling thread is. `Holding` and `Stored` hold the mutex; `Owing` has released it and still
      owes its `pthread_cond_signal`. */
  datatype Signaler = Starting | Holding | Stored | Owing | Finished

  datatype State = State(flag: bool, waiters: seq<Waiter>, signalers: seq<Signaler>)

  predicate WaiterHolds(w: Waiter) {
    w.Checking? || w.Leaving?
  }

  predicate SignalerHolds(s: Signaler) {
    s.Holding? || s.Stored?
  }

  predicate MutexFree(s: State) {
    && (forall k | 0 <= k < |s.waiters| :: !WaiterHolds(s.waiters[k]))
    && (forall k | 0 <= k < |s.signalers| :: !SignalerHolds(s.signalers[k]))
  }

  predicate Initial(s: State) {
    && !s.flag
    && (forall k | 0 <= k < |s.waiters| :: s.waiters[k].Entering?)
    && (forall k | 0 <= k < |s.signalers| :: s.signalers[k].Starting?)
  }

  // ---- Steps ----

  /** A step of waiter `k`. `Asleep` to `Entering` is a spurious wakeup. */
  predicate WaiterStep(s: State, s': State, k: int) {
    && 0 <= k < |s.waiters|
    && match s.waiters[k]
       case Entering => MutexFree(s) && s' == s.(waiters := s.waiters[k := Checking])
       case Checking => s' == s.(waiters := s.waiters[k := if s.flag then Leaving else Asleep])
       case Asleep => s' == s.(waiters := s.waiters[k := Entering])
       case Leaving => s' == s.(waiters := s.waiters[k := Returned])
       case Returned => false
  }

  /** A step of signaler `k`. Its condition signal wakes the sleeper `woken`, or nobody when nobody sleeps. */
  predicate SignalerStep(s: State, s': State, k: int, woken: int) {
    && 0 <= k < |s.signalers|
    && match s.signalers[k]
       case Starting => MutexFree(s) && s' == s.(signalers := s.signalers[k := Holding])
       case Holding => s' == s.(flag := true, signalers := s.signalers[k := Stored])
       case Stored => s' == s.(signalers := s.signalers[k := Owing])
       case Owing =>
         if exists j :: 0 <= j < |s.waiters| && s.waiters[j].Asleep? then
           && 0 <= woken < |s.waiters| && s.waiters[woken].Asleep?
           && s' == s.(signalers := s.signalers[k := Finished], waiters := s.waiters[woken := Entering])
         else s' == s.(signalers := s.signalers[k := Finished])
       case Finished => false
  }

  ghost predicate Next(s: State, s': State) {
    (exists k :: WaiterStep(s, s', k)) || (exists k, woken :: SignalerStep(s, s', k, woken))
  }

  /** A run: an initial state, and steps of any threads in any order. */
  ghost predicate Run(run: seq<State>) {
    && run != [] && Initial(run[0])
    && forall i | 0 < i < |run| :: Next(run[i - 1], run[i])
  }

  // ---- Counting ----

  function CountAsleep(ws: seq<Waiter>): (n: nat)
    ensures n <= |ws|
    decreases |ws|
  {
    if ws == [] then 0 else (if ws[0].Asleep? then 1 else 0) + CountAsleep(ws[1..])
  }

  function CountFinished(ss: seq<Signaler>): (n: nat)
    ensures n <= |ss|
    decreases |ss|
  {
    if ss == [] then 0 else (if ss[0].Finished? then 1 else 0) + CountFinished(ss[1..])
  }

  lemma {:induction false} AsleepUpdate(ws: seq<Waiter>, k: nat, w: Waiter)
    requires k < |ws|
    ensures CountAsleep(ws[k := w])
         == CountAsleep(ws) - (if ws[k].Asleep? then 1 else 0) + (if w.Asleep? then 1 else 0)
    decreases |ws|
  {
    if k > 0 {
      AsleepUpdate(ws[1..], k - 1, w);
      assert ws[k := w][1..] == ws[1..][k - 1 := w];
    } else {
      assert ws[0 := w][1..] == ws[1..];
    }
  }

  lemma {:induction false} FinishedUpdate(ss: seq<Signaler>, k: nat, x: Signaler)
    requires k < |ss|
    ensures CountFinished(ss[k := x])
         == CountFinished(ss) - (if ss[k].Finished? then 1 else 0) + (if x.Finished? then 1 else 0)
    decreases |ss|
  {
    if k > 0 {
      FinishedUpdate(ss[1..], k - 1, x);
      assert ss[k := x][1..] == ss[1..][k - 1 := x];
    } else {
      assert ss[0 := x][1..] == ss[1..];
    }
  }

  lemma {:induction false} AsleepExists(ws: seq<Waiter>)
    ensures CountAsleep(ws) > 0 <==> exists k :: 0 <= k < |ws| && ws[k].Asleep?
    decreases |ws|
  {
    if ws != [] {
      AsleepExists(ws[1..]);
      if exists k :: 0 <= k < |ws| && ws[k].Asleep? {
        var k :| 0 <= k < |ws| && ws[k].Asleep?;
        if k > 0 {
          assert ws[1..][k - 1].Asleep?;
        }
      }
      if CountAsleep(ws[1..]) > 0 {
        var k :| 0 <= k < |ws[1..]| && ws[1..][k].Asleep?;
        assert ws[k + 1].Asleep?;
      }
    }
  }

  lemma {:induction false} FinishedCount(ss: seq<Signaler>)
    ensures CountFinished(ss) == |ss| <==> forall k :: 0 <= k < |ss| ==> ss[k].Finished?
    ensures (forall k | 0 <= k < |ss| :: !ss[k].Finished?) ==> CountFinished(ss) == 0
    decreases |ss|
  {
    if ss != [] {
      FinishedCount(ss[1..]);
      if CountFinished(ss) == |ss| {
        forall k | 0 <= k < |ss|
          ensures ss[k].Finished?
        {
          if k > 0 {
            assert ss[1..][k - 1].Finished?;
          }
        }
      }
      if forall k :: 0 <= k < |ss| ==> ss[k].Finished? {
        assert forall k :: 0 <= k < |ss[1..]| ==> ss[1..][k] == ss[k + 1];
      }
      if forall k | 0 <= k < |ss| :: !ss[k].Finished? {
        assert forall k | 0 <= k < |ss[1..]| :: ss[1..][k] == ss[k + 1];
      }
    }
  }

  // ---- The invariant ----

  predicate Past(s: Signaler) {
    s.Stored? || s.Owing? || s.Finished?
  }

  /** At most one thread holds the mutex. */
  predicate MutualExclusion(s: State) {
    && (forall i, j | 0 <= i < j < |s.waiters| :: !(WaiterHolds(s.waiters[i]) && WaiterHolds(s.waiters[j])))
    && (forall i, j | 0 <= i < j < |s.signalers| :: !(SignalerHolds(s.signalers[i]) && SignalerHolds(s.signalers[j])))
    && (forall i, j | 0 <= i < |s.waiters| && 0 <= j < |s.signalers| ::
          !(WaiterHolds(s.waiters[i]) && SignalerHolds(s.signalers[j])))
  }

  /** The flag is set exactly when some signaler got past its store; a waiter leaves only when it is set; and
      while anybody sleeps under a set flag, every finished signaler has woken somebody. */
  ghost predicate Invariant(s: State) {
    && MutualExclusion(s)
    && (s.flag <==> exists k :: 0 <= k < |s.signalers| && Past(s.signalers[k]))
    && (forall k | 0 <= k < |s.waiters| :: s.waiters[k].Leaving? || s.waiters[k].Returned? ==> s.flag)
    && (CountAsleep(s.waiters) > 0 ==> CountAsleep(s.waiters) + CountFinished(s.signalers) <= |s.waiters|)
  }

  lemma InitialInvariant(s: State)
    requires Initial(s)
    ensures Invariant(s)
  {
    FinishedCount(s.signalers);
    AsleepExists(s.waiters);
  }

  lemma WaiterStepInvariant(s: State, s': State, k: int)
    requires Invariant(s) && WaiterStep(s, s', k)
    ensures Invariant(s')
  {
    hide CountAsleep, CountFinished;
    AsleepUpdate(s.waiters, k, s'.waiters[k]);
    if s.waiters[k].Checking? && !s.flag {
      forall j | 0 <= j < |s.signalers|
        ensures !s.signalers[j].Finished?
      {
        assert !Past(s.signalers[j]);
      }
      FinishedCount(s.signalers);
    }
  }

  lemma SignalerStepExclusion(s: State, s': State, k: int, woken: int)
    requires MutualExclusion(s) && SignalerStep(s, s', k, woken)
    ensures MutualExclusion(s')
  {
  }

  /** Finishing adds one to the finished, and takes one from the sleepers if there are any. */
  lemma SignalerStepCount(s: State, s': State, k: int, woken: int)
    requires SignalerStep(s, s', k, woken)
    requires CountAsleep(s.waiters) > 0 ==> CountAsleep(s.waiters) + CountFinished(s.signalers) <= |s.waiters|
    ensures CountAsleep(s'.waiters) > 0 ==> CountAsleep(s'.waiters) + CountFinished(s'.signalers) <= |s'.waiters|
  {
    hide CountAsleep, CountFinished, MutexFree;
    FinishedUpdate(s.signalers, k, s'.signalers[k]);
    AsleepExists(s.waiters);
    if s.signalers[k].Owing? && CountAsleep(s.waiters) > 0 {
      AsleepUpdate(s.waiters, woken, Entering);
    }
  }

  lemma SignalerStepFlag(s: State, s': State, k: int, woken: int)
    requires SignalerStep(s, s', k, woken)
    requires s.flag <==> exists j :: 0 <= j < |s.signalers| && Past(s.signalers[j])
    ensures s'.flag <==> exists j :: 0 <= j < |s'.signalers| && Past(s'.signalers[j])
  {
    hide MutexFree;
    if s'.flag {
      if s.signalers[k].Holding? || Past(s.signalers[k]) {
        assert Past(s'.signalers[k]);
      } else {
        var j :| 0 <= j < |s.signalers| && Past(s.signalers[j]);
        assert Past(s'.signalers[j]);
      }
    }
    if exists j :: 0 <= j < |s'.signalers| && Past(s'.signalers[j]) {
      var j :| 0 <= j < |s'.signalers| && Past(s'.signalers[j]);
      if j != k || Past(s.signalers[j]) {
        assert Past(s.signalers[j]);
      }
    }
  }

  lemma SignalerStepLeavers(s: State, s': State, k: int, woken: int)
    requires SignalerStep(s, s', k, woken)
    requires forall j | 0 <= j < |s.waiters| :: s.waiters[j].Leaving? || s.waiters[j].Returned? ==> s.flag
    ensures forall j | 0 <= j < |s'.waiters| :: s'.waiters[j].Leaving? || s'.waiters[j].Returned? ==> s'.flag
  {
    hide MutexFree;
  }

  lemma SignalerStepInvariant(s: State, s': State, k: int, woken: int)
    requires Invariant(s) && SignalerStep(s, s', k, woken)
    ensures Invariant(s')
  {
    hide CountAsleep, CountFinished, MutualExclusion, SignalerStep, Past;
    SignalerStepExclusion(s, s', k, woken);
    SignalerStepFlag(s, s', k, woken);
    SignalerStepLeavers(s, s', k, woken);
    SignalerStepCount(s, s', k, woken);
  }

  /** In every state of every run. */
  lemma {:induction false} RunInvariant(run: seq<State>, i: nat)
    requires Run(run) && i < |run|
    ensures Invariant(run[i])
    ensures |run[i].waiters| == |run[0].waiters| && |run[i].signalers| == |run[0].signalers|
    decreases i
  {
    hide Invariant, WaiterStep, SignalerStep, Initial;
    if i == 0 {
      InitialInvariant(run[0]);
    } else {
      RunInvariant(run, i - 1);
      NextInvariant(run[i - 1], run[i]);
    }
  }

  lemma NextInvariant(s: State, s': State)
    requires Invariant(s) && Next(s, s')
    ensures Invariant(s') && |s'.waiters| == |s.waiters| && |s'.signalers| == |s.signalers|
  {
    hide Invariant;
    StepSizes(s, s');
    if k :| WaiterStep(s, s', k) {
      WaiterStepInvariant(s, s', k);
    } else {
      var k, woken :| SignalerStep(s, s', k, woken);
      SignalerStepInvariant(s, s', k, woken);
    }
  }

  lemma StepSizes(s: State, s': State)
    requires Next(s, s')
    ensures |s'.waiters| == |s.waiters| && |s'.signalers| == |s.signalers|
    ensures s.flag ==> s'.flag
  {
  }

  // ---- What the latch promises ----

  /** A wait never returns before some signal has set the flag. */
  lemma WaitReturnsAfterSignal(run: seq<State>, i: nat, k: nat)
    requires Run(run) && i < |run| && k < |run[i].waiters| && run[i].waiters[k].Returned?
    ensures run[i].flag && exists j :: 0 <= j < |run[i].signalers| && Past(run[i].signalers[j])
  {
    RunInvariant(run, i);
  }

  /** The flag is never reset. */
  lemma {:induction false} FlagStable(run: seq<State>, i: nat, j: nat)
    requires Run(run) && i <= j < |run| && run[i].flag
    ensures run[j].flag
    decreases j - i
  {
    hide Next, Initial;
    if i < j {
      FlagStable(run, i, j - 1);
      assert Next(run[j - 1], run[j]);
      StepSizes(run[j - 1], run[j]);
    }
  }

  /** With a single waiter: whenever the flag is set and the waiter sleeps, some signaler still owes it a
      condition signal. */
  lemma NoLostWakeup(run: seq<State>, i: nat)
    requires Run(run) && i < |run| && |run[i].waiters| == 1
    requires run[i].flag && run[i].waiters[0].Asleep?
    ensures exists k :: 0 <= k < |run[i].signalers| && (run[i].signalers[k].Stored? || run[i].signalers[k].Owing?)
  {
    RunInvariant(run, i);
    var s := run[i];
    AsleepExists(s.waiters);
    var k :| 0 <= k < |s.signalers| && Past(s.signalers[k]);
    FinishedUpdate(s.signalers, k, Starting);
  }

  /** With any number of waiters and at least as many signals: once every signaler is done nobody sleeps. */
  lemma EnoughSignalsWakeAll(run: seq<State>, i: nat)
    requires Run(run) && i < |run| && 0 < |run[i].waiters| <= |run[i].signalers|
    requires forall k | 0 <= k < |run[i].signalers| :: run[i].signalers[k].Finished?
    ensures forall k | 0 <= k < |run[i].waiters| :: !run[i].waiters[k].Asleep?
  {
    RunInvariant(run, i);
    FinishedCount(run[i].signalers);
    AsleepExists(run[i].waiters);
  }

  // ---- The count is sharp ----

  function Sleepers(n: nat, from: nat, to: nat): (ws: seq<Waiter>)
    ensures |ws| == n
  {
    seq(n, k => if from <= k < to then Asleep else Entering)
  }

  function Done(n: nat, m: nat): (ss: seq<Signaler>)
    ensures |ss| == n
  {
    seq(n, k => if k < m then Finished else Starting)
  }

  /** A run to this state. */
  ghost predicate LeadsTo(run: seq<State>, s: State) {
    Run(run) && run != [] && run[|run| - 1] == s
  }

  lemma Extend(run: seq<State>, last: State, s: State) returns (longer: seq<State>)
    requires LeadsTo(run, last) && Next(last, s)
    ensures LeadsTo(longer, s)
  {
    hide Next, Initial;
    longer := run + [s];
    forall i | 0 < i < |longer|
      ensures Next(longer[i - 1], longer[i])
    {
      if i < |run| {
        assert Next(run[i - 1], run[i]);
      }
    }
  }

  /** All waiters can be asleep before any signal arrives. */
  lemma {:induction false} AllAsleep(w: nat, n: nat, m: nat) returns (run: seq<State>)
    requires m <= w
    ensures LeadsTo(run, State(false, Sleepers(w, 0, m), Done(n, 0)))
    decreases m
  {
    if m == 0 {
      run := [State(false, Sleepers(w, 0, 0), Done(n, 0))];
    } else {
      run := AllAsleep(w, n, m - 1);
      var s := run[|run| - 1];
      var s1 := s.(waiters := s.waiters[m - 1 := Checking]);
      var s2 := s1.(waiters := s1.waiters[m - 1 := Asleep]);
      assert WaiterStep(s, s1, m - 1) && WaiterStep(s1, s2, m - 1);
      run := Extend(run, s, s1);
      run := Extend(run, s1, s2);
      assert s2.waiters == Sleepers(w, 0, m);
    }
  }

  /** The four steps of signaler `m` that wake waiter `m`. */
  lemma SignalOne(w: nat, n: nat, m: nat) returns (s1: State, s2: State, s3: State)
    requires m < n && m < w
    ensures Next(State(m > 0, Sleepers(w, m, w), Done(n, m)), s1)
    ensures Next(s1, s2) && Next(s2, s3)
    ensures Next(s3, State(true, Sleepers(w, m + 1, w), Done(n, m + 1)))
  {
    var s := State(m > 0, Sleepers(w, m, w), Done(n, m));
    s1 := s.(signalers := s.signalers[m := Holding]);
    s2 := s1.(flag := true, signalers := s1.signalers[m := Stored]);
    s3 := s2.(signalers := s2.signalers[m := Owing]);
    assert SignalerStep(s, s1, m, 0) && SignalerStep(s1, s2, m, 0) && SignalerStep(s2, s3, m, 0);
    SignalLast(w, n, m, s3);
  }

  lemma SignalLast(w: nat, n: nat, m: nat, s: State)
    requires m < n && m < w
    requires s == State(true, Sleepers(w, m, w), Done(n, m)[m := Owing])
    ensures Next(s, State(true, Sleepers(w, m + 1, w), Done(n, m + 1)))
  {
    var last := State(true, Sleepers(w, m + 1, w), Done(n, m + 1));
    assert s.waiters[m].Asleep?;
    assert last.waiters == s.waiters[m := Entering] && last.signalers == s.signalers[m := Finished];
    assert SignalerStep(s, last, m, m);
  }

  lemma {:induction false} SignalOneByOne(w: nat, n: nat, m: nat) returns (run: seq<State>)
    requires m <= n && m <= w
    ensures LeadsTo(run, State(m > 0, Sleepers(w, m, w), Done(n, m)))
    decreases m
  {
    if m == 0 {
      run := AllAsleep(w, n, w);
    } else {
      hide Next, LeadsTo, Sleepers, Done;
      run := SignalOneByOne(w, n, m - 1);
      var s1, s2, s3 := SignalOne(w, n, m - 1);
      run := Extend(run, State(m - 1 > 0, Sleepers(w, m - 1, w), Done(n, m - 1)), s1);
      run := Extend(run, s1, s2);
      run := Extend(run, s2, s3);
      run := Extend(run, s3, State(true, Sleepers(w, m, w), Done(n, m)));
    }
  }

  /** With fewer signals than waiters there is a run in which every signaler is done, the flag is set, and a
      waiter is still asleep: one condition signal wakes one waiter only. */
  lemma TooFewSignals(w: nat, n: nat) returns (run: seq<State>)
    requires 0 < n < w
    ensures Run(run) && run[0] == State(false, Sleepers(w, 0, 0), Done(n, 0))
    ensures var last := run[|run| - 1];
      && last.flag
      && |last.signalers| == n && (forall k | 0 <= k < n :: last.signalers[k].Finished?)
      && |last.waiters| == w && last.waiters[w - 1].Asleep?
  {
    run := SignalOneByOne(w, n, n);
    var last := run[|run| - 1];
    assert last.waiters[w - 1].Asleep?;
    RunSizes(run);
    assert run[0].waiters == Sleepers(w, 0, 0);
    assert run[0].signalers == Done(n, 0);
  }

  lemma RunSizes(run: seq<State>)
    requires Run(run)
    ensures |run[0].waiters| == |run[|run| - 1].waiters| && |run[0].signalers| == |run[|run| - 1].signalers|
  {
    RunInvariant(run, |run| - 1);
  }

  // ---- Every wait returns ----

  /** A sleeper that wakes up without a signal. */
  predicate Spurious(s: State, s': State) {
    exists k :: 0 <= k < |s.waiters| && s.waiters[k].Asleep? && s' == s.(waiters := s.waiters[k := Entering])
  }

  /** A step that is not a spurious wakeup. */
  ghost predicate Proper(s: State, s': State) {
    Next(s, s') && !Spurious(s, s')
  }

  /** Somebody is not through: a signaler, or, under a set flag, a waiter that does not sleep. */
  predicate Unfinished(s: State) {
    || (exists k :: 0 <= k < |s.signalers| && !s.signalers[k].Finished?)
    || (s.flag && exists k :: 0 <= k < |s.waiters| && !s.waiters[k].Asleep? && !s.waiters[k].Returned?)
  }

  /** Steps a waiter has ahead of it until it sleeps or has returned. */
  function WaiterRank(w: Waiter): nat {
    match w
    case Entering => 4
    case Checking => 3
    case Leaving => 2
    case Returned => 1
    case Asleep => 0
  }

  function SignalerRank(s: Signaler): nat {
    match s
    case Starting => 4
    case Holding => 3
    case Stored => 2
    case Owing => 1
    case Finished => 0
  }

  function WaiterRanks(ws: seq<Waiter>): nat
    decreases |ws|
  {
    if ws == [] then 0 else WaiterRank(ws[0]) + WaiterRanks(ws[1..])
  }

  function SignalerRanks(ss: seq<Signaler>): nat
    decreases |ss|
  {
    if ss == [] then 0 else SignalerRank(ss[0]) + SignalerRanks(ss[1..])
  }

  /** A signaler's step weighs more than the four steps a waiter may have ahead of it once woken. */
  function Measure(s: State): nat {
    WaiterRanks(s.waiters) + 5 * SignalerRanks(s.signalers)
  }

  lemma {:induction false} WaiterRanksUpdate(ws: seq<Waiter>, k: nat, w: Waiter)
    requires k < |ws|
    ensures WaiterRanks(ws[k := w]) == WaiterRanks(ws) - WaiterRank(ws[k]) + WaiterRank(w)
    decreases |ws|
  {
    hide WaiterRank;
    if k > 0 {
      WaiterRanksUpdate(ws[1..], k - 1, w);
      assert ws[k := w][1..] == ws[1..][k - 1 := w];
    } else {
      assert ws[0 := w][1..] == ws[1..];
    }
  }

  lemma {:induction false} SignalerRanksUpdate(ss: seq<Signaler>, k: nat, x: Signaler)
    requires k < |ss|
    ensures SignalerRanks(ss[k := x]) == SignalerRanks(ss) - SignalerRank(ss[k]) + SignalerRank(x)
    decreases |ss|
  {
    hide SignalerRank;
    if k > 0 {
      SignalerRanksUpdate(ss[1..], k - 1, x);
      assert ss[k := x][1..] == ss[1..][k - 1 := x];
    } else {
      assert ss[0 := x][1..] == ss[1..];
    }
  }

  lemma WaiterStepMeasure(s: State, s': State, k: int)
    requires WaiterStep(s, s', k)
    ensures if s.waiters[k].Asleep? then Spurious(s, s') && Measure(s') == Measure(s) + 4 else Measure(s') < Measure(s)
  {
    hide WaiterRanks, SignalerRanks, MutexFree;
    WaiterRanksUpdate(s.waiters, k, s'.waiters[k]);
  }

  lemma SignalerStepMeasure(s: State, s': State, k: int, woken: int)
    requires SignalerStep(s, s', k, woken)
    ensures Measure(s') < Measure(s)
  {
    hide WaiterRanks, SignalerRanks, MutexFree;
    SignalerRanksUpdate(s.signalers, k, s'.signalers[k]);
    if s.signalers[k].Owing? && exists j :: 0 <= j < |s.waiters| && s.waiters[j].Asleep? {
      WaiterRanksUpdate(s.waiters, woken, Entering);
    }
  }

  /** The measure decreases on every step other than a spurious wakeup, which adds four to it. */
  lemma MeasureDecreases(s: State, s': State)
    requires Next(s, s')
    ensures Measure(s') < Measure(s) || (Spurious(s, s') && Measure(s') == Measure(s) + 4)
  {
    hide WaiterStep, SignalerStep, Measure, Spurious;
    if k :| WaiterStep(s, s', k) {
      WaiterIndex(s, s', k);
      WaiterStepMeasure(s, s', k);
    } else {
      var k, woken :| SignalerStep(s, s', k, woken);
      SignalerStepMeasure(s, s', k, woken);
    }
  }

  lemma WaiterIndex(s: State, s': State, k: int)
    requires WaiterStep(s, s', k)
    ensures 0 <= k < |s.waiters|
  {
  }

  /** A step whose measure is smaller is no spurious wakeup. */
  lemma SmallerIsProper(s: State, s': State)
    requires Next(s, s') && Measure(s') < Measure(s)
    ensures Proper(s, s')
  {
    hide Next, WaiterRanks, SignalerRanks;
    if Spurious(s, s') {
      var k :| 0 <= k < |s.waiters| && s.waiters[k].Asleep? && s' == s.(waiters := s.waiters[k := Entering]);
      WaiterRanksUpdate(s.waiters, k, Entering);
    }
  }

  /** Whoever is unfinished, some thread can take a step that is not a spurious wakeup: the one that holds the mutex,
      one that owes a signal, or, the mutex being free, one that wants it. */
  lemma Progress(s: State) returns (s': State)
    requires Unfinished(s)
    ensures Proper(s, s')
  {
    hide Measure, Proper;
    if k :| 0 <= k < |s.waiters| && WaiterHolds(s.waiters[k]) {
      s' := WaiterGoesOn(s, k);
    } else if k :| 0 <= k < |s.signalers| && (SignalerHolds(s.signalers[k]) || s.signalers[k].Owing?) {
      s' := SignalerGoesOn(s, k);
    } else {
      assert MutexFree(s);
      if k :| 0 <= k < |s.signalers| && s.signalers[k].Starting? {
        s' := SignalerGoesOn(s, k);
      } else {
        var k :| 0 <= k < |s.waiters| && s.waiters[k].Entering?;
        s' := WaiterGoesOn(s, k);
      }
    }
  }

  lemma WaiterGoesOn(s: State, k: nat) returns (s': State)
    requires k < |s.waiters|
    requires WaiterHolds(s.waiters[k]) || (s.waiters[k].Entering? && MutexFree(s))
    ensures Proper(s, s')
  {
    hide Proper, Measure;
    var next := match s.waiters[k]
      case Entering => Checking
      case Checking => if s.flag then Leaving else Asleep
      case _ => Returned;
    s' := s.(waiters := s.waiters[k := next]);
    assert WaiterStep(s, s', k);
    WaiterStepMeasure(s, s', k);
    SmallerIsProper(s, s');
  }

  lemma SignalerGoesOn(s: State, k: nat) returns (s': State)
    requires k < |s.signalers| && !s.signalers[k].Finished?
    requires s.signalers[k].Starting? ==> MutexFree(s)
    ensures Proper(s, s')
  {
    hide Proper, Measure;
    var woken := 0;
    match s.signalers[k] {
      case Starting => s' := s.(signalers := s.signalers[k := Holding]);
      case Holding => s' := s.(flag := true, signalers := s.signalers[k := Stored]);
      case Stored => s' := s.(signalers := s.signalers[k := Owing]);
      case Owing =>
        s' := s.(signalers := s.signalers[k := Finished]);
        if j: nat :| j < |s.waiters| && s.waiters[j].Asleep? {
          woken := j;
          s' := s'.(waiters := s.waiters[j := Entering]);
        }
    }
    assert SignalerStep(s, s', k, woken);
    SignalerStepMeasure(s, s', k, woken);
    SmallerIsProper(s, s');
  }

  /** Every wait has returned and every signal is given. */
  predicate AllThrough(s: State) {
    && (forall k | 0 <= k < |s.waiters| :: s.waiters[k].Returned?)
    && (forall k | 0 <= k < |s.signalers| :: s.signalers[k].Finished?)
  }

  /** Nothing but a spurious wakeup is left to happen. */
  ghost predicate Stuck(s: State) {
    forall s': State :: !Proper(s, s')
  }

  /** With at least as many signalers as waiters: a run that nothing but a spurious wakeup can continue has ended with
      every wait returned and every signal given. */
  lemma StuckMeansReturned(run: seq<State>)
    requires Run(run) && 0 < |run[0].waiters| <= |run[0].signalers|
    requires Stuck(run[|run| - 1])
    ensures AllThrough(run[|run| - 1])
  {
    hide Run, Proper;
    RunIsNotEmpty(run);
    var i := |run| - 1;
    var last := run[i];
    if Unfinished(last) {
      var s := Progress(last);
      assert false;
    }
    RunInvariant(run, i);
    EnoughSignalsWakeAll(run, i);
    assert last.flag by {
      assert Past(last.signalers[0]);
    }
  }

  lemma RunIsNotEmpty(run: seq<State>)
    requires Run(run)
    ensures run != []
  {
    hide Next, Initial;
  }

  lemma RunGrows(run: seq<State>, s: State)
    requires Run(run) && Proper(run[|run| - 1], s)
    ensures Run(run + [s])
  {
    hide Next, Initial, Spurious;
    RunIsNotEmpty(run);
    var all := run + [s];
    forall i | 0 < i < |all|
      ensures Next(all[i - 1], all[i])
    {
      if i < |run| {
        assert Next(run[i - 1], run[i]);
      }
    }
  }

  /** With at least as many signalers as waiters, every run can be extended to one in which every wait has returned. */
  lemma {:induction false} EveryWaitCanReturn(run: seq<State>) returns (longer: seq<State>)
    requires Run(run) && 0 < |run[0].waiters| <= |run[0].signalers|
    ensures run <= longer && Run(longer) && AllThrough(longer[|longer| - 1])
    decreases Measure(run[|run| - 1])
  {
    hide Run, Proper, Measure, AllThrough;
    RunIsNotEmpty(run);
    var last := run[|run| - 1];
    if s: State :| Proper(last, s) {
      RunGrows(run, s);
      ProperDecreases(last, s);
      longer := EveryWaitCanReturn(run + [s]);
      assert run + [s] <= longer;
    } else {
      StuckMeansReturned(run);
      longer := run;
    }
  }

  lemma ProperDecreases(s: State, s': State)
    requires Proper(s, s')
    ensures Measure(s') < Measure(s)
  {
    hide Measure, Next, Spurious;
    MeasureDecreases(s, s');
  }

  /** A run that goes on for ever. */
  ghost predicate Endless(run: nat -> State) {
    forall i: nat :: Next(run(i), run(i + 1))
  }

  /** Runs go on for ever only by waking up spuriously again and again: there is a spurious wakeup after any point. */
  lemma {:induction false} EndlessIsSpurious(run: nat -> State, from: nat) returns (i: nat)
    requires Endless(run)
    ensures i >= from && Spurious(run(i), run(i + 1))
    decreases Measure(run(from))
  {
    hide Next, Spurious, Measure;
    assert Next(run(from), run(from + 1));
    MeasureDecreases(run(from), run(from + 1));
    if Measure(run(from + 1)) < Measure(run(from)) {
      i := EndlessIsSpurious(run, from + 1);
    } else {
      i := from;
    }
  }

  function SpuriousSteps(run: seq<State>): nat
    decreases |run|
  {
    if |run| < 2 then 0
    else SpuriousSteps(run[..|run| - 1]) + if Spurious(run[|run| - 2], run[|run| - 1]) then 1 else 0
  }

  /** The length of a run is bounded by where it starts and by the number of its spurious wakeups. */
  lemma {:induction false} RunLength(run: seq<State>)
    requires run != [] && forall i | 0 < i < |run| :: Next(run[i - 1], run[i])
    ensures |run| - 1 + Measure(run[|run| - 1]) <= Measure(run[0]) + 5 * SpuriousSteps(run)
    decreases |run|
  {
    hide Next, Spurious, Measure;
    if |run| > 1 {
      var front := run[..|run| - 1];
      RunLength(front);
      assert Next(run[|run| - 2], run[|run| - 1]);
      MeasureDecreases(run[|run| - 2], run[|run| - 1]);
    }
  }
}
